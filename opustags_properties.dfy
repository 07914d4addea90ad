/**
 * What the driver of src/opustags.cc guarantees: the order of the edits,
 * that only the comment list changes, and how the packet counter routes
 * packets: packet 1 is validated, packet 2 is rewritten, every other
 * packet is handed to the writer unchanged, and every later page is copied.
 */
module OpustagsProperties {
  import opened Wrappers
  import opened LittleEndian
  import opened Opus
  import opened Opustags
  import OpusProperties

  // ---------------------------------------------------------------------------
  // The edits

  /** Whether some name in `names` deletes comment `c`. */
  predicate Named(c: Comment, names: seq<seq<Byte>>)
  {
    exists i :: 0 <= i < |names| && Matches(c, FieldName(names[i]))
  }

  /** A comment named by the later names is named by the whole list. */
  lemma NamedLater(c: Comment, names: seq<seq<Byte>>)
    requires names != [] && Named(c, names[1..])
    ensures Named(c, names)
  {
    var i :| 0 <= i < |names[1..]| && Matches(c, FieldName(names[1..][i]));
    assert names[1..][i] == names[i + 1];
  }

  /** A comment named by the list but not by its first name is named by the later ones. */
  lemma NamedNotFirst(c: Comment, names: seq<seq<Byte>>)
    requires names != [] && Named(c, names) && !Matches(c, FieldName(names[0]))
    ensures Named(c, names[1..])
  {
    var i :| 0 <= i < |names| && Matches(c, FieldName(names[i]));
    assert i > 0 && names[1..][i - 1] == names[i];
  }

  /** Deleting several fields keeps each comment that none of them names, as often as it occurred, and drops the rest. */
  lemma {:induction false} DeleteEachCounts(cs: seq<Comment>, names: seq<seq<Byte>>, c: Comment)
    ensures multiset(DeleteEach(cs, names))[c] == if Named(c, names) then 0 else multiset(cs)[c]
    decreases |names|
  {
    if names != [] {
      var name := FieldName(names[0]);
      OpusProperties.RemoveFieldCounts(cs, name, c);
      DeleteEachCounts(RemoveField(cs, name), names[1..], c);
      if Named(c, names[1..]) {
        NamedLater(c, names);
      }
      if Named(c, names) && !Matches(c, name) {
        NamedNotFirst(c, names);
      }
    }
  }

  /** Deletion works comment by comment, so the survivors keep their order. */
  lemma {:induction false} DeleteEachAppend(s: seq<Comment>, t: seq<Comment>, names: seq<seq<Byte>>)
    ensures DeleteEach(s + t, names) == DeleteEach(s, names) + DeleteEach(t, names)
    decreases |names|
  {
    if names != [] {
      RemoveFieldAppend(s, t, FieldName(names[0]));
      DeleteEachAppend(RemoveField(s, FieldName(names[0])), RemoveField(t, FieldName(names[0])), names[1..]);
    }
  }

  /** Deleting fields that no comment carries changes nothing. */
  lemma {:induction false} DeleteEachAbsent(cs: seq<Comment>, names: seq<seq<Byte>>)
    requires forall i, j :: 0 <= i < |cs| && 0 <= j < |names| ==> !Matches(cs[i], FieldName(names[j]))
    ensures DeleteEach(cs, names) == cs
    decreases |names|
  {
    if names != [] {
      assert forall i :: 0 <= i < |cs| ==> !Matches(cs[i], FieldName(names[0]));
      OpusProperties.RemoveAbsentField(cs, FieldName(names[0]));
      forall i, j | 0 <= i < |cs| && 0 <= j < |names[1..]|
        ensures !Matches(cs[i], FieldName(names[1..][j]))
      {
        assert names[1..][j] == names[j + 1];
      }
      DeleteEachAbsent(cs, names[1..]);
    }
  }

  /**
   * The order of the edits: the additions always come last and in the given
   * order; with `setAll` the result does not depend on the original comments;
   * with `deleteAll` the names to delete are ignored; otherwise each original
   * comment survives exactly when no name to delete matches it.
   */
  lemma EditOrder(cs: seq<Comment>, opt: Options, input: seq<Comment>)
    ensures var edited := EditComments(cs, opt, input);
      && |opt.toAdd| <= |edited|
      && edited[|edited| - |opt.toAdd|..] == opt.toAdd
      && (opt.setAll ==> edited == input + opt.toAdd)
      && (!opt.setAll && opt.deleteAll ==> edited == opt.toAdd)
      && (!opt.setAll && !opt.deleteAll ==>
            forall c :: multiset(edited)[c] == (if Named(c, opt.toDelete) then 0 else multiset(cs)[c]) + multiset(opt.toAdd)[c])
  {
    var edited := EditComments(cs, opt, input);
    var base := edited[..|edited| - |opt.toAdd|];
    assert edited == base + opt.toAdd;
    if !opt.setAll && !opt.deleteAll {
      forall c ensures multiset(edited)[c] == (if Named(c, opt.toDelete) then 0 else multiset(cs)[c]) + multiset(opt.toAdd)[c] {
        DeleteEachCounts(cs, opt.toDelete, c);
      }
    }
  }

  /** `process_tags` fails exactly when the packet does not parse, and then reports a bad comment header. */
  lemma ProcessFailsOnlyOnBadHeader(packet: Packet, opt: Options, input: seq<Comment>, hasWriter: bool)
    ensures ProcessSpec(packet, opt, input, hasWriter).Err? <==> Parse(packet).Err?
    ensures ProcessSpec(packet, opt, input, hasWriter).Err? ==> ProcessSpec(packet, opt, input, hasWriter).error == BadCommentHeader
    ensures ProcessSpec(packet, opt, input, hasWriter).Ok? ==> (ProcessSpec(packet, opt, input, hasWriter).value.Rendered? <==> hasWriter)
  {
  }

  /**
   * Only the comment list is edited: the rewritten packet parses back to the
   * original vendor string and extra data with the edited comments.
   */
  lemma ProcessKeepsVendorAndExtraData(packet: Packet, opt: Options, input: seq<Comment>)
    requires Parse(packet).Ok?
    requires var t := Parse(packet).value;
      Fits32(t.(comments := EditComments(t.comments, opt, input)))
    ensures var t := Parse(packet).value;
      && ProcessSpec(packet, opt, input, true).Ok?
      && Parse(ProcessSpec(packet, opt, input, true).value.packet)
         == Ok(Tags(t.vendor, EditComments(t.comments, opt, input), t.extraData))
  {
    var t := Parse(packet).value;
    OpusProperties.ParseRender(t.(comments := EditComments(t.comments, opt, input)));
  }

  /** With no edit requested, the comment header is written back byte for byte. */
  lemma ProcessWithoutEditsIsIdentity(packet: Packet, input: seq<Comment>)
    requires Parse(packet).Ok?
    ensures ProcessSpec(packet, Options(false, [], false, []), input, true) == Ok(Rendered(packet))
  {
    var t := Parse(packet).value;
    assert EditComments(t.comments, Options(false, [], false, []), input) == t.comments;
    assert t.(comments := t.comments) == t;
    OpusProperties.RenderParse(packet);
  }

  // ---------------------------------------------------------------------------
  // The packet counter

  /** The number of packets the pages complete. */
  function TotalPackets(pages: seq<Page>): nat
  {
    if pages == [] then 0 else |pages[0].packets| + TotalPackets(pages[1..])
  }

  /** The packets the pages complete, in order. */
  function AllPackets(pages: seq<Page>): (ps: seq<Packet>)
    ensures |ps| == TotalPackets(pages)
  {
    if pages == [] then [] else pages[0].packets + AllPackets(pages[1..])
  }

  /** Every page is accepted and every packet would pass as an identification header. */
  predicate Clean(h: Handlers, pages: seq<Page>)
  {
    forall i :: 0 <= i < |pages| ==>
      pages[i].accepted && forall j :: 0 <= j < |pages[i].packets| ==> h.idHeaderOk(pages[i].packets[j])
  }

  /** The counter value a page starts from: the -1 before the first page is raised to 0. */
  function Started(count: int): int
  {
    if count == -1 then 0 else count
  }

  /** Packets are numbered from the count on; as long as fewer than 2 exist, only packet 1 can be met. */
  lemma {:induction false} FeedFewPackets(h: Handlers, count: int, ps: seq<Packet>, fed: seq<Packet>, printed: Option<seq<Comment>>)
    requires 0 <= count && count + |ps| < 2
    requires forall j :: 0 <= j < |ps| ==> h.idHeaderOk(ps[j])
    ensures FeedPackets(h, count, ps, fed, printed).end == Exhausted
    decreases |ps|
  {
    if ps != [] {
      assert h.idHeaderOk(ps[0]);
      FeedFewPackets(h, count + 1, ps[1..], if h.hasWriter then fed + [ps[0]] else fed, printed);
    }
  }

  lemma {:induction false} FewPacketsFail(h: Handlers, d: Driver, pages: seq<Page>, endsInError: bool)
    requires -1 <= d.count && Started(d.count) + TotalPackets(pages) < 2
    ensures RunPages(h, d, pages, endsInError).error.Some?
    ensures !endsInError && Clean(h, pages) ==> RunPages(h, d, pages, endsInError).error == Some(InvalidFile)
    decreases |pages|
  {
    if pages != [] {
      var page := pages[0];
      var count := Started(d.count);
      if page.accepted {
        var f := FeedPackets(h, count, page.packets, [], d.printed);
        if Clean(h, pages) {
          assert forall j :: 0 <= j < |page.packets| ==> h.idHeaderOk(page.packets[j]);
          FeedFewPackets(h, count, page.packets, [], d.printed);
        }
        if !f.end.Failed? {
          var d' := d.(count := f.count, printed := f.printed);
          var next := if h.hasWriter then d'.(written := d'.written + [Flushed(f.fed)]) else d';
          assert StepPage(h, d, page) == Next(next);
          if Clean(h, pages) {
            assert Clean(h, pages[1..]) by {
              forall i | 0 <= i < |pages[1..]| ensures pages[1..][i] == pages[i + 1] { }
            }
          }
          FewPacketsFail(h, next, pages[1..], endsInError);
        }
      }
    }
  }

  /**
   * A run over pages that complete fewer than 2 packets fails; when nothing
   * else goes wrong, the error is "opustags: invalid file".
   */
  lemma FewerThanTwoPacketsIsInvalid(h: Handlers, input: Input)
    requires TotalPackets(input.pages) < 2
    ensures RunPages(h, Start, input.pages, input.endsInError).error.Some?
    ensures !input.endsInError && Clean(h, input.pages) ==>
      RunPages(h, Start, input.pages, input.endsInError).error == Some(InvalidFile)
  {
    FewPacketsFail(h, Start, input.pages, input.endsInError);
  }

  /** In read-only mode nothing is ever written. */
  lemma {:induction false} ReadOnlyWritesNothing(h: Handlers, d: Driver, pages: seq<Page>, endsInError: bool)
    requires !h.hasWriter
    ensures RunPages(h, d, pages, endsInError).written == d.written
    decreases |pages|
  {
    if pages != [] {
      match StepPage(h, d, pages[0])
      case Next(d') => ReadOnlyWritesNothing(h, d', pages[1..], endsInError);
      case Done(_) =>
      case Abort(_, _) =>
    }
  }

  lemma {:induction false} ReadOnlyStops(h: Handlers, d: Driver, pages: seq<Page>, more: seq<Page>, endsInError: bool)
    requires !h.hasWriter && d.count < 2
    requires RunPages(h, d, pages, false).error == None
    ensures RunPages(h, d, pages + more, endsInError) == RunPages(h, d, pages, false)
    decreases |pages|
  {
    assert pages != [];
    assert (pages + more)[0] == pages[0];
    assert (pages + more)[1..] == pages[1..] + more;
    match StepPage(h, d, pages[0])
    case Next(d') =>
      ReadOnlyStops(h, d', pages[1..], more, endsInError);
    case Done(_) =>
    case Abort(_, _) =>
  }

  /**
   * Read-only mode stops once packet 2 has been handled: after a successful
   * run, whatever follows the pages it read, and whether the read after them
   * would fail, makes no difference.
   */
  lemma ReadOnlyIgnoresLaterPages(h: Handlers, pages: seq<Page>, more: seq<Page>, endsInError: bool)
    requires !h.hasWriter
    requires RunPages(h, Start, pages, false).error == None
    ensures RunPages(h, Start, pages + more, endsInError) == RunPages(h, Start, pages, false)
    ensures RunPages(h, Start, pages, false).written == []
  {
    ReadOnlyStops(h, Start, pages, more, endsInError);
    ReadOnlyWritesNothing(h, Start, pages, false);
  }

  /** Without a writer, a comment header that is accepted is printed, never rendered. */
  ghost predicate Prints(h: Handlers)
  {
    forall p :: h.commentHeader(p).Ok? ==> h.commentHeader(p).value.Printed?
  }

  /** The inner packet loop without a writer, when it does not fail: what it checked, and the list it printed. */
  lemma {:induction false} FeedReadOnly(h: Handlers, count: int, ps: seq<Packet>, fed: seq<Packet>, printed: Option<seq<Comment>>)
    requires !h.hasWriter && Prints(h) && 0 <= count < 2
    requires !FeedPackets(h, count, ps, fed, printed).end.Failed?
    ensures var f := FeedPackets(h, count, ps, fed, printed);
      && (count == 0 && ps != [] ==> h.idHeaderOk(ps[0]))
      && (count + |ps| < 2 ==> f == Feed(count + |ps|, fed, printed, Exhausted))
      && (count + |ps| >= 2 ==>
            && h.commentHeader(ps[1 - count]).Ok?
            && f.count == 2
            && f.printed == Some(h.commentHeader(ps[1 - count]).value.comments))
    decreases |ps|
  {
    if ps != [] && count == 0 {
      FeedReadOnly(h, 1, ps[1..], fed, printed);
      if |ps| >= 2 {
        assert ps[1..][0] == ps[1];
      }
    }
  }

  /** The first page of the header phase without a writer, in a run that succeeds. */
  lemma ReadOnlyFirstPage(h: Handlers, d: Driver, pages: seq<Page>, endsInError: bool)
    requires !h.hasWriter && Prints(h) && -1 <= d.count < 2
    requires RunPages(h, d, pages, endsInError).error == None
    ensures pages != []
    ensures var c := Started(d.count);
      var ps := pages[0].packets;
      var r := RunPages(h, d, pages, endsInError);
      && (c == 0 && ps != [] ==> h.idHeaderOk(ps[0]))
      && (c + |ps| >= 2 ==>
            h.commentHeader(ps[1 - c]).Ok? && r.printed == Some(h.commentHeader(ps[1 - c]).value.comments))
      && (c + |ps| < 2 ==> r == RunPages(h, Driver(c + |ps|, d.written, d.printed), pages[1..], endsInError))
  {
    var c := Started(d.count);
    assert pages != [];
    var page := pages[0];
    assert page.accepted;
    var f := FeedPackets(h, c, page.packets, [], d.printed);
    assert !f.end.Failed?;
    FeedReadOnly(h, c, page.packets, [], d.printed);
    if c + |page.packets| < 2 {
      assert StepPage(h, d, page) == Next(Driver(f.count, d.written, d.printed));
    } else {
      assert StepPage(h, d, page) == Done(Driver(2, d.written, f.printed));
    }
  }

  /** The page on which the counter reaches 2 is the only one left in the header phase. */
  lemma LastHeaderPage(pages: seq<Page>, c: int)
    requires pages != [] && c < 2 <= c + |pages[0].packets|
    ensures HeaderPages(pages, c) == 1
    ensures AllPackets(pages[..HeaderPages(pages, c)]) == pages[0].packets
  {
    assert pages[..1] == [pages[0]];
    assert AllPackets(pages[..1]) == pages[0].packets + AllPackets([]);
  }

  /** Packets 1 and 2 of the header phase, when the first page completes fewer than 2: they are found among the later packets. */
  lemma HeaderPacketIndex(first: seq<Packet>, rest: seq<Packet>, c: int)
    requires 0 <= c && c + |first| < 2 <= c + |first| + |rest|
    ensures (first + rest)[1 - c] == rest[1 - (c + |first|)]
    ensures c == 0 && first == [] ==> (first + rest)[0] == rest[0]
  {
  }

  /** The header phase without a writer, from any counter value below 2: what was checked and what was printed. */
  lemma {:induction false} ReadOnlyRunChecks(h: Handlers, d: Driver, pages: seq<Page>, endsInError: bool)
    requires !h.hasWriter && Prints(h) && -1 <= d.count < 2
    requires RunPages(h, d, pages, endsInError).error == None
    ensures var c := Started(d.count);
      var ps := AllPackets(pages[..HeaderPages(pages, c)]);
      && c + |ps| >= 2
      && (c == 0 ==> h.idHeaderOk(ps[0]))
      && h.commentHeader(ps[1 - c]).Ok?
      && RunPages(h, d, pages, endsInError).printed == Some(h.commentHeader(ps[1 - c]).value.comments)
    decreases |pages|
  {
    var c := Started(d.count);
    ReadOnlyFirstPage(h, d, pages, endsInError);
    var page := pages[0];
    var count := c + |page.packets|;
    var k := HeaderPages(pages, c);
    if count >= 2 {
      LastHeaderPage(pages, c);
      assert AllPackets(pages[..k]) == page.packets;
    } else {
      var d' := Driver(count, d.written, d.printed);
      assert Started(d'.count) == count;
      ReadOnlyRunChecks(h, d', pages[1..], endsInError);
      HeaderPacketsSplit(pages, c);
      var rest := AllPackets(pages[1..][..HeaderPages(pages[1..], count)]);
      assert AllPackets(pages[..k]) == page.packets + rest;
      HeaderPacketIndex(page.packets, rest, c);
      assert RunPages(h, d, pages, endsInError) == RunPages(h, d', pages[1..], endsInError);
    }
  }

  /**
   * Read-only mode, for any handlers that print the comment header. After a
   * successful run, with `ps` the packets of the pages it demultiplexed:
   * packet 1 passed the identification-header check, packet 2 was accepted,
   * the list printed is the one packet 2 gives, and nothing was written.
   */
  lemma ReadOnly(h: Handlers, pages: seq<Page>, endsInError: bool)
    requires !h.hasWriter && Prints(h)
    requires RunPages(h, Start, pages, endsInError).error == None
    ensures var r := RunPages(h, Start, pages, endsInError);
      var ps := AllPackets(pages[..HeaderPages(pages, 0)]);
      && |ps| >= 2
      && h.idHeaderOk(ps[0])
      && h.commentHeader(ps[1]).Ok?
      && r.printed == Some(h.commentHeader(ps[1]).value.comments)
      && r.written == []
  {
    ReadOnlyRunChecks(h, Start, pages, endsInError);
    ReadOnlyWritesNothing(h, Start, pages, endsInError);
  }

  /** The verbatim copies of the pages. */
  function Copies(pages: seq<Page>): (ws: seq<Written>)
    ensures |ws| == |pages|
  {
    if pages == [] then [] else [Copied(pages[0].raw)] + Copies(pages[1..])
  }

  /**
   * With a writer, once the counter has reached 2 every page read is written
   * verbatim, up to the end of the input.
   */
  lemma {:induction false} CopyPhase(h: Handlers, d: Driver, pages: seq<Page>, endsInError: bool)
    requires h.hasWriter && d.count >= 2
    ensures RunPages(h, d, pages, endsInError)
         == RunResult(if endsInError then Some(ReadFailed) else None, d.written + Copies(pages), d.printed)
    decreases |pages|
  {
    if pages == [] {
      assert d.written + Copies(pages) == d.written;
    } else {
      var d' := d.(written := d.written + [Copied(pages[0].raw)]);
      CopyStep(h, d, pages[0]);
      assert RunPages(h, d, pages, endsInError) == RunPages(h, d', pages[1..], endsInError);
      CopyPhase(h, d', pages[1..], endsInError);
      CopiesCons(d.written, pages);
    }
  }

  /** With a writer and the counter at 2 or more, a page is copied and the loop goes on. */
  lemma CopyStep(h: Handlers, d: Driver, page: Page)
    requires h.hasWriter && d.count >= 2
    ensures StepPage(h, d, page) == Next(d.(written := d.written + [Copied(page.raw)]))
  {
  }

  lemma CopiesCons(written: seq<Written>, pages: seq<Page>)
    requires pages != []
    ensures written + [Copied(pages[0].raw)] + Copies(pages[1..]) == written + Copies(pages)
  {
  }

  // ---------------------------------------------------------------------------
  // Pass-through with a writer

  /** With a writer, a comment header that is accepted is rendered, never printed. */
  ghost predicate Renders(h: Handlers)
  {
    forall p :: h.commentHeader(p).Ok? ==> h.commentHeader(p).value.Rendered?
  }

  /** The packets the writer was handed, flush after flush; verbatim copies contribute none. */
  function FlushedPackets(ws: seq<Written>): seq<Packet>
  {
    if ws == [] then []
    else (match ws[0] case Flushed(ps) => ps case Copied(_) => []) + FlushedPackets(ws[1..])
  }

  lemma {:induction false} FlushedPacketsAppend(s: seq<Written>, t: seq<Written>)
    ensures FlushedPackets(s + t) == FlushedPackets(s) + FlushedPackets(t)
    decreases |s|
  {
    if s == [] {
      assert s + t == t;
    } else {
      assert (s + t)[1..] == s[1..] + t;
      FlushedPacketsAppend(s[1..], t);
    }
  }

  lemma {:induction false} FlushedCopies(pages: seq<Page>)
    ensures FlushedPackets(Copies(pages)) == []
    decreases |pages|
  {
    if pages != [] {
      assert Copies(pages)[1..] == Copies(pages[1..]);
      FlushedCopies(pages[1..]);
    }
  }

  /** The number of pages demultiplexed before the counter reaches 2, from counter value `count`. */
  function HeaderPages(pages: seq<Page>, count: int): (k: nat)
    ensures k <= |pages|
  {
    if pages == [] || count >= 2 then 0 else 1 + HeaderPages(pages[1..], count + |pages[0].packets|)
  }

  /**
   * What the writer is handed for the packets `ps`, numbered from `count + 1`
   * on: packet 2 is replaced by the rewritten comment header and every other
   * packet is passed on as it is.
   */
  function Forwarded(h: Handlers, count: int, ps: seq<Packet>): seq<Packet>
    decreases |ps|
  {
    if ps == [] then []
    else
      var head := if count + 1 == 2 then
        match h.commentHeader(ps[0])
        case Ok(Rendered(p)) => [p]
        case _ => []
      else [ps[0]];
      head + Forwarded(h, count + 1, ps[1..])
  }

  lemma {:induction false} ForwardedAppend(h: Handlers, count: int, s: seq<Packet>, t: seq<Packet>)
    ensures Forwarded(h, count, s + t) == Forwarded(h, count, s) + Forwarded(h, count + |s|, t)
    decreases |s|
  {
    if s == [] {
      assert s + t == t;
    } else {
      assert (s + t)[0] == s[0] && (s + t)[1..] == s[1..] + t;
      ForwardedAppend(h, count + 1, s[1..], t);
    }
  }

  lemma {:induction false} ForwardedLate(h: Handlers, count: int, ps: seq<Packet>)
    requires count >= 2
    ensures Forwarded(h, count, ps) == ps
    decreases |ps|
  {
    if ps != [] {
      ForwardedLate(h, count + 1, ps[1..]);
    }
  }

  lemma ForwardedFromStart(h: Handlers, ps: seq<Packet>)
    requires |ps| >= 2 && h.commentHeader(ps[1]).Ok? && h.commentHeader(ps[1]).value.Rendered?
    ensures Forwarded(h, 0, ps) == [ps[0], h.commentHeader(ps[1]).value.packet] + ps[2..]
  {
    assert ps[1..][0] == ps[1] && ps[1..][1..] == ps[2..];
    ForwardedLate(h, 2, ps[2..]);
  }

  /** The inner packet loop with a writer, when it does not fail: what it hands over, and what it checked. */
  lemma {:induction false} FeedWithWriter(h: Handlers, count: int, ps: seq<Packet>, fed: seq<Packet>, printed: Option<seq<Comment>>)
    requires h.hasWriter && Renders(h) && count >= 0
    requires !FeedPackets(h, count, ps, fed, printed).end.Failed?
    ensures FeedPackets(h, count, ps, fed, printed) == Feed(count + |ps|, fed + Forwarded(h, count, ps), printed, Exhausted)
    ensures count == 0 && ps != [] ==> h.idHeaderOk(ps[0])
    ensures count <= 1 < count + |ps| ==> h.commentHeader(ps[1 - count]).Ok?
    decreases |ps|
  {
    if ps == [] {
      assert fed + [] == fed;
    } else {
      var packet := ps[0];
      if count + 1 == 2 {
        var p := h.commentHeader(packet).value.packet;
        FeedWithWriter(h, count + 1, ps[1..], fed + [p], printed);
        assert fed + [p] + Forwarded(h, count + 1, ps[1..]) == fed + Forwarded(h, count, ps);
      } else {
        FeedWithWriter(h, count + 1, ps[1..], fed + [packet], printed);
        assert fed + [packet] + Forwarded(h, count + 1, ps[1..]) == fed + Forwarded(h, count, ps);
        if count == 0 && |ps| >= 2 {
          assert ps[1..][0] == ps[1];
        }
      }
    }
  }

  lemma {:induction false} AllPacketsSplit(pages: seq<Page>, k: nat)
    requires 0 < k <= |pages|
    ensures AllPackets(pages[..k]) == pages[0].packets + AllPackets(pages[1..][..k - 1])
  {
    assert pages[..k][1..] == pages[1..][..k - 1];
  }

  /** The first page of the header phase with a writer, in a run that succeeds. */
  lemma WriterFirstPage(h: Handlers, d: Driver, pages: seq<Page>, endsInError: bool)
    requires h.hasWriter && Renders(h) && -1 <= d.count < 2
    requires RunPages(h, d, pages, endsInError).error == None
    ensures pages != []
    ensures var c := Started(d.count);
      var ps := pages[0].packets;
      && (c == 0 && ps != [] ==> h.idHeaderOk(ps[0]))
      && (c <= 1 < c + |ps| ==> h.commentHeader(ps[1 - c]).Ok?)
      && RunPages(h, d, pages, endsInError)
         == RunPages(h, Driver(c + |ps|, d.written + [Flushed(Forwarded(h, c, ps))], d.printed), pages[1..], endsInError)
  {
    var c := Started(d.count);
    assert pages != [];
    var page := pages[0];
    assert page.accepted;
    var f := FeedPackets(h, c, page.packets, [], d.printed);
    assert !f.end.Failed?;
    FeedWithWriter(h, c, page.packets, [], d.printed);
    assert [] + Forwarded(h, c, page.packets) == Forwarded(h, c, page.packets);
    assert StepPage(h, d, page) == Next(Driver(f.count, d.written + [Flushed(f.fed)], d.printed));
  }

  /** The packets of the pages the header phase demultiplexes, from counter value `c`, split after the first page. */
  lemma HeaderPacketsSplit(pages: seq<Page>, c: int)
    requires pages != [] && c < 2 && c + |pages[0].packets| < 2
    ensures var k' := HeaderPages(pages[1..], c + |pages[0].packets|);
      && HeaderPages(pages, c) == 1 + k'
      && AllPackets(pages[..HeaderPages(pages, c)]) == pages[0].packets + AllPackets(pages[1..][..k'])
  {
    AllPacketsSplit(pages, HeaderPages(pages, c));
  }

  /** The header phase with a writer, from any counter value below 2: packet 1 was validated and packet 2 parsed. */
  lemma {:induction false} WriterRunChecks(h: Handlers, d: Driver, pages: seq<Page>, endsInError: bool)
    requires h.hasWriter && Renders(h) && -1 <= d.count < 2
    requires RunPages(h, d, pages, endsInError).error == None
    ensures var c := Started(d.count);
      var ps := AllPackets(pages[..HeaderPages(pages, c)]);
      && !endsInError
      && c + |ps| >= 2
      && (c == 0 ==> h.idHeaderOk(ps[0]))
      && h.commentHeader(ps[1 - c]).Ok?
    decreases |pages|
  {
    var c := Started(d.count);
    WriterFirstPage(h, d, pages, endsInError);
    var page := pages[0];
    var count := c + |page.packets|;
    var d' := Driver(count, d.written + [Flushed(Forwarded(h, c, page.packets))], d.printed);
    if count >= 2 {
      WriterLastHeaderPage(h, d, pages, endsInError);
    } else {
      WriterRunChecks(h, d', pages[1..], endsInError);
      HeaderPacketsSplit(pages, c);
      HeaderPacketIndex(page.packets, AllPackets(pages[1..][..HeaderPages(pages[1..], count)]), c);
    }
  }

  /** One flush of the packets `first`, followed by the rest of the header phase. */
  lemma FlushThenRest(h: Handlers, before: seq<Written>, c: int, first: seq<Packet>, rest: seq<Packet>, after: seq<Written>)
    requires FlushedPackets(after)
          == FlushedPackets(before + [Flushed(Forwarded(h, c, first))]) + Forwarded(h, c + |first|, rest)
    ensures FlushedPackets(after) == FlushedPackets(before) + Forwarded(h, c, first + rest)
  {
    var fed := Forwarded(h, c, first);
    FlushedPacketsAppend(before, [Flushed(fed)]);
    assert FlushedPackets([Flushed(fed)]) == fed;
    ForwardedAppend(h, c, first, rest);
  }

  /** The header phase with a writer, from any counter value below 2: what the writer was handed. */
  lemma {:induction false} WriterRunFlushed(h: Handlers, d: Driver, pages: seq<Page>, endsInError: bool)
    requires h.hasWriter && Renders(h) && -1 <= d.count < 2
    requires RunPages(h, d, pages, endsInError).error == None
    ensures var c := Started(d.count);
      FlushedPackets(RunPages(h, d, pages, endsInError).written)
      == FlushedPackets(d.written) + Forwarded(h, c, AllPackets(pages[..HeaderPages(pages, c)]))
    decreases |pages|
  {
    var c := Started(d.count);
    WriterFirstPage(h, d, pages, endsInError);
    var page := pages[0];
    var fed := Forwarded(h, c, page.packets);
    var count := c + |page.packets|;
    var d' := Driver(count, d.written + [Flushed(fed)], d.printed);
    if count >= 2 {
      WriterLastHeaderPage(h, d, pages, endsInError);
    } else {
      WriterRunFlushed(h, d', pages[1..], endsInError);
      HeaderPacketsSplit(pages, c);
      var rest := AllPackets(pages[1..][..HeaderPages(pages[1..], count)]);
      FlushThenRest(h, d.written, c, page.packets, rest, RunPages(h, d', pages[1..], endsInError).written);
    }
  }

  /** The header phase with a writer, from any counter value below 2: one page written per page read, the later ones copies. */
  lemma {:induction false} WriterRunPages(h: Handlers, d: Driver, pages: seq<Page>, endsInError: bool)
    requires h.hasWriter && Renders(h) && -1 <= d.count < 2
    requires RunPages(h, d, pages, endsInError).error == None
    ensures var r := RunPages(h, d, pages, endsInError);
      var k := HeaderPages(pages, Started(d.count));
      && |r.written| == |d.written| + |pages|
      && r.written[|d.written| + k..] == Copies(pages[k..])
    decreases |pages|
  {
    var c := Started(d.count);
    WriterFirstPage(h, d, pages, endsInError);
    var page := pages[0];
    var count := c + |page.packets|;
    var d' := Driver(count, d.written + [Flushed(Forwarded(h, c, page.packets))], d.printed);
    if count >= 2 {
      WriterLastHeaderPage(h, d, pages, endsInError);
    } else {
      WriterRunPages(h, d', pages[1..], endsInError);
      LaterPages(pages, c);
    }
  }

  /** The pages after the header phase are the same whether it is counted from the first page or the second. */
  lemma LaterPages(pages: seq<Page>, c: int)
    requires pages != [] && c + |pages[0].packets| < 2
    ensures var k' := HeaderPages(pages[1..], c + |pages[0].packets|);
      && HeaderPages(pages, c) == 1 + k'
      && pages[HeaderPages(pages, c)..] == pages[1..][k'..]
  {
  }

  /** The page on which the counter reaches 2 is the last one demultiplexed; every later page is copied. */
  lemma WriterLastHeaderPage(h: Handlers, d: Driver, pages: seq<Page>, endsInError: bool)
    requires h.hasWriter && Renders(h) && -1 <= d.count < 2
    requires RunPages(h, d, pages, endsInError).error == None
    requires pages != [] && Started(d.count) + |pages[0].packets| >= 2
    ensures var r := RunPages(h, d, pages, endsInError);
      var c := Started(d.count);
      var ps := pages[0].packets;
      && HeaderPages(pages, c) == 1
      && AllPackets(pages[..1]) == ps
      && !endsInError
      && FlushedPackets(r.written) == FlushedPackets(d.written) + Forwarded(h, c, ps)
      && |r.written| == |d.written| + |pages|
      && r.written[|d.written| + 1..] == Copies(pages[1..])
  {
    var c := Started(d.count);
    WriterFirstPage(h, d, pages, endsInError);
    var page := pages[0];
    var fed := Forwarded(h, c, page.packets);
    var d' := Driver(c + |page.packets|, d.written + [Flushed(fed)], d.printed);
    assert HeaderPages(pages[1..], c + |page.packets|) == 0;
    assert pages[..1] == [page];
    assert AllPackets([page]) == page.packets + AllPackets([]);
    CopyPhase(h, d', pages[1..], endsInError);
    FlushedPacketsAppend(d.written, [Flushed(fed)]);
    assert FlushedPackets([Flushed(fed)]) == fed;
    FlushedPacketsAppend(d'.written, Copies(pages[1..]));
    FlushedCopies(pages[1..]);
  }

  /**
   * Pass-through with a writer, for any handlers that render the comment
   * header. After a successful run, with `k` the number of pages
   * demultiplexed and `ps` the packets they complete: packet 1 passed the
   * identification-header check, packet 2 was accepted, the writer was
   * handed packet 1, the rewritten packet 2 and every later packet unchanged,
   * and each page after the first `k` was copied verbatim.
   */
  lemma PassThrough(h: Handlers, pages: seq<Page>, endsInError: bool)
    requires h.hasWriter && Renders(h)
    requires RunPages(h, Start, pages, endsInError).error == None
    ensures var r := RunPages(h, Start, pages, endsInError);
      var k := HeaderPages(pages, 0);
      var ps := AllPackets(pages[..k]);
      && !endsInError
      && |ps| >= 2
      && h.idHeaderOk(ps[0])
      && h.commentHeader(ps[1]).Ok?
      && FlushedPackets(r.written) == [ps[0], h.commentHeader(ps[1]).value.packet] + ps[2..]
      && |r.written| == |pages|
      && r.written[k..] == Copies(pages[k..])
  {
    WriterRunChecks(h, Start, pages, endsInError);
    WriterRunFlushed(h, Start, pages, endsInError);
    WriterRunPages(h, Start, pages, endsInError);
    ForwardedFromStart(h, AllPackets(pages[..HeaderPages(pages, 0)]));
  }

  /**
   * The same for a run of opustags with an output file: packet 2 is the
   * comment header as `process_tags` rewrites it with the run's options.
   */
  lemma WriterPassThrough(env: Environment, input: Input)
    requires env.hasWriter
    requires RunPages(HandlersOf(env), Start, input.pages, input.endsInError).error == None
    ensures var r := RunPages(HandlersOf(env), Start, input.pages, input.endsInError);
      var k := HeaderPages(input.pages, 0);
      var ps := AllPackets(input.pages[..k]);
      && !input.endsInError
      && |ps| >= 2
      && env.idHeaderOk(ps[0])
      && ProcessSpec(ps[1], env.opt, env.input, true).Ok?
      && FlushedPackets(r.written) == [ps[0], ProcessSpec(ps[1], env.opt, env.input, true).value.packet] + ps[2..]
      && |r.written| == |input.pages|
      && r.written[k..] == Copies(input.pages[k..])
  {
    var h := HandlersOf(env);
    forall p ensures h.commentHeader(p).Ok? ==> h.commentHeader(p).value.Rendered? {
      ProcessFailsOnlyOnBadHeader(p, env.opt, env.input, true);
    }
    PassThrough(h, input.pages, input.endsInError);
  }

  /**
   * The same for a run of opustags without an output file: the list printed
   * is the comment list of packet 2 after the edits of `process_tags`.
   */
  lemma ReadOnlyPrintsEdited(env: Environment, input: Input)
    requires !env.hasWriter
    requires RunPages(HandlersOf(env), Start, input.pages, input.endsInError).error == None
    ensures var r := RunPages(HandlersOf(env), Start, input.pages, input.endsInError);
      var ps := AllPackets(input.pages[..HeaderPages(input.pages, 0)]);
      && |ps| >= 2
      && env.idHeaderOk(ps[0])
      && Parse(ps[1]).Ok?
      && r.printed == Some(EditComments(Parse(ps[1]).value.comments, env.opt, env.input))
      && r.written == []
  {
    var h := HandlersOf(env);
    forall p ensures h.commentHeader(p).Ok? ==> h.commentHeader(p).value.Printed? {
      ProcessFailsOnlyOnBadHeader(p, env.opt, env.input, false);
    }
    ReadOnly(h, input.pages, input.endsInError);
  }
}
