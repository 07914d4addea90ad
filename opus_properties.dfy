/**
 * What the comment-header codec of src/opus.cc guarantees: the two round
 * trips between Parse and Render, the error reported at each truncation
 * point, and the behaviour of comment deletion.
 */
module OpusProperties {
  import opened Wrappers
  import opened LittleEndian
  import opened Opus
  import Slices

  // ---------------------------------------------------------------------------
  // Round trips

  /** The comments' part of a rendered packet starts with the first comment's length and text. */
  lemma RenderCommentsHead(cs: seq<Comment>)
    requires cs != []
    ensures RenderComments(cs) == WriteLE32(|cs[0]|) + cs[0] + RenderComments(cs[1..])
  {
  }

  /** Every comment of a list whose comments all fit in 32 bits, after the first, fits too. */
  lemma TailFits(cs: seq<Comment>)
    requires cs != []
    requires forall i :: 0 <= i < |cs| ==> |cs[i]| < TwoTo32
    ensures |cs[0]| < TwoTo32
    ensures forall i :: 0 <= i < |cs[1..]| ==> |cs[1..][i]| < TwoTo32
  {
    forall i | 0 <= i < |cs[1..]| ensures |cs[1..][i]| < TwoTo32 {
      assert cs[1..][i] == cs[i + 1];
    }
  }

  lemma {:induction false} ParseCommentsRendered(b: seq<Byte>, pos: nat, cs: seq<Comment>, acc: seq<Comment>)
    requires forall i :: 0 <= i < |cs| ==> |cs[i]| < TwoTo32
    requires pos + CommentsSize(cs) <= |b|
    requires b[pos..pos + CommentsSize(cs)] == RenderComments(cs)
    ensures ParseComments(b, pos, |cs|, acc) == Ok((acc + cs, pos + CommentsSize(cs)))
    decreases |cs|
  {
    if cs == [] {
      assert acc + cs == acc;
    } else {
      var c := cs[0];
      var rest := RenderComments(cs[1..]);
      TailFits(cs);
      RenderCommentsHead(cs);
      Slices.Parts3(b, pos, WriteLE32(|c|), c, rest);
      ReadAt(b, pos, |c|);
      ParseCommentsRendered(b, pos + 4 + |c|, cs[1..], acc + [c]);
      Slices.AppendHead(acc, cs);
    }
  }

  /** `parse_tags(render_tags(t)) == t` whenever every length fits in 32 bits. */
  lemma ParseRender(t: Tags)
    requires Fits32(t)
    ensures Parse(Render(t)) == Ok(t)
  {
    var v, cs := t.vendor, t.comments;
    var b := Render(t);
    Slices.Parts6(Magic, WriteLE32(|v|), v, WriteLE32(|cs|), RenderComments(cs), t.extraData);
    ReadAt(b, 8, |v|);
    ReadAt(b, 12 + |v|, |cs|);
    ParseCommentsRendered(b, 16 + |v|, cs, []);
    assert [] + cs == cs;
  }

  /** A length field read as `|c|`, followed by `c` and by the rendering of `later`, is the rendering of `[c] + later`. */
  lemma OneCommentRendered(b: seq<Byte>, pos: nat, c: Comment, later: seq<Comment>, end: nat)
    requires pos + 4 + |c| <= end <= |b|
    requires ReadLE32(b, pos) == |c|
    requires b[pos + 4..pos + 4 + |c|] == c
    requires b[pos + 4 + |c|..end] == RenderComments(later)
    ensures b[pos..end] == RenderComments([c] + later)
  {
    WriteRead(b, pos);
    Slices.Cons(c, later);
    RenderCommentsHead([c] + later);
    Slices.Join3(b, pos, pos + 4, pos + 4 + |c|, end);
  }

  lemma {:induction false} ParseCommentsInverse(b: seq<Byte>, pos: nat, n: nat, acc: seq<Comment>)
    requires pos <= |b|
    requires ParseComments(b, pos, n, acc).Ok?
    ensures var (cs, end) := ParseComments(b, pos, n, acc).value;
      && |cs| == |acc| + n
      && cs[..|acc|] == acc
      && b[pos..end] == RenderComments(cs[|acc|..])
      && forall i :: |acc| <= i < |cs| ==> |cs[i]| < TwoTo32
    decreases n
  {
    var (cs, end) := ParseComments(b, pos, n, acc).value;
    if n > 0 {
      var length := ReadLE32(b, pos);
      var c := b[pos + 4..pos + 4 + length];
      var acc' := acc + [c];
      ParseCommentsInverse(b, pos + 4 + length, n - 1, acc');
      Slices.PrefixOfSnoc(cs, acc, c);
      Slices.DropOne(cs, |acc|);
      var later := cs[|acc'|..];
      assert cs[|acc|..] == [c] + later;
      OneCommentRendered(b, pos, c, later, end);
      assert forall i :: |acc'| <= i < |cs| ==> |cs[i]| < TwoTo32;
      assert |cs[|acc|]| < TwoTo32;
    } else {
      assert cs[|acc|..] == [];
    }
  }

  /**
   * `render_tags(parse_tags(b)) == b`: a packet that parses is re-rendered
   * byte for byte, and all its lengths fit in 32 bits.
   */
  lemma RenderParse(b: seq<Byte>)
    requires Parse(b).Ok?
    ensures Fits32(Parse(b).value)
    ensures Render(Parse(b).value) == b
  {
    var vendorLength: nat := ReadLE32(b, 8);
    var pos: nat := 12 + vendorLength;
    var count := ReadLE32(b, pos);
    ParseCommentsInverse(b, pos + 4, count, []);
    var (cs, end) := ParseComments(b, pos + 4, count, []).value;
    var t := Tags(b[12..pos], cs, b[end..]);
    assert Parse(b) == Ok(t);
    assert cs[0..] == cs;
    assert Fits32(t);
    WriteRead(b, 8);
    WriteRead(b, pos);
    assert b[..8] == Magic;
    assert b[8..12] == WriteLE32(|t.vendor|);
    assert b[pos..pos + 4] == WriteLE32(|cs|);
    assert b[pos + 4..end] == RenderComments(cs);
    Slices.Join6(b, 8, 12, pos, pos + 4, end);
  }

  /** The packets Parse accepts are exactly the renderings of records whose lengths fit in 32 bits. */
  lemma ParseAcceptsExactlyRenderings(b: seq<Byte>)
    ensures Parse(b).Ok? <==> exists t :: Fits32(t) && Render(t) == b
  {
    if Parse(b).Ok? {
      RenderParse(b);
    }
    if t :| Fits32(t) && Render(t) == b {
      ParseRender(t);
    }
  }

  /**
   * On success the record is laid out in the packet as the format says: the
   * vendor string and the comment count stand where their lengths put them, the
   * number of comments is the declared count, and the extra data is exactly the
   * bytes after the last comment.
   */
  lemma ParseLayout(b: seq<Byte>)
    requires Parse(b).Ok?
    ensures var t := Parse(b).value;
      && 16 + |t.vendor| + CommentsSize(t.comments) <= |b|
      && |t.vendor| == ReadLE32(b, 8)
      && t.vendor == b[12..12 + |t.vendor|]
      && |t.comments| == ReadLE32(b, 12 + |t.vendor|)
      && b[16 + |t.vendor|..16 + |t.vendor| + CommentsSize(t.comments)] == RenderComments(t.comments)
      && t.extraData == b[16 + |t.vendor| + CommentsSize(t.comments)..]
  {
    var t := Parse(b).value;
    RenderParse(b);
    Slices.Parts6(Magic, WriteLE32(|t.vendor|), t.vendor, WriteLE32(|t.comments|), RenderComments(t.comments), t.extraData);
    ReadAt(b, 8, |t.vendor|);
    ReadAt(b, 12 + |t.vendor|, |t.comments|);
  }

  // ---------------------------------------------------------------------------
  // Magic-number errors

  /** The comment loop can only fail on a comment's length or on its data. */
  lemma {:induction false} ParseCommentsErrors(b: seq<Byte>, pos: nat, n: nat, acc: seq<Comment>)
    requires pos <= |b|
    ensures var r := ParseComments(b, pos, n, acc);
      r.Err? ==> r.error == CutCommentLength || r.error == CutCommentData
    decreases n
  {
    if n > 0 && pos + 4 <= |b| {
      var length := ReadLE32(b, pos);
      if pos + 4 + length <= |b| {
        ParseCommentsErrors(b, pos + 4 + length, n - 1, acc + [b[pos + 4..pos + 4 + length]]);
      }
    }
  }

  /**
   * The two magic-number errors, in both directions: exactly the packets
   * shorter than 8 bytes are cut in the magic number, and exactly the longer
   * ones that do not start with "OpusTags" have a bad magic number.
   */
  lemma MagicErrors(b: seq<Byte>)
    ensures Parse(b) == Err(CutMagicNumber) <==> |b| < 8
    ensures Parse(b) == Err(BadMagicNumber) <==> |b| >= 8 && b[..8] != Magic
  {
    if |b| >= 12 && b[..8] == Magic && 16 + ReadLE32(b, 8) <= |b| {
      var pos := 12 + ReadLE32(b, 8);
      ParseCommentsErrors(b, pos + 4, ReadLE32(b, pos), []);
    }
  }

  // ---------------------------------------------------------------------------
  // Truncation errors

  /** The error for a packet cut `k` bytes into the comments' part. */
  function CutInComments(cs: seq<Comment>, k: nat): ParseError
    requires k < CommentsSize(cs)
  {
    if k < 4 then CutCommentLength
    else if k < 4 + |cs[0]| then CutCommentData
    else CutInComments(cs[1..], k - 4 - |cs[0]|)
  }

  /** The error for a well-formed packet cut after its first `k` bytes, by the field the cut falls in. */
  function CutAt(t: Tags, k: nat): ParseError
    requires k < 16 + |t.vendor| + CommentsSize(t.comments)
  {
    if k < 8 then CutMagicNumber
    else if k < 12 then CutVendorLength
    else if k < 12 + |t.vendor| then CutVendorData
    else if k < 16 + |t.vendor| then CutCommentCount
    else CutInComments(t.comments, k - 16 - |t.vendor|)
  }

  lemma {:induction false} ParseCommentsTruncated(b: seq<Byte>, pos: nat, cs: seq<Comment>, k: nat, acc: seq<Comment>)
    requires forall i :: 0 <= i < |cs| ==> |cs[i]| < TwoTo32
    requires k < CommentsSize(cs)
    requires |b| == pos + k && b[pos..] == RenderComments(cs)[..k]
    ensures ParseComments(b, pos, |cs|, acc) == Err(CutInComments(cs, k))
    decreases |cs|
  {
    var c := cs[0];
    TailFits(cs);
    if k >= 4 {
      TruncatedFirstComment(b, pos, cs, k);
      if k >= 4 + |c| {
        ParseCommentsTruncated(b, pos + 4 + |c|, cs[1..], k - 4 - |c|, acc + [c]);
      }
    }
  }

  /** A cut past the first length field: that length is read back, and a cut past the first comment leaves the rest cut. */
  lemma TruncatedFirstComment(b: seq<Byte>, pos: nat, cs: seq<Comment>, k: nat)
    requires cs != [] && |cs[0]| < TwoTo32
    requires 4 <= k <= CommentsSize(cs)
    requires |b| == pos + k && b[pos..] == RenderComments(cs)[..k]
    ensures ReadLE32(b, pos) == |cs[0]|
    ensures k >= 4 + |cs[0]| ==>
      && b[pos + 4..pos + 4 + |cs[0]|] == cs[0]
      && b[pos + 4 + |cs[0]|..] == RenderComments(cs[1..])[..k - 4 - |cs[0]|]
  {
    var c := cs[0];
    RenderCommentsHead(cs);
    Slices.CutParts3(b, pos, WriteLE32(|c|), c, RenderComments(cs[1..]), k);
    ReadAt(b, pos, |c|);
  }

  /**
   * Any packet that stops before the end of its last comment fails, with the
   * error of the field the cut falls in: the magic, the vendor length, the
   * vendor data, the comment count, a comment's length or a comment's data.
   */
  lemma TruncatedPacket(t: Tags, k: nat)
    requires Fits32(t)
    requires k < 16 + |t.vendor| + CommentsSize(t.comments)
    ensures Parse(Render(t)[..k]) == Err(CutAt(t, k))
  {
    var v, cs := t.vendor, t.comments;
    var full := Render(t);
    var b := full[..k];
    Slices.Parts6(Magic, WriteLE32(|v|), v, WriteLE32(|cs|), RenderComments(cs), t.extraData);
    if k >= 8 {
      assert b[..8] == full[..8];
    }
    if k >= 12 {
      assert b[8..12] == full[8..12];
      ReadAt(b, 8, |v|);
    }
    if k >= 16 + |v| {
      var h := 16 + |v|;
      assert b[12 + |v|..h] == full[12 + |v|..h];
      ReadAt(b, 12 + |v|, |cs|);
      Slices.PrefixTail(full, k, h, h + CommentsSize(cs));
      ParseCommentsTruncated(b, h, cs, k - h, []);
    }
  }

  // ---------------------------------------------------------------------------
  // Deleting comments

  /** For comments shorter than 4 GiB (every parsed comment) the match is the plain `name=` prefix test. */
  lemma MatchesIsPrefixTest(comment: Comment, name: seq<Byte>)
    requires |comment| < TwoTo32
    ensures Matches(comment, name) <==> |comment| > |name| && comment[..|name| + 1] == name + [Equals]
  {
    if |comment| > |name| {
      assert comment[..|name| + 1] == comment[..|name|] + [comment[|name|]];
    }
  }

  /**
   * Deletion removes exactly the matching comments: a matching comment no
   * longer occurs, any other comment occurs as often as before.
   */
  lemma {:induction false} RemoveFieldCounts(cs: seq<Comment>, name: seq<Byte>, c: Comment)
    ensures multiset(RemoveField(cs, name))[c] == if Matches(c, name) then 0 else multiset(cs)[c]
  {
    if cs != [] {
      RemoveFieldCounts(cs[1..], name, c);
      assert cs == [cs[0]] + cs[1..];
    }
  }

  /** The positions, counted from `offset`, of the comments that `name` does not match, in increasing order. */
  function KeptPositions(cs: seq<Comment>, name: seq<Byte>, offset: nat): seq<nat>
  {
    if cs == [] then []
    else (if Matches(cs[0], name) then [] else [offset]) + KeptPositions(cs[1..], name, offset + 1)
  }

  lemma {:induction false} RemoveFieldSelects(cs: seq<Comment>, name: seq<Byte>, offset: nat)
    ensures var kept := RemoveField(cs, name);
      var at := KeptPositions(cs, name, offset);
      && |at| == |kept|
      && (forall k :: 0 <= k < |at| ==> offset <= at[k] < offset + |cs| && kept[k] == cs[at[k] - offset])
      && (forall k, l :: 0 <= k < l < |at| ==> at[k] < at[l])
      && (forall i :: offset <= i < offset + |cs| ==> (i in at <==> !Matches(cs[i - offset], name)))
  {
    if cs != [] {
      RemoveFieldSelects(cs[1..], name, offset + 1);
    }
  }

  /**
   * Deletion is an order-preserving filter: the comments kept are those at
   * the positions `at`, which increase, and a position is among them exactly
   * when its comment does not match.
   */
  lemma RemoveFieldKeepsOrder(cs: seq<Comment>, name: seq<Byte>)
    ensures var kept := RemoveField(cs, name);
      var at := KeptPositions(cs, name, 0);
      && |at| == |kept|
      && (forall k :: 0 <= k < |at| ==> at[k] < |cs| && kept[k] == cs[at[k]])
      && (forall k, l :: 0 <= k < l < |at| ==> at[k] < at[l])
      && (forall i :: 0 <= i < |cs| ==> (i in at <==> !Matches(cs[i], name)))
  {
    RemoveFieldSelects(cs, name, 0);
  }

  /** Deleting a field that no comment carries leaves the list unchanged. */
  lemma {:induction false} RemoveAbsentField(cs: seq<Comment>, name: seq<Byte>)
    requires forall i :: 0 <= i < |cs| ==> !Matches(cs[i], name)
    ensures RemoveField(cs, name) == cs
  {
    if cs != [] {
      RemoveAbsentField(cs[1..], name);
      assert cs == [cs[0]] + cs[1..];
    }
  }

  /** Deleting the same field twice is the same as deleting it once. */
  lemma {:induction false} RemoveFieldIdempotent(cs: seq<Comment>, name: seq<Byte>)
    ensures RemoveField(RemoveField(cs, name), name) == RemoveField(cs, name)
  {
    if cs != [] {
      RemoveFieldIdempotent(cs[1..], name);
      var head: seq<Comment> := if Matches(cs[0], name) then [] else [cs[0]];
      RemoveFieldAppend(head, RemoveField(cs[1..], name), name);
      if !Matches(cs[0], name) {
        assert head[1..] == [];
      }
    }
  }

  /** "TITLE" in ASCII. */
  const Title: seq<Byte> := [84, 73, 84, 76, 69]
  /** "TITLE=Foo" in ASCII. */
  const TitleFoo: seq<Byte> := [84, 73, 84, 76, 69, 61, 70, 111, 111]
  /** "TITLEX=Foo" in ASCII. */
  const TitleXFoo: seq<Byte> := [84, 73, 84, 76, 69, 88, 61, 70, 111, 111]
  /** "title=Foo" in ASCII. */
  const LowerTitleFoo: seq<Byte> := [116, 105, 116, 108, 101, 61, 70, 111, 111]

  /** A field argument written `TITLE=Foo` names the field `TITLE`. */
  lemma FieldNameExample()
    ensures FieldName(TitleFoo) == Title
  {
    FieldNameIs(TitleFoo, 5);
  }

  /** The match is exact and case-sensitive: `TITLE` matches `TITLE=Foo` only. */
  lemma TitleMatching()
    ensures Matches(TitleFoo, Title)
    ensures !Matches(TitleXFoo, Title)
    ensures !Matches(LowerTitleFoo, Title)
  {
    assert LowerTitleFoo[..5][0] != Title[0];
  }

  /** Deleting `TITLE` removes `TITLE=Foo` but neither `TITLEX=Foo` nor `title=Foo`. */
  lemma TitleExample()
    ensures RemoveField([TitleFoo, TitleXFoo, LowerTitleFoo], Title) == [TitleXFoo, LowerTitleFoo]
  {
    TitleMatching();
    var cs: seq<Comment> := [TitleFoo, TitleXFoo, LowerTitleFoo];
    var none: seq<Comment> := [];
    assert cs[1..][0] == TitleXFoo && cs[1..][1..][0] == LowerTitleFoo;
    assert cs[1..][1..][1..] == none;
    assert RemoveField(cs[1..][1..], Title) == [LowerTitleFoo];
    assert RemoveField(cs[1..], Title) == [TitleXFoo, LowerTitleFoo];
  }
}
