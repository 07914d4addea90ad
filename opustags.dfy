/**
 * The driver of src/opustags.cc: the edits `process_tags` applies to the
 * comment header, and the `packet_count` state machine of `run` that decides
 * which packet is validated, which one is rewritten and which pages are
 * copied verbatim.
 *
 * libogg is not modelled. A page is given as what the demultiplexer makes of
 * it: its raw bytes, whether `ogg_stream_pagein` accepts it, and the packets
 * `ogg_stream_packetout` then returns. What the writer receives is recorded
 * as a list of pages: either a flush of the packets handed to
 * `ogg_stream_packetin` since the previous flush, or a verbatim copy.
 */
module Opustags {
  import opened Wrappers
  import opened LittleEndian
  import opened Opus

  type Packet = seq<Byte>

  /** The fields of `ot::options` that `process_tags` reads. */
  datatype Options = Options(
    deleteAll: bool,
    toDelete: seq<seq<Byte>>,
    setAll: bool,
    toAdd: seq<Comment>)

  /** Why a run fails. */
  datatype Failure =
    | ReadFailed               // reader.read_page() reported an error
    | InvalidPage              // "ogg_stream_pagein: invalid page"
    | BadIdentificationHeader  // validate_identification_header rejected packet 1
    | BadCommentHeader         // process_tags could not parse packet 2
    | InvalidFile              // "opustags: invalid file": fewer than 2 packets

  /** What `process_tags` does with the edited record. */
  datatype Processed =
    | Rendered(packet: Packet)        // rendered and handed to the writer
    | Printed(comments: seq<Comment>) // read-only mode: printed to standard output

  // ---------------------------------------------------------------------------
  // Paths

  /**
   * `same_file`. `canonicalize` stands for `realpath`, which asks the file
   * system: None where it fails.
   */
  function SameFile(pathIn: string, pathOut: string, canonicalize: string -> Option<string>): (same: bool)
    ensures pathIn == "-" || pathOut == "-" ==> !same
    ensures same <==> pathIn != "-" && pathOut != "-"
                      && canonicalize(pathIn).Some? && canonicalize(pathIn) == canonicalize(pathOut)
  {
    if pathIn == "-" || pathOut == "-" then false
    else match (canonicalize(pathIn), canonicalize(pathOut))
      case (Some(canonIn), Some(canonOut)) => canonIn == canonOut
      case _ => false
  }

  // ---------------------------------------------------------------------------
  // Editing the comment header

  /** The comments left after deleting each named field in turn. */
  function DeleteEach(cs: seq<Comment>, names: seq<seq<Byte>>): seq<Comment>
    decreases |names|
  {
    if names == [] then cs else DeleteEach(RemoveField(cs, FieldName(names[0])), names[1..])
  }

  /**
   * The comment list after the edits, in their fixed order: delete all or
   * delete each named field, then replace the list with `input` (the list read
   * from standard input) if `setAll`, then append the additions.
   */
  function EditComments(cs: seq<Comment>, opt: Options, input: seq<Comment>): seq<Comment>
  {
    var afterDelete := if opt.deleteAll then [] else DeleteEach(cs, opt.toDelete);
    var afterSet := if opt.setAll then input else afterDelete;
    afterSet + opt.toAdd
  }

  /** What `process_tags` produces from the comment-header packet. */
  function ProcessSpec(packet: Packet, opt: Options, input: seq<Comment>, hasWriter: bool): Result<Processed, Failure>
  {
    match Parse(packet)
    case Err(_) => Err(BadCommentHeader)
    case Ok(t) =>
      var edited := t.(comments := EditComments(t.comments, opt, input));
      if hasWriter then Ok(Rendered(Render(edited))) else Ok(Printed(edited.comments))
  }

  /**
   * The edits of `process_tags`, in place on a parsed record: clear or delete
   * the named fields, replace the list when `setAll`, append the additions.
   */
  method EditTags(tags: OpusTags, opt: Options, input: seq<Comment>)
    modifies tags
    ensures tags.vendor == old(tags.vendor) && tags.extraData == old(tags.extraData)
    ensures tags.comments == EditComments(old(tags.comments), opt, input)
  {
    if opt.deleteAll {
      tags.comments := [];
    } else {
      for i := 0 to |opt.toDelete|
        invariant tags.vendor == old(tags.vendor) && tags.extraData == old(tags.extraData)
        invariant DeleteEach(tags.comments, opt.toDelete[i..]) == DeleteEach(old(tags.comments), opt.toDelete)
      {
        assert opt.toDelete[i..][1..] == opt.toDelete[i + 1..];
        tags.DeleteComments(opt.toDelete[i]);
      }
      assert opt.toDelete[|opt.toDelete|..] == [];
    }
    ghost var base := tags.comments;

    if opt.setAll {
      tags.comments := input;
      base := input;
    }
    for i := 0 to |opt.toAdd|
      invariant tags.vendor == old(tags.vendor) && tags.extraData == old(tags.extraData)
      invariant tags.comments == base + opt.toAdd[..i]
    {
      assert opt.toAdd[..i + 1] == opt.toAdd[..i] + [opt.toAdd[i]];
      tags.comments := tags.comments + [opt.toAdd[i]];
    }
    assert opt.toAdd[..|opt.toAdd|] == opt.toAdd;
  }

  /**
   * `process_tags`: parses the packet into a record, edits its comment list in
   * place, then renders it for the writer or, in read-only mode, returns the
   * list that is printed.
   */
  method ProcessTags(packet: Packet, opt: Options, input: seq<Comment>, hasWriter: bool) returns (r: Result<Processed, Failure>)
    ensures r == ProcessSpec(packet, opt, input, hasWriter)
  {
    var tags := new OpusTags();
    var status := ParseTags(packet, tags);
    if status.Fail? {
      return Err(BadCommentHeader);
    }
    EditTags(tags, opt, input);
    if hasWriter {
      var rendered := RenderTags(tags);
      return Ok(Rendered(rendered));
    } else {
      return Ok(Printed(tags.comments));
    }
  }

  // ---------------------------------------------------------------------------
  // The packet-index state machine of `run`

  /** A page as the demultiplexer sees it. */
  datatype Page = Page(raw: seq<Byte>, accepted: bool, packets: seq<Packet>)

  /** A page written to the output. */
  datatype Written =
    | Flushed(packets: seq<Packet>) // ogg_stream_flush of the packets handed over since the last flush
    | Copied(raw: seq<Byte>)        // write_page of an input page, byte for byte

  /**
   * What `run` depends on besides the pages: the options, the list
   * `read_comments` would read from standard input, whether there is an output
   * file, and `validate_identification_header` as a predicate.
   */
  datatype Environment = Environment(
    opt: Options,
    input: seq<Comment>,
    hasWriter: bool,
    idHeaderOk: Packet -> bool)

  /**
   * What the packet counter needs from outside: whether there is a writer,
   * the identification-header check, and what becomes of the comment header.
   */
  datatype Handlers = Handlers(
    hasWriter: bool,
    idHeaderOk: Packet -> bool,
    commentHeader: Packet -> Result<Processed, Failure>)

  /** The handlers of a run: the comment header goes through `process_tags` with the run's options. */
  function HandlersOf(env: Environment): (h: Handlers)
    ensures h.hasWriter == env.hasWriter && h.idHeaderOk == env.idHeaderOk
    ensures forall p :: h.commentHeader(p) == ProcessSpec(p, env.opt, env.input, env.hasWriter)
  {
    Handlers(env.hasWriter, env.idHeaderOk, p => ProcessSpec(p, env.opt, env.input, env.hasWriter))
  }

  /** The input: its pages, and whether the read after the last one fails instead of reaching end of file. */
  datatype Input = Input(pages: seq<Page>, endsInError: bool)

  /** The variables `run` carries from page to page. `count` is `packet_count`, -1 before the first page. */
  datatype Driver = Driver(count: int, written: seq<Written>, printed: Option<seq<Comment>>)

  const Start := Driver(-1, [], None)

  /** The outcome of a run: the error reported (None is success) and what was written or printed. */
  datatype RunResult = RunResult(error: Option<Failure>, written: seq<Written>, printed: Option<seq<Comment>>)

  /** How the inner packet loop of one page ended. */
  datatype FeedEnd = Exhausted | Stopped | Failed(failure: Failure)

  /** The state after the inner packet loop: the count, the packets handed to the writer, the printed list. */
  datatype Feed = Feed(count: int, fed: seq<Packet>, printed: Option<seq<Comment>>, end: FeedEnd)

  /**
   * The inner loop of `run` over the packets a page completes: packet 1 is
   * validated, packet 2 goes through `process_tags`, and every other packet is
   * handed to the writer unchanged.
   */
  function FeedPackets(h: Handlers, count: int, ps: seq<Packet>, fed: seq<Packet>, printed: Option<seq<Comment>>): (f: Feed)
    ensures count <= f.count <= count + |ps|
    decreases |ps|
  {
    if ps == [] then Feed(count, fed, printed, Exhausted)
    else
      var packet := ps[0];
      var n := count + 1;
      if n == 1 then
        if !h.idHeaderOk(packet) then Feed(n, fed, printed, Failed(BadIdentificationHeader))
        else FeedPackets(h, n, ps[1..], if h.hasWriter then fed + [packet] else fed, printed)
      else if n == 2 then
        match h.commentHeader(packet)
        case Err(e) => Feed(n, fed, printed, Failed(e))
        case Ok(Printed(cs)) => Feed(n, fed, Some(cs), Stopped)
        case Ok(Rendered(p)) => FeedPackets(h, n, ps[1..], fed + [p], printed)
      else FeedPackets(h, n, ps[1..], if h.hasWriter then fed + [packet] else fed, printed)
  }

  /** The result of one turn of the outer loop. */
  datatype Step = Next(d: Driver) | Done(d: Driver) | Abort(d: Driver, failure: Failure)

  /** One turn of the outer loop of `run`, for a page that was read successfully. */
  function StepPage(h: Handlers, d: Driver, page: Page): Step
  {
    if d.count >= 2 && h.hasWriter then
      Next(d.(written := d.written + [Copied(page.raw)]))
    else
      var count := if d.count == -1 then 0 else d.count;
      if !page.accepted then Abort(d.(count := count), InvalidPage)
      else
        var f := FeedPackets(h, count, page.packets, [], d.printed);
        var d' := d.(count := f.count, printed := f.printed);
        if f.end.Failed? then Abort(d', f.end.failure)
        else if h.hasWriter then Next(d'.(written := d'.written + [Flushed(f.fed)]))
        else if f.count >= 2 then Done(d')
        else Next(d')
  }

  /** The check after the loop: a run that saw fewer than 2 packets is an invalid file. */
  function Finish(d: Driver): RunResult
  {
    RunResult(if d.count < 2 then Some(InvalidFile) else None, d.written, d.printed)
  }

  /** The outer loop of `run` from state `d` over the remaining pages. */
  function RunPages(h: Handlers, d: Driver, pages: seq<Page>, endsInError: bool): RunResult
    decreases |pages|
  {
    if pages == [] then
      if endsInError then RunResult(Some(ReadFailed), d.written, d.printed) else Finish(d)
    else
      match StepPage(h, d, pages[0])
      case Next(d') => RunPages(h, d', pages[1..], endsInError)
      case Done(d') => Finish(d')
      case Abort(d', e) => RunResult(Some(e), d'.written, d'.printed)
  }

  /** The inner loop of `run`: reads the packets one page completes. */
  method FeedPage(env: Environment, count0: int, packets: seq<Packet>, printed0: Option<seq<Comment>>) returns (f: Feed)
    requires count0 >= 0
    ensures f == FeedPackets(HandlersOf(env), count0, packets, [], printed0)
  {
    var count := count0;
    var fed: seq<Packet> := [];
    var printed := printed0;
    var j := 0;
    while j < |packets|
      invariant j <= |packets|
      invariant FeedPackets(HandlersOf(env), count, packets[j..], fed, printed) == FeedPackets(HandlersOf(env), count0, packets, [], printed0)
    {
      assert packets[j..][1..] == packets[j + 1..];
      var packet := packets[j];
      j := j + 1;
      count := count + 1;
      if count == 1 {
        if !env.idHeaderOk(packet) {
          return Feed(count, fed, printed, Failed(BadIdentificationHeader));
        }
      } else if count == 2 {
        var r := ProcessTags(packet, env.opt, env.input, env.hasWriter);
        if r.Err? {
          return Feed(count, fed, printed, Failed(r.error));
        }
        if !env.hasWriter {
          return Feed(count, fed, Some(r.value.comments), Stopped);
        } else {
          fed := fed + [r.value.packet];
          continue;
        }
      }
      if env.hasWriter {
        fed := fed + [packet];
      }
    }
    return Feed(count, fed, printed, Exhausted);
  }

  /**
   * `run` from the point where the files are open: reads page after page,
   * copies pages verbatim once the two header packets are behind it (when
   * there is a writer), and otherwise feeds each page's packets through
   * FeedPage and flushes what it handed to the writer.
   */
  method Run(env: Environment, input: Input) returns (result: RunResult)
    ensures result == RunPages(HandlersOf(env), Start, input.pages, input.endsInError)
  {
    var pages := input.pages;
    var count := -1;
    var written: seq<Written> := [];
    var printed: Option<seq<Comment>> := None;
    var error: Option<Failure> := None;
    var next := 0;
    ghost var spec := RunPages(HandlersOf(env), Start, pages, input.endsInError);
    while error == None
      invariant next <= |pages| && count >= -1
      invariant error == None ==> RunPages(HandlersOf(env), Driver(count, written, printed), pages[next..], input.endsInError) == spec
      invariant error != None ==> RunResult(error, written, printed) == spec
      decreases |pages| - next, if error == None then 1 else 0
    {
      // Read the next page.
      if next == |pages| {
        if input.endsInError {
          error := Some(ReadFailed);
        }
        break;
      }
      var page := pages[next];
      assert pages[next..][1..] == pages[next + 1..];
      next := next + 1;
      // Short-circuit when the relevant packets have been read.
      if count >= 2 && env.hasWriter {
        written := written + [Copied(page.raw)];
        continue;
      }
      if count == -1 {
        count := 0;
      }
      if !page.accepted {
        error := Some(InvalidPage);
        break;
      }
      var f := FeedPage(env, count, page.packets, printed);
      count, printed := f.count, f.printed;
      if f.end.Failed? {
        error := Some(f.end.failure);
        break;
      }
      if env.hasWriter {
        written := written + [Flushed(f.fed)];
      } else if count >= 2 {
        break;
      }
    }
    if error == None && count < 2 {
      error := Some(InvalidFile);
    }
    result := RunResult(error, written, printed);
  }
}
