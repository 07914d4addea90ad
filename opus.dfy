/**
 * The OpusTags comment header (section 5.2 of RFC 7845) as src/opus.cc
 * reads it, writes it and deletes comments from it.
 *
 * Packet layout:
 *   "OpusTags" | vendor length (LE32) | vendor | comment count (LE32)
 *   | for each comment: length (LE32) | comment | extra data
 *
 * The spec functions Parse and Render state what the packet means; the
 * methods ParseTags, RenderTags, MatchField and OpusTags.DeleteComments follow
 * the C++ code step by step and are proved equal to them.
 */
module Opus {
  import opened Wrappers
  import opened LittleEndian

  /** A comment is an uninterpreted byte string, normally `FIELD=VALUE`. */
  type Comment = seq<Byte>

  /** "OpusTags" in ASCII. */
  const Magic: seq<Byte> := [79, 112, 117, 115, 84, 97, 103, 115]

  /** ASCII '='. */
  const Equals: Byte := 61

  /** The NUL byte that ends a C string. */
  const Nul: Byte := 0

  /** The value held by an `opus_tags` record. */
  datatype Tags = Tags(vendor: seq<Byte>, comments: seq<Comment>, extraData: seq<Byte>)

  /** The failure statuses of `parse_tags`, one per truncation point and one for a wrong magic. */
  datatype ParseError =
    | CutMagicNumber
    | BadMagicNumber
    | CutVendorLength
    | CutVendorData
    | CutCommentCount
    | CutCommentLength
    | CutCommentData

  // ---------------------------------------------------------------------------
  // Specification of the format

  /**
   * Reads `n` length-prefixed comments starting at `pos`, appending them to
   * `acc`; on success also gives the position just after the last one.
   */
  function ParseComments(b: seq<Byte>, pos: nat, n: nat, acc: seq<Comment>): (r: Result<(seq<Comment>, nat), ParseError>)
    requires pos <= |b|
    ensures r.Ok? ==> pos <= r.value.1 <= |b|
    decreases n
  {
    if n == 0 then Ok((acc, pos))
    else if pos + 4 > |b| then Err(CutCommentLength)
    else
      var length := ReadLE32(b, pos);
      if pos + 4 + length > |b| then Err(CutCommentData)
      else ParseComments(b, pos + 4 + length, n - 1, acc + [b[pos + 4..pos + 4 + length]])
  }

  /** What `parse_tags` makes of a packet. */
  function Parse(b: seq<Byte>): Result<Tags, ParseError>
  {
    if |b| < 8 then Err(CutMagicNumber)
    else if b[..8] != Magic then Err(BadMagicNumber)
    else if 8 + 4 > |b| then Err(CutVendorLength)
    else
      var vendorLength := ReadLE32(b, 8);
      if 8 + 4 + vendorLength > |b| then Err(CutVendorData)
      else
        var pos := 12 + vendorLength;
        if pos + 4 > |b| then Err(CutCommentCount)
        else
          match ParseComments(b, pos + 4, ReadLE32(b, pos), [])
          case Err(e) => Err(e)
          case Ok((comments, end)) => Ok(Tags(b[12..pos], comments, b[end..]))
  }

  /** The number of bytes the comments take up in a packet: a 4-byte length each, plus the text. */
  function CommentsSize(cs: seq<Comment>): nat
  {
    if cs == [] then 0 else 4 + |cs[0]| + CommentsSize(cs[1..])
  }

  /** The comments' part of a packet. Lengths are stored modulo 2^32, as `htole32` of a `size_t` does. */
  function RenderComments(cs: seq<Comment>): (r: seq<Byte>)
    ensures |r| == CommentsSize(cs)
  {
    if cs == [] then [] else WriteLE32(|cs[0]|) + cs[0] + RenderComments(cs[1..])
  }

  /** The packet `render_tags` produces. */
  function Render(t: Tags): (r: seq<Byte>)
    ensures |r| == 8 + 4 + |t.vendor| + 4 + CommentsSize(t.comments) + |t.extraData|
  {
    Magic + WriteLE32(|t.vendor|) + t.vendor + WriteLE32(|t.comments|) + RenderComments(t.comments) + t.extraData
  }

  /** Every length `render_tags` writes fits the 32 bits the format gives it. */
  predicate Fits32(t: Tags)
  {
    && |t.vendor| < TwoTo32
    && |t.comments| < TwoTo32
    && forall i :: 0 <= i < |t.comments| ==> |t.comments[i]| < TwoTo32
  }

  lemma {:induction false} CommentsSizeAppend(s: seq<Comment>, t: seq<Comment>)
    ensures CommentsSize(s + t) == CommentsSize(s) + CommentsSize(t)
  {
    if s != [] {
      assert (s + t)[1..] == s[1..] + t;
      CommentsSizeAppend(s[1..], t);
    } else {
      assert s + t == t;
    }
  }

  lemma {:induction false} RenderCommentsAppend(s: seq<Comment>, t: seq<Comment>)
    ensures RenderComments(s + t) == RenderComments(s) + RenderComments(t)
  {
    if s != [] {
      assert (s + t)[1..] == s[1..] + t;
      RenderCommentsAppend(s[1..], t);
    } else {
      assert s + t == t;
    }
  }

  // ---------------------------------------------------------------------------
  // Field names and matching

  /**
   * The field name carried by the C string `field`: its bytes up to the first
   * '=' or NUL (the end of the sequence stands for the terminating NUL).
   */
  function FieldName(field: seq<Byte>): (name: seq<Byte>)
    ensures |name| <= |field| && name == field[..|name|]
    ensures forall k :: 0 <= k < |name| ==> name[k] != Nul && name[k] != Equals
    ensures |name| < |field| ==> field[|name|] == Nul || field[|name|] == Equals
  {
    if field == [] || field[0] == Nul || field[0] == Equals then []
    else [field[0]] + FieldName(field[1..])
  }

  /**
   * Whether `match_field` reports that `comment` is `name=...`. Its length
   * parameter is a `uint32_t`, so the comment's size is taken modulo 2^32
   * before it is compared with the length of the name.
   */
  predicate Matches(comment: Comment, name: seq<Byte>)
  {
    && Truncate32(|comment|) > |name|
    && comment[|name|] == Equals
    && comment[..|name|] == name
  }

  /** `strncmp(a, b, n) == 0`: the first `n` bytes agree, or agree up to a NUL both contain. */
  predicate StrNCmpEqual(a: seq<Byte>, b: seq<Byte>, n: nat)
    requires n <= |a| && n <= |b|
    decreases n
  {
    n == 0 || (a[0] == b[0] && (a[0] == Nul || StrNCmpEqual(a[1..], b[1..], n - 1)))
  }

  /** When `b` has no NUL among its first `n` bytes, strncmp is plain prefix equality. */
  lemma {:induction false} StrNCmpEqualPrefix(a: seq<Byte>, b: seq<Byte>, n: nat)
    requires n <= |a| && n <= |b|
    requires forall k :: 0 <= k < n ==> b[k] != Nul
    ensures StrNCmpEqual(a, b, n) <==> a[..n] == b[..n]
    decreases n
  {
    if n > 0 {
      StrNCmpEqualPrefix(a[1..], b[1..], n - 1);
      assert a[..n] == [a[0]] + a[1..][..n - 1];
      assert b[..n] == [b[0]] + b[1..][..n - 1];
    }
  }

  /** The field name is the longest prefix free of NUL and '=': any prefix that stops where the scan stops is it. */
  lemma {:induction false} FieldNameIs(field: seq<Byte>, n: nat)
    requires n <= |field|
    requires forall k :: 0 <= k < n ==> field[k] != Nul && field[k] != Equals
    requires n < |field| ==> field[n] == Nul || field[n] == Equals
    ensures FieldName(field) == field[..n]
  {
    if n > 0 {
      FieldNameIs(field[1..], n - 1);
      assert field[..n] == [field[0]] + field[1..][..n - 1];
    }
  }

  /** `match_field`: scan the field name, then compare the comment against it. */
  method MatchField(comment: Comment, field: seq<Byte>) returns (matched: bool)
    ensures matched <==> Matches(comment, FieldName(field))
  {
    var fieldLength := 0;
    while fieldLength < |field| && field[fieldLength] != Nul && field[fieldLength] != Equals
      invariant fieldLength <= |field|
      invariant forall k :: 0 <= k < fieldLength ==> field[k] != Nul && field[k] != Equals
    {
      fieldLength := fieldLength + 1;
    }
    FieldNameIs(field, fieldLength);
    var length := Truncate32(|comment|);
    if length <= fieldLength {
      return false;
    }
    if comment[fieldLength] != Equals {
      return false;
    }
    StrNCmpEqualPrefix(comment, field, fieldLength);
    matched := StrNCmpEqual(comment, field, fieldLength);
  }

  /** The comments `delete_comments` keeps: those that are not `name=...`, in their order. */
  function RemoveField(cs: seq<Comment>, name: seq<Byte>): seq<Comment>
  {
    if cs == [] then []
    else (if Matches(cs[0], name) then [] else [cs[0]]) + RemoveField(cs[1..], name)
  }

  lemma {:induction false} RemoveFieldAppend(s: seq<Comment>, t: seq<Comment>, name: seq<Byte>)
    ensures RemoveField(s + t, name) == RemoveField(s, name) + RemoveField(t, name)
  {
    if s != [] {
      assert (s + t)[1..] == s[1..] + t;
      RemoveFieldAppend(s[1..], t, name);
    } else {
      assert s + t == t;
    }
  }

  // ---------------------------------------------------------------------------
  // The opus_tags record and the operations of src/opus.cc

  /** An `opus_tags` record, whose fields the operations below update in place. */
  class OpusTags {
    var vendor: seq<Byte>
    var comments: seq<Comment>
    var extraData: seq<Byte>

    constructor ()
      ensures vendor == [] && comments == [] && extraData == []
    {
      vendor, comments, extraData := [], [], [];
    }

    /** The value the record currently holds. */
    function Value(): Tags
      reads this
    {
      Tags(vendor, comments, extraData)
    }

    /**
     * `delete_comments`: walks the list and erases, in place, every comment
     * that `match_field` matches against `fieldName`.
     */
    method DeleteComments(fieldName: seq<Byte>)
      modifies this
      ensures vendor == old(vendor) && extraData == old(extraData)
      ensures comments == RemoveField(old(comments), FieldName(fieldName))
    {
      ghost var name := FieldName(fieldName);
      ghost var original := comments;
      ghost var visited := 0;
      var i := 0;
      while i < |comments|
        invariant visited <= |original| && i <= |comments|
        invariant vendor == old(vendor) && extraData == old(extraData)
        invariant comments[..i] == RemoveField(original[..visited], name)
        invariant comments[i..] == original[visited..]
        decreases |comments| - i
      {
        var current := comments[i];
        assert current == original[visited];
        assert original[..visited + 1] == original[..visited] + [current];
        RemoveFieldAppend(original[..visited], [current], name);
        assert RemoveField([current], name) == if Matches(current, name) then [] else [current];
        assert original[visited + 1..] == original[visited..][1..];
        var matched := MatchField(current, fieldName);
        if matched {
          ghost var kept, rest := comments[..i], comments[i + 1..];
          assert rest == comments[i..][1..];
          comments := comments[..i] + comments[i + 1..];
          assert comments[..i] == kept && comments[i..] == rest;
        } else {
          assert comments[..i + 1] == comments[..i] + [current];
          assert comments[i + 1..] == comments[i..][1..];
          i := i + 1;
        }
        visited := visited + 1;
      }
      assert original[..visited] == original;
    }
  }

  /**
   * `parse_tags`: reads the packet with a bounds-checked cursor. The record
   * is filled only on success; on failure it is left as it was.
   */
  method ParseTags(packet: seq<Byte>, tags: OpusTags) returns (status: Outcome<ParseError>)
    modifies tags
    ensures Parse(packet).Err? ==> status == Fail(Parse(packet).error) && unchanged(tags)
    ensures Parse(packet).Ok? ==> status == Pass && tags.Value() == Parse(packet).value
  {
    var size := |packet|;
    if 8 > size {
      return Fail(CutMagicNumber);
    }
    if packet[..8] != Magic {
      return Fail(BadMagicNumber);
    }
    var pos: nat := 8;
    if pos + 4 > size {
      return Fail(CutVendorLength);
    }
    var vendorLength := ReadLE32(packet, pos);
    if pos + 4 + vendorLength > size {
      return Fail(CutVendorData);
    }
    var vendor := packet[pos + 4..pos + 4 + vendorLength];
    pos := pos + 4 + |vendor|;
    if pos + 4 > size {
      return Fail(CutCommentCount);
    }
    var count := ReadLE32(packet, pos);
    var parsed := ReadComments(packet, pos + 4, count);
    if parsed.Err? {
      return Fail(parsed.error);
    }
    var (comments, end) := parsed.value;
    tags.vendor, tags.comments, tags.extraData := vendor, comments, packet[end..];
    return Pass;
  }

  /** The comment loop of `parse_tags`: `count` length-prefixed comments from `start`, with the cursor after them. */
  method ReadComments(packet: seq<Byte>, start: nat, count: nat) returns (r: Result<(seq<Comment>, nat), ParseError>)
    requires start <= |packet|
    ensures r == ParseComments(packet, start, count, [])
  {
    var size := |packet|;
    var pos: nat := start;
    var comments: seq<Comment> := [];
    var i: nat := 0;
    while i < count
      invariant i <= count && pos <= size
      invariant ParseComments(packet, pos, count - i, comments) == ParseComments(packet, start, count, [])
    {
      if pos + 4 > size {
        return Err(CutCommentLength);
      }
      var commentLength := ReadLE32(packet, pos);
      if pos + 4 + commentLength > size {
        return Err(CutCommentData);
      }
      comments := comments + [packet[pos + 4..pos + 4 + commentLength]];
      pos := pos + 4 + commentLength;
      i := i + 1;
    }
    return Ok((comments, pos));
  }

  /** `memcpy(buf + at, src, |src|)`: what lies before `at` is kept and followed by `src`. */
  method CopyInto(buf: array<Byte>, at: nat, src: seq<Byte>)
    requires at + |src| <= buf.Length
    modifies buf
    ensures buf[..at + |src|] == old(buf[..at]) + src
    ensures buf[at + |src|..] == old(buf[at + |src|..])
    ensures forall k :: at + |src| <= k < buf.Length ==> buf[k] == old(buf[k])
  {
    var j := 0;
    while j < |src|
      invariant j <= |src|
      invariant forall k :: 0 <= k < buf.Length ==> buf[k] == if at <= k < at + j then src[k - at] else old(buf[k])
    {
      buf[at + j] := src[j];
      j := j + 1;
    }
  }

  /** One comment as `render_tags` stores it: its 32-bit length, then its bytes. */
  method WriteComment(buf: array<Byte>, at: nat, comment: Comment)
    requires at + 4 + |comment| <= buf.Length
    modifies buf
    ensures buf[..at + 4 + |comment|] == old(buf[..at]) + RenderComments([comment])
    ensures buf[at + 4 + |comment|..] == old(buf[at + 4 + |comment|..])
    ensures forall k :: at + 4 + |comment| <= k < buf.Length ==> buf[k] == old(buf[k])
  {
    ghost var single: seq<Comment> := [comment];
    assert RenderComments(single) == WriteLE32(|comment|) + comment by {
      assert single[1..] == [];
    }
    CopyInto(buf, at, WriteLE32(|comment|));
    ghost var withLength := buf[..at + 4];
    CopyInto(buf, at + 4, comment);
    assert buf[..at + 4 + |comment|] == withLength + comment;
  }

  /** The magic, the vendor string and the comment count, at the start of `buf`. */
  method WriteHeader(buf: array<Byte>, vendor: seq<Byte>, count: nat)
    requires 16 + |vendor| <= buf.Length
    modifies buf
    ensures buf[..16 + |vendor|] == Magic + WriteLE32(|vendor|) + vendor + WriteLE32(count)
    ensures forall k :: 16 + |vendor| <= k < buf.Length ==> buf[k] == old(buf[k])
  {
    CopyInto(buf, 0, Magic);
    CopyInto(buf, 8, WriteLE32(|vendor|));
    CopyInto(buf, 12, vendor);
    CopyInto(buf, 12 + |vendor|, WriteLE32(count));
  }

  /** The size `render_tags` allocates, summed over the comments as the C++ loop does. */
  method RenderedSize(tags: OpusTags) returns (size: nat)
    ensures size == 8 + 4 + |tags.vendor| + 4 + CommentsSize(tags.comments) + |tags.extraData|
  {
    var comments := tags.comments;
    size := 8 + 4 + |tags.vendor| + 4;
    for i := 0 to |comments|
      invariant size == 16 + |tags.vendor| + CommentsSize(comments[..i])
    {
      assert comments[..i + 1] == comments[..i] + [comments[i]];
      CommentsSizeAppend(comments[..i], [comments[i]]);
      size := size + 4 + |comments[i]|;
    }
    assert comments[..|comments|] == comments;
    size := size + |tags.extraData|;
  }

  /** Sizes and renderings of a list's prefixes grow by one comment at a time. */
  lemma PrefixStep(comments: seq<Comment>, i: nat)
    requires i < |comments|
    ensures CommentsSize(comments[..i + 1]) == CommentsSize(comments[..i]) + 4 + |comments[i]|
    ensures RenderComments(comments[..i + 1]) == RenderComments(comments[..i]) + RenderComments([comments[i]])
    ensures CommentsSize(comments[i..]) == 4 + |comments[i]| + CommentsSize(comments[i + 1..])
  {
    var comment := comments[i];
    assert comments[i..][0] == comment && comments[i..][1..] == comments[i + 1..];
    assert comments[..i + 1] == comments[..i] + [comment];
    CommentsSizeAppend(comments[..i], [comment]);
    RenderCommentsAppend(comments[..i], [comment]);
  }

  /** One turn of the loop of `render_tags`: comment `i` is written after the `i` before it. */
  method WriteNextComment(buf: array<Byte>, at: nat, comments: seq<Comment>, i: nat, end: nat, ghost before: seq<Byte>) returns (next: nat)
    requires i < |comments| && end + CommentsSize(comments[i..]) <= buf.Length
    requires end == at + CommentsSize(comments[..i])
    requires buf[..end] == before + RenderComments(comments[..i])
    modifies buf
    ensures end <= next == at + CommentsSize(comments[..i + 1])
    ensures next + CommentsSize(comments[i + 1..]) <= buf.Length
    ensures buf[..next] == before + RenderComments(comments[..i + 1])
    ensures forall k :: next <= k < buf.Length ==> buf[k] == old(buf[k])
  {
    var comment := comments[i];
    PrefixStep(comments, i);
    ghost var done := buf[..end];
    ghost var rendered := RenderComments([comment]);
    assert done + rendered == before + RenderComments(comments[..i + 1]);
    WriteComment(buf, end, comment);
    next := end + 4 + |comment|;
    assert buf[..next] == done + rendered;
  }

  /** The comments, one after the other from `at`, as the loop of `render_tags` writes them. */
  method WriteComments(buf: array<Byte>, at: nat, comments: seq<Comment>) returns (end: nat)
    requires at + CommentsSize(comments) <= buf.Length
    modifies buf
    ensures end == at + CommentsSize(comments)
    ensures buf[..end] == old(buf[..at]) + RenderComments(comments)
    ensures forall k :: end <= k < buf.Length ==> buf[k] == old(buf[k])
  {
    end := at;
    assert comments[0..] == comments;
    for i := 0 to |comments|
      invariant end == at + CommentsSize(comments[..i])
      invariant end + CommentsSize(comments[i..]) <= buf.Length
      invariant buf[..end] == old(buf[..at]) + RenderComments(comments[..i])
      invariant at <= end
      invariant forall k :: end <= k < buf.Length ==> buf[k] == old(buf[k])
    {
      end := WriteNextComment(buf, at, comments, i, end, old(buf[..at]));
    }
    assert comments[..|comments|] == comments;
  }

  /**
   * `render_tags`: computes the packet size first, then fills a buffer of
   * that size through a moving position.
   */
  method RenderTags(tags: OpusTags) returns (packet: seq<Byte>)
    ensures packet == Render(tags.Value())
  {
    var size := RenderedSize(tags);
    var vendor, comments, extraData := tags.vendor, tags.comments, tags.extraData;
    var buf := new Byte[size];
    WriteHeader(buf, vendor, |comments|);
    var at := WriteComments(buf, 16 + |vendor|, comments);
    CopyInto(buf, at, extraData);
    assert buf[..] == buf[..at + |extraData|];
    packet := buf[..];
  }
}
