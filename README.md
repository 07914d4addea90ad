# opustags: the comment-header codec and the rewrite driver, in Dafny

opustags edits the comment header ("OpusTags" packet) of an Ogg Opus file
without touching the audio. This project models two parts of it and proves
what they guarantee.

**The comment-header codec of `src/opus.cc`** (module `Opus`, properties in
`OpusProperties`). The packet is the Comment Header of section 5.2 of
RFC 7845:

    "OpusTags" | vendor length (LE32) | vendor | comment count (LE32)
    | for each comment: length (LE32) | comment | extra data

- `parse_tags` is `Opus.ParseTags`. It reads the packet with a bounds-checked
  cursor, reports a distinct error for each truncation point, and fills an
  `opus_tags` record (class `Opus.OpusTags`) only on success.
- `render_tags` is `Opus.RenderTags`. It computes the size first, then fills
  an array of that size.
- `match_field` is `Opus.MatchField` and `delete_comments` is
  `Opus.OpusTags.DeleteComments`, which erases matching comments in place.
- Each method is proved equal to a specification function (`Parse`,
  `Render`, `FieldName`/`Matches`, `RemoveField`).
- The properties are proved about those functions:
  - both round trips;
  - the error at every truncation point, and the magic-number errors in
    both directions;
  - the packet layout on success;
  - deletion as an order-preserving filter with exact multiplicities.

**The driver of `src/opustags.cc`** (module `Opustags`, properties in
`OpustagsProperties`).
- `process_tags` is `Opustags.ProcessTags`. It applies its edits in place in a
  fixed order: delete all or delete each named field, then replace the list
  if `set_all`, then append the additions, then render or print.
- The `packet_count` state machine of `run` is `Opustags.Run`, with
  `Opustags.FeedPage` for its inner packet loop.
- Ogg framing is abstracted. A page is its raw bytes, whether
  `ogg_stream_pagein` accepts it, and the packets it completes. The output is
  a list of written pages: a flush of the packets handed to the writer, or a
  verbatim copy.
- `Run` is proved equal to the function `RunPages`.
- The properties are stated over any `Handlers`: the identification-header
  check and the treatment of the comment header. `HandlersOf` instantiates
  them with `process_tags` and the run's options. They cover:
  - the invalid-file error;
  - read-only mode: it stops once packet 2 is handled, writes nothing, and
    prints the edited comment list of packet 2;
  - the verbatim copy phase;
  - the pass-through theorem: packet 1 is validated, and packet 2 is the only
    packet rewritten. Every other packet is handed to the writer unchanged,
    and every later page is copied verbatim.
- `same_file` is `Opustags.SameFile`, with `realpath` as a parameter.

Lengths are naturals. Where the C++ converts a `size_t` to `uint32_t` (the
lengths `render_tags` stores, and the `len` argument of `match_field`), the
model takes the value modulo 2^32 explicitly (`LittleEndian.Truncate32`).

Where the code and its documentation differ, the model follows the code:
- The file comment of `src/opus.cc` cites "RFC 7584" but links RFC 7845. The
  format is that of RFC 7845.
- The record also keeps `extra_data`, the bytes after the last comment. It is
  preserved by parsing, rendering and every edit.
- `src/opustags.cc` calls `parse_tags(char*, len, &tags)` and `delete_tags`.
  These are the signatures of another revision of `src/opus.cc`. The model
  uses this revision's `parse_tags` over the packet's bytes and
  `delete_comments`.
- A packet that follows packet 2 on the same page is flushed with it, and
  copying verbatim starts only from the next page.

Files: `wrappers.dfy` (Option, Result, Outcome), `slices.dfy` (generic
slice lemmas), `little_endian.dfy`, `opus.dfy`, `opus_properties.dfy`,
`opustags.dfy`, `opustags_properties.dfy`.

## Model

| member | source | states |
|---|---|---|
| LittleEndian.Truncate32 | src/opus.cc:107 | a `size_t` stored as `uint32_t` never grows and is unchanged below 2^32 |
| LittleEndian.DecodeEncode | src/opus.cc:58 | `le32toh` reads back exactly the value `htole32` stored |
| LittleEndian.EncodeDecode | src/opus.cc:58 | four bytes read as a 32-bit value re-encode to the same four bytes |
| LittleEndian.ReadWritten | src/opus.cc:107-108 | a length written between two byte strings is read back as that length modulo 2^32 |
| Opus.ParseComments | src/opus.cc:71-82 | on success the cursor after the comments lies within the packet and after the start |
| Opus.RenderComments | src/opus.cc:114-119 | the comments take 4 + length bytes each |
| Opus.Render | src/opus.cc:93-96 | the rendered size is 8 + 4 + vendor + 4 + the sum of 4 + comment + extra data |
| Opus.FieldName | src/opus.cc:131 | the field name is the prefix of the argument up to the first '=' or NUL, and holds neither |
| Opus.FieldNameIs | src/opus.cc:131 | any prefix free of '=' and NUL that stops at one of them (or at the end) is the field name |
| Opus.StrNCmpEqualPrefix | src/opus.cc:136 | when the field name has no NUL, `strncmp(...) == 0` is plain prefix equality |
| Opus.MatchField | src/opus.cc:128-139 | the scan and the three tests say exactly: length modulo 2^32 exceeds the name's, '=' after it, the name as prefix |
| Opus.OpusTags.constructor | src/opustags.cc:34 | a fresh record is empty |
| Opus.OpusTags.DeleteComments | src/opus.cc:141-149 | the in-place erase leaves exactly the comments the field does not match, in order; vendor and extra data unchanged |
| Opus.ParseTags | src/opus.cc:38-89 | the status is each truncation error or the magic error as Parse says; on failure the record is untouched, on success it holds the parsed record |
| Opus.ReadComments | src/opus.cc:71-82 | the cursor loop reads the declared number of comments in packet order or reports the cut length or cut data |
| Opus.CopyInto | src/opus.cc:106-120 | `memcpy` into the buffer keeps the bytes before and after, and places the source |
| Opus.WriteHeader | src/opus.cc:106-113 | the buffer starts with the magic, the vendor length, the vendor and the comment count; the bytes after them are kept |
| Opus.WriteComment | src/opus.cc:115-118 | one comment is written as its 32-bit length followed by its bytes |
| Opus.WriteNextComment | src/opus.cc:114-119 | one turn of the comment loop extends the rendered prefix by the next comment, moves the position forward and keeps the bytes after it |
| Opus.WriteComments | src/opus.cc:114-119 | the loop writes the rendering of all comments after the header, advances the position by their size and keeps the bytes after it |
| Opus.RenderedSize | src/opus.cc:93-96 | the size summed by the loop is the size of the rendered packet |
| Opus.RenderTags | src/opus.cc:91-123 | the filled buffer is exactly the rendering of the record |
| OpusProperties.ParseCommentsRendered | src/opus.cc:71-82 | rendered comments with 32-bit lengths are read back in order, ending just after them |
| OpusProperties.ParseCommentsInverse | src/opus.cc:71-82 | comments that were read are exactly the rendering of the bytes they came from, each shorter than 2^32 |
| OpusProperties.ParseRender | src/opus.cc:38-123 | parse(render(t)) == t whenever every length fits in 32 bits |
| OpusProperties.RenderParse | src/opus.cc:38-123 | render(parse(b)) == b for every packet that parses, and its lengths all fit in 32 bits |
| OpusProperties.ParseAcceptsExactlyRenderings | src/opus.cc:38-123 | a packet parses if and only if it is the rendering of some record whose lengths fit in 32 bits |
| OpusProperties.ParseLayout | src/opus.cc:55-85 | on success the vendor and count stand where their lengths put them, the comment count is the declared count, the comments are in packet order and the extra data is exactly the bytes after the last comment |
| OpusProperties.ParseCommentsErrors | src/opus.cc:71-78 | the comment loop fails only with the cut-comment-length or cut-comment-data error |
| OpusProperties.MagicErrors | src/opus.cc:48-51 | cut magic number exactly when the packet is shorter than 8 bytes; bad magic number exactly when it is 8 bytes or longer and does not start with "OpusTags" |
| OpusProperties.ParseCommentsTruncated | src/opus.cc:71-78 | comments cut short fail with the error of the field the cut falls in |
| OpusProperties.TruncatedPacket | src/opus.cc:48-78 | a packet cut anywhere before the end of its last comment fails with the error of the field the cut falls in |
| OpusProperties.MatchesIsPrefixTest | src/opus.cc:132-137 | for a comment shorter than 2^32 the match is the plain `name=` prefix test |
| OpusProperties.RemoveFieldSelects | src/opus.cc:141-149 | deletion keeps the comments at increasing positions, a position being kept exactly when its comment does not match |
| OpusProperties.RemoveFieldKeepsOrder | src/opus.cc:141-149 | the survivors of deletion are the non-matching comments, in their original order |
| OpusProperties.RemoveFieldCounts | src/opus.cc:141-149 | a matching comment no longer occurs; any other occurs as often as before |
| OpusProperties.RemoveAbsentField | src/opus.cc:141-149 | deleting a field no comment carries leaves the list unchanged |
| OpusProperties.RemoveFieldIdempotent | src/opus.cc:141-149 | deleting the same field twice is deleting it once |
| OpusProperties.FieldNameExample | src/opus.cc:131 | the argument `TITLE=Foo` names the field `TITLE` |
| OpusProperties.TitleMatching | src/opus.cc:132-137 | `TITLE` matches `TITLE=Foo` but neither `TITLEX=Foo` nor `title=Foo` |
| OpusProperties.TitleExample | src/opus.cc:141-149 | deleting `TITLE` removes `TITLE=Foo` and keeps `TITLEX=Foo` and `title=Foo` |
| Opustags.SameFile | src/opustags.cc:17-26 | "-" on either side is never the same file; otherwise the same file exactly when both paths canonicalize to the same path |
| Opustags.EditTags | src/opustags.cc:38-48 | the in-place edits produce the edited comment list; vendor and extra data are untouched |
| Opustags.ProcessTags | src/opustags.cc:32-59 | a bad comment header on parse failure; otherwise the edited record, rendered with a writer or printed without one |
| Opustags.HandlersOf | src/opustags.cc:149-150 | in a run, the comment header goes through `process_tags` with the run's options |
| Opustags.FeedPackets | src/opustags.cc:141-165 | the inner loop advances the counter by at most one per packet |
| Opustags.FeedPage | src/opustags.cc:141-165 | the packet loop of one page: validate packet 1, process packet 2, forward the others, stop on error or in read-only mode |
| Opustags.Run | src/opustags.cc:100-187 | the page loop, with its copy short-circuit, stream start, pagein failure, flush and invalid-file check, is the run function |
| OpustagsProperties.DeleteEachCounts | src/opustags.cc:41-42 | deleting each named field keeps every comment none of them matches as often as before and drops the rest |
| OpustagsProperties.DeleteEachAppend | src/opustags.cc:41-42 | deletion works comment by comment, so the survivors keep their order |
| OpustagsProperties.DeleteEachAbsent | src/opustags.cc:41-42 | deleting fields no comment carries changes nothing |
| OpustagsProperties.EditOrder | src/opustags.cc:38-48 | additions come last in the given order; set-all replaces everything before them; delete-all ignores the names; otherwise each original comment survives exactly when no name matches it |
| OpustagsProperties.ProcessFailsOnlyOnBadHeader | src/opustags.cc:35-36 | `process_tags` fails exactly when the packet does not parse, always with a bad comment header, and renders exactly when there is a writer |
| OpustagsProperties.ProcessKeepsVendorAndExtraData | src/opustags.cc:38-51 | the rewritten packet parses back to the same vendor and extra data with the edited comments |
| OpustagsProperties.ProcessWithoutEditsIsIdentity | src/opustags.cc:32-59 | with no edit requested the comment header is written back byte for byte |
| OpustagsProperties.FeedFewPackets | src/opustags.cc:141-148 | while fewer than 2 packets exist, valid identification headers let the inner loop run to the end of the page |
| OpustagsProperties.FewPacketsFail | src/opustags.cc:186-187 | from any counter state, pages completing too few packets end in an error, the invalid-file error when nothing else fails |
| OpustagsProperties.FewerThanTwoPacketsIsInvalid | src/opustags.cc:186-187 | a run over fewer than 2 packets fails, with "opustags: invalid file" when nothing else goes wrong |
| OpustagsProperties.ReadOnlyWritesNothing | src/opustags.cc:160-181 | in read-only mode nothing is ever written |
| OpustagsProperties.ReadOnlyStops | src/opustags.cc:180-181 | in read-only mode a successful run is unaffected by any pages after those it read |
| OpustagsProperties.ReadOnlyIgnoresLaterPages | src/opustags.cc:155-181 | read-only mode stops once packet 2 is handled: later pages and a later read error make no difference, and nothing is written |
| OpustagsProperties.FeedReadOnly | src/opustags.cc:141-159 | without a writer, the packet loop checks packet 1 and stops at packet 2 with the list it prints |
| OpustagsProperties.ReadOnlyFirstPage | src/opustags.cc:136-181 | without a writer, the first header page of a successful run is checked, and either prints packet 2's list or goes on to the next page |
| OpustagsProperties.ReadOnlyRunChecks | src/opustags.cc:141-181 | without a writer and from any counter value below 2, a successful run validated packet 1, accepted packet 2 and printed its list |
| OpustagsProperties.ReadOnly | src/opustags.cc:100-187 | a successful read-only run validated packet 1, printed the list packet 2 gives and wrote nothing |
| OpustagsProperties.ReadOnlyPrintsEdited | src/opustags.cc:54-55 | opustags without an output file prints the comment list of packet 2 after the edits of `process_tags`, and writes nothing |
| OpustagsProperties.CopyPhase | src/opustags.cc:115-121 | with a writer and the counter at 2 or more, every page read is copied verbatim up to the end of the input |
| OpustagsProperties.FeedWithWriter | src/opustags.cc:141-165 | with a writer, a page's packets are forwarded with packet 2 replaced by the rewritten header, after packet 1 passed validation |
| OpustagsProperties.WriterFirstPage | src/opustags.cc:136-179 | the first header page of a successful run is demultiplexed, checked and flushed |
| OpustagsProperties.WriterRunChecks | src/opustags.cc:141-165 | a successful run with a writer validated packet 1 and accepted packet 2, and did not end in a read error |
| OpustagsProperties.WriterRunFlushed | src/opustags.cc:141-179 | what the writer was handed is the forwarded header-phase packets |
| OpustagsProperties.WriterRunPages | src/opustags.cc:115-179 | one page written per page read, those after the header phase verbatim copies |
| OpustagsProperties.WriterLastHeaderPage | src/opustags.cc:115-179 | the page on which the counter reaches 2 ends the header phase, and all later pages are copied |
| OpustagsProperties.PassThrough | src/opustags.cc:100-187 | a successful run with a writer validated packet 1, rewrote only packet 2, handed every other packet to the writer unchanged and copied every later page |
| OpustagsProperties.WriterPassThrough | src/opustags.cc:100-187 | the same for opustags with an output file, with packet 2 rewritten by `process_tags` |

## Left out

- libogg is not modelled: page framing, checksums, sequence numbers,
  `ogg_stream_init`, `ogg_stream_packetin`, `ogg_stream_flush` and
  `ogg_stream_check`, and the errors they report. A page is given as its
  bytes, whether `ogg_stream_pagein` accepts it, and the packets
  `ogg_stream_packetout` then returns.
- `Written.Flushed` records that all packets handed over since the previous
  flush are flushed as one page. The source calls `ogg_stream_flush` once per
  input page and does not check what it emitted. A page holds at most 255
  segments (RFC 3533), so a rewritten comment header of more than about
  64 KB would be only partly written. The model does not capture this. The
  pass-through lemmas state what is handed to the writer, not the bytes
  libogg emits.
- A flush of zero packets is recorded as `Flushed([])`. What
  `ogg_stream_flush` and `write_page` make of it is not modelled.
- File and process I/O is not modelled: `fopen`, `fclose`, `access`,
  `remove`, `rename`, `perror`, the standard streams and `write_page`.
  `Opustags.Run` starts where the files are open. The checks on the output
  path before that point are not modelled.
- `realpath` is the `canonicalize` parameter of `Opustags.SameFile`.
- Functions these files call but do not define are parameters:
  - `read_comments` is the `input` list;
  - `validate_identification_header` is the `idHeaderOk` predicate;
  - `print_comments` is not modelled; a run records the list it would print.
- `error_message`, `process_options` and `validate_comment` are not part of
  this model.
- Error messages are collapsed into `Failure` constructors. The `strerror`
  case and "error reading the next ogg page" are both `ReadFailed`.
- Opus.ParseTags: the `int_overflow` branch for a negative `packet.bytes`
  is not modelled. A packet is a sequence, whose length is never negative.
- `size_t` overflow in the cursor checks is not modelled; lengths are
  unbounded naturals.
- The UTF-8 and field-name validations listed as `\todo` in `src/opus.cc`
  are not implemented there, and not modelled.
- Opustags.FeedPackets: its own contract only bounds the counter.
  `OpustagsProperties.FeedWithWriter` and `FeedFewPackets` state what it
  forwards and when it fails.
