# HTTP/1.1 text codec of the coyote server, in Dafny

This project models the message-framing text codec of a small HTTP/1.1 server. The codec has three parts:

- **HttpRequestLine** (`http_request_line.dfy`):
  - `decode(String)` cuts `METHOD SP request-target SP HTTP-version` at single spaces.
  - The path is the target's text before its first `?`, with `/` read as `/home`.
  - The parameters come from the text between the first and second `?`.
  - The version is kept exactly as written.
  - Also modelled: the four-argument `decode`, `getParameters` and `equals`.
- **HttpHeaderConverter** (`http_header_converter.dfy`), the tolerant codec:
  - `decode` strips the block, cuts it at CRLF, drops blank and all-NUL lines, and reads each remaining line.
  - `encode` puts the content type in place of `Content-Type` when one is set. It writes `name: v1,v2` per entry, joins entries with `" \r\n"` and ends the block with `" \r\n\r\n"`.
- **HttpHeaderDecoder** (`http_header_decoder.dfy`), the strict decoder: the same per-line reading on the raw CRLF lines.

Shared pieces:

- `header_lines.dfy` holds the per-line algorithm both header decoders share:
  - cut a line at `": "`;
  - cut the value at `,` and strip each token;
  - append the tokens to the name's list.
- `java_strings.dfy` models the `java.lang.String` operations the code depends on:
  - `strip` and `isBlank`, with `Character.isWhitespace`;
  - `split` with limit 0 and a literal delimiter, so trailing empty pieces are dropped, and text with no match is one piece;
  - `String.join`.
- `wrappers.dfy` holds `Option`, `Result` and the error type.

How failures are modelled: the source's validators only log. A missing token therefore shows up as an array index past the end. The model returns `Failure(IndexOutOfBounds(index, length))` at exactly that point, in the source's order of evaluation. Failures of the collaborators `HttpMethod.from` and `HttpParameterDecoder.decode` propagate unchanged.

Two behaviours of the code that a reader might not expect:

- **Which text reaches the parameter decoder.** The target is split at every `?`, so the parameter decoder sees only the text between the first and the second `?`. A target such as `/x?` or `/x??` has no parameters.
- **What a missing token produces.** No dedicated malformed-input error exists. A missing token is the array-index failure the code raises, `IndexOutOfBounds` in the model.

## Model

| member | source | states |
|---|---|---|
| JavaStrings.Strip | tomcat/src/main/java/org/apache/coyote/http/HttpHeaderConverter.java:24 | strip leaves text with no whitespace at either end, and leaves nothing exactly when the input is blank |
| JavaStrings.StripUnique | tomcat/src/main/java/org/apache/coyote/http/HttpHeaderConverter.java:24 | whatever blank text surrounds a trimmed string, strip returns exactly that string |
| JavaStrings.StripIgnoresPadding | tomcat/src/main/java/org/apache/coyote/http/HttpHeaderConverter.java:24 | blank padding on either side does not change what strip returns |
| JavaStrings.StripDecomposes | tomcat/src/main/java/org/apache/coyote/http/HttpHeaderConverter.java:24 | every string is its stripped form with blank text before and after it |
| JavaStrings.RawSplit | tomcat/src/main/java/org/apache/coyote/http/HttpHeaderConverter.java:25 | the pieces cut at every occurrence of the delimiter join back to the input, and none holds a one-character delimiter |
| JavaStrings.Split | tomcat/src/main/java/org/apache/coyote/http/HttpHeaderConverter.java:25 | split is the whole text when there is no match, and otherwise the cut pieces with the trailing empty ones removed |
| JavaStrings.SplitJoin | tomcat/src/main/java/org/apache/coyote/http/HttpHeaderConverter.java:25 | split inverts join when no piece holds the delimiter's first character and the last piece is not empty |
| JavaStrings.SplitJoinTrailingEmpty | tomcat/src/main/java/org/apache/coyote/http/HttpHeaderDecoder.java:20 | empty pieces after a non-empty last piece are dropped by split |
| JavaStrings.SplitJoinTrailingRun | tomcat/src/main/java/org/apache/coyote/http/request/HttpRequestLine.java:34 | a run of a one-character delimiter after the last non-empty token adds no token, so `"GET /x "` has two tokens |
| JavaStrings.SplitJoinThen | tomcat/src/main/java/org/apache/coyote/http/request/HttpRequestLine.java:34 | the first pieces of a split are the joined pieces, whatever follows them after a delimiter |
| JavaStrings.SplitLeadingPieces | tomcat/src/main/java/org/apache/coyote/http/HttpHeaderConverter.java:32-35 | for `": "` or a one-character delimiter, the first two pieces are the text before the first occurrence and the text up to the next one; single colons inside either are ordinary text |
| JavaStrings.RawSplitAfterFirst | tomcat/src/main/java/org/apache/coyote/http/HttpHeaderConverter.java:32 | split cuts at the leftmost occurrence: text with no occurrence before the delimiter is the first piece, and the rest is split on its own |
| JavaStrings.RawSplitPiecesAvoid | tomcat/src/main/java/org/apache/coyote/http/HttpHeaderConverter.java:32 | no piece of a split holds the delimiter |
| JavaStrings.JoinEnds | tomcat/src/main/java/org/apache/coyote/http/HttpHeaderConverter.java:68-69 | the joined text starts with the first piece and ends with the last |
| JavaStrings.RawSplitHalfDelimiterAtEnd | tomcat/src/main/java/org/apache/coyote/http/HttpHeaderConverter.java:32 | a two-character delimiter cut short at the end of the text is no occurrence, so `Key:` is one piece |
| JavaStrings.SplitSingleCharFirst | tomcat/src/main/java/org/apache/coyote/http/request/HttpRequestLine.java:52 | splitting at `?` gives no piece exactly for a non-empty run of `?`, and otherwise the first piece is the text before the first `?` |
| JavaStrings.SplitSingleCharSecond | tomcat/src/main/java/org/apache/coyote/http/request/HttpRequestLine.java:60-65 | after the first `?` there is a second piece exactly when the rest is not only `?`, and it is the rest's text before its next `?` |
| JavaStrings.RawSplitAllEmpty | tomcat/src/main/java/org/apache/coyote/http/request/HttpRequestLine.java:52 | every piece cut at `c` is empty exactly when the text is made of `c` only |
| JavaStrings.JoinAt | tomcat/src/main/java/org/apache/coyote/http/HttpHeaderConverter.java:69 | every joined piece occurs in the join, followed by the separator |
| HeaderLines.Append | tomcat/src/main/java/org/apache/coyote/http/HttpHeaderConverter.java:37-38 | the new values follow the name's old ones, the name is added if absent, and no other name changes |
| HeaderLines.DecodeMultipleValues | tomcat/src/main/java/org/apache/coyote/http/HttpHeaderConverter.java:50-54 | every value token is trimmed and holds no comma |
| HeaderLines.DecodeJoinedValues | tomcat/src/main/java/org/apache/coyote/http/HttpHeaderDecoder.java:42-46 | the values of comma-joined tokens are the tokens, stripped, in their order |
| HeaderLines.ParseLine | tomcat/src/main/java/org/apache/coyote/http/HttpHeaderConverter.java:32-35 | a line reads exactly when it cuts into at least two tokens; otherwise reading the missing token is out of bounds; the name is the line's text before its first `": "` and holds none, and the values are those of the text between the first and the second `": "` |
| HeaderLines.ParseLineTokens | tomcat/src/main/java/org/apache/coyote/http/HttpHeaderDecoder.java:24-27 | for a name and a non-empty value without `": "` (single colons allowed, as in `Host: localhost:8080`), the line reads as that name and value; whatever follows a second `": "` is dropped |
| HeaderLines.ParseLineWithoutColon | tomcat/src/main/java/org/apache/coyote/http/HttpHeaderConverter.java:44-48 | a line with no colon fails at index 1 of a one-token array, since validateFormat only logs |
| HeaderLines.ParseLineDanglingColon | tomcat/src/main/java/org/apache/coyote/http/HttpHeaderConverter.java:32-35 | `Key:` fails at index 1 of a one-token array |
| HeaderLines.DecodeLines | tomcat/src/main/java/org/apache/coyote/http/HttpHeaderDecoder.java:22-31 | the line loop fails only with an index failure at a token count below two, and on success keeps every name it started with |
| HeaderLines.DecodeLinesSucceedsIff | tomcat/src/main/java/org/apache/coyote/http/HttpHeaderDecoder.java:23-31 | the line loop succeeds exactly when every line reads, and otherwise fails with an index failure |
| HeaderLines.DecodeLinesAccumulates | tomcat/src/main/java/org/apache/coyote/http/HttpHeaderDecoder.java:22-31 | when every line reads, the loop appends the lines' entries one after another |
| HeaderLines.AccumulateKeys | tomcat/src/main/java/org/apache/coyote/http/HttpHeaderConverter.java:37 | after the loop, the names are those present before plus the names of the lines |
| HeaderLines.AccumulateLookup | tomcat/src/main/java/org/apache/coyote/http/HttpHeaderConverter.java:37-38 | each name holds its old values followed by every value its lines give, in line order |
| HeaderLines.AccumulateCollects | tomcat/src/main/java/org/apache/coyote/http/HttpHeaderDecoder.java:29-30 | names and values after the loop, together: repeated names accumulate in order |
| HeaderLines.DecodeLinesCollects | tomcat/src/main/java/org/apache/coyote/http/HttpHeaderDecoder.java:22-33 | from an empty map, the loop fails exactly when a line does not read; otherwise the names are the lines' names, each holding its lines' values in order |
| HeaderLines.NamesListed | tomcat/src/main/java/org/apache/coyote/http/HttpHeaderConverter.java:37 | the names collected are exactly the names of the lines |
| HeaderLines.ValuesOfDistinct | tomcat/src/main/java/org/apache/coyote/http/HttpHeaderConverter.java:37-38 | a name on one line only holds that line's values |
| HeaderLines.ParseRenderedLine | tomcat/src/main/java/org/apache/coyote/http/HttpHeaderConverter.java:32-38 | a rendered `name: v1,v2` line with blank padding reads back as the name and the values |
| HeaderLines.DecodeRenderedValues | tomcat/src/main/java/org/apache/coyote/http/HttpHeaderConverter.java:50-54 | comma-joined plain values with blank padding decode back to the values |
| HttpHeaderConverter.KeptLines | tomcat/src/main/java/org/apache/coyote/http/HttpHeaderConverter.java:25-27 | no kept line is blank or a NUL run, and no line is added |
| HttpHeaderConverter.KeptLinesFilters | tomcat/src/main/java/org/apache/coyote/http/HttpHeaderConverter.java:25-27 | a line survives the filter exactly when it is a line of the block that is neither blank nor a NUL run |
| HttpHeaderConverter.KeptLinesKeepsAll | tomcat/src/main/java/org/apache/coyote/http/HttpHeaderConverter.java:26 | the filter keeps every line when none is ignorable |
| HttpHeaderConverter.KeptLinesAppend | tomcat/src/main/java/org/apache/coyote/http/HttpHeaderConverter.java:25-27 | filtering distributes over concatenation, so the kept lines keep their order |
| HttpHeaderConverter.Decode | tomcat/src/main/java/org/apache/coyote/http/HttpHeaderConverter.java:23-42 | empty or whitespace-only text decodes to the empty map |
| HttpHeaderConverter.DecodeIgnoresPadding | tomcat/src/main/java/org/apache/coyote/http/HttpHeaderConverter.java:24 | whitespace before and after the block does not change the result |
| HttpHeaderConverter.DecodeJoinedLines | tomcat/src/main/java/org/apache/coyote/http/HttpHeaderConverter.java:24-27 | a block joined from lines decodes as its non-ignorable lines, so blank lines at its ends make no difference |
| HttpHeaderConverter.DecodeIgnoresInsertedLine | tomcat/src/main/java/org/apache/coyote/http/HttpHeaderConverter.java:24-27 | a blank or NUL line inserted anywhere into a block does not change what it decodes to |
| HttpHeaderConverter.DecodeCollects | tomcat/src/main/java/org/apache/coyote/http/HttpHeaderConverter.java:23-42 | a block joined from lines fails exactly when a kept line does not read, and otherwise every name holds its kept lines' values in order |
| HttpHeaderConverter.DecodeTextCollects | tomcat/src/main/java/org/apache/coyote/http/HttpHeaderConverter.java:23-42 | any text fails exactly when a line left after strip, the CRLF cut and the filter does not read, and otherwise every name holds those lines' values in order |
| HttpHeaderConverter.DecodeDanglingKeyFails | tomcat/src/main/java/org/apache/coyote/http/HttpHeaderConverter.java:24-35 | `Key: ` alone fails: the strip takes the space after the colon, which leaves one token |
| HttpHeaderConverter.EffectiveHeaders | tomcat/src/main/java/org/apache/coyote/http/HttpHeaderConverter.java:57-62 | a set content type replaces the Content-Type entry with that single value; every other entry is unchanged; with no content type the map is unchanged |
| HttpHeaderConverter.Encode | tomcat/src/main/java/org/apache/coyote/http/HttpHeaderConverter.java:56-70 | the block always ends with `" \r\n\r\n"`, and the empty map encodes to exactly that |
| HttpHeaderConverter.EncodeContainsEveryEntry | tomcat/src/main/java/org/apache/coyote/http/HttpHeaderConverter.java:64-69 | every entry of the written map appears in the block as its rendered line followed by `" \r\n"`, whatever the iteration order |
| HttpHeaderConverter.AccumulateEnumeration | tomcat/src/main/java/org/apache/coyote/http/HttpHeaderConverter.java:37-38 | collecting a map's entries, each name once, in any order, gives the map back |
| HttpHeaderConverter.RoundTrip | tomcat/src/main/java/org/apache/coyote/http/HttpHeaderConverter.java:23-70 | decode(encode(h)) is the map encode writes, in every iteration order, for plain names and values |
| HttpHeaderConverter.RoundTripHeaderOnly | tomcat/src/main/java/org/apache/coyote/http/HttpHeaderConverter.java:23-70 | with no content type, decode(encode(h)) is h's own map |
| HttpHeaderDecoder.Decode | tomcat/src/main/java/org/apache/coyote/http/HttpHeaderDecoder.java:19-34 | for any text, a lone CR inside a line included, the raw CRLF lines are read as they are: it fails, always with an index failure, exactly when a line does not read, and otherwise every name holds its lines' values in order; the empty text is one empty line and fails at index 1 |
| HttpHeaderDecoder.DecodeCollects | tomcat/src/main/java/org/apache/coyote/http/HttpHeaderDecoder.java:19-34 | for a block joined from CR-free lines, the raw CRLF lines are read with nothing stripped or skipped: the block fails exactly when a line does not read, and otherwise every name holds its lines' values in order |
| HttpHeaderDecoder.LineWithoutColonFails | tomcat/src/main/java/org/apache/coyote/http/HttpHeaderDecoder.java:20-27 | in a block joined from CR-free lines, any line without a colon, a blank one included, makes the decoder fail |
| HttpHeaderDecoder.TextLineWithoutColonFails | tomcat/src/main/java/org/apache/coyote/http/HttpHeaderDecoder.java:20-27 | any text one of whose CRLF lines has no colon, a blank line included, fails with an index failure |
| HttpHeaderDecoder.AgreesWithConverter | tomcat/src/main/java/org/apache/coyote/http/HttpHeaderDecoder.java:19-34 | on text trimmed at both ends with no blank or NUL line, the strict and tolerant decoders give the same result, failures included |
| HttpHeaderDecoder.ReadsEncodedBlock | tomcat/src/main/java/org/apache/coyote/http/HttpHeaderDecoder.java:19-34 | the strict decoder reads back what encode writes for a non-empty map of plain names and values |
| HttpHeaderDecoder.RejectsEncodedEmptyMap | tomcat/src/main/java/org/apache/coyote/http/HttpHeaderDecoder.java:20-27 | the block encode writes for the empty map is one blank line to the strict decoder, and it fails |
| HttpRequestLine.FromComponents | tomcat/src/main/java/org/apache/coyote/http/request/HttpRequestLine.java:28-30 | the four components are stored as given, with no validation |
| HttpRequestLine.GetParameters | tomcat/src/main/java/org/apache/coyote/http/request/HttpRequestLine.java:77-79 | the copy has the same keys and values as the stored parameters |
| HttpRequestLine.ComponentsRoundTrip | tomcat/src/main/java/org/apache/coyote/http/request/HttpRequestLine.java:28-30 | building from a line's own components gives the line back, and getParameters returns the stored map |
| HttpRequestLine.Equals | tomcat/src/main/java/org/apache/coyote/http/request/HttpRequestLine.java:82-93 | two request lines are equal exactly when method, path, parameters and version all are |
| HttpRequestLine.DecodePath | tomcat/src/main/java/org/apache/coyote/http/request/HttpRequestLine.java:51-57 | the path is the target's text before its first `?`, with `/` read as `/home`; a target of `?` only has no first piece and fails at index 0 |
| HttpRequestLine.PathBeforeQuery | tomcat/src/main/java/org/apache/coyote/http/request/HttpRequestLine.java:51-56 | a path is kept as it is unless it is `/`, whatever query follows it |
| HttpRequestLine.DecodeParameters | tomcat/src/main/java/org/apache/coyote/http/request/HttpRequestLine.java:59-67 | a target with no `?` has no parameters |
| HttpRequestLine.ParametersBetweenMarks | tomcat/src/main/java/org/apache/coyote/http/request/HttpRequestLine.java:59-67 | with no `?`, or only `?` after the first one, there are no parameters; otherwise the query decoder reads the text between the first and second `?` |
| HttpRequestLine.Decode | tomcat/src/main/java/org/apache/coyote/http/request/HttpRequestLine.java:32-42 | fewer than three tokens fail, and no token at all fails at index 0; on success the version is token 2 and the method is token 0's reading |
| HttpRequestLine.DecodeTokens | tomcat/src/main/java/org/apache/coyote/http/request/HttpRequestLine.java:34-41 | a line of three tokens or more fails with the method's, path's or parameters' failure, in that order, or else decodes to method, path, parameters and the version as written, an empty one included; tokens after the third are ignored |
| HttpRequestLine.DecodeTwoTokens | tomcat/src/main/java/org/apache/coyote/http/request/HttpRequestLine.java:34-41 | a two-token line, trailing spaces included (`"GET /x "`), fails with the method's, path's or parameters' failure, in that order, or else when token 2 is read |
| HttpRequestLine.DecodeOneToken | tomcat/src/main/java/org/apache/coyote/http/request/HttpRequestLine.java:34-38 | a one-token line, trailing spaces included (`"GET "`), fails with the method's failure, or else when token 1 is read |
| HttpRequestLine.DecodeSpacesOnly | tomcat/src/main/java/org/apache/coyote/http/request/HttpRequestLine.java:34-37 | a line of spaces only has no token and fails when token 0 is read |
| HttpRequestLine.RootRequest | tomcat/src/main/java/org/apache/coyote/http/request/HttpRequestLine.java:32-56 | `GET / HTTP/1.1` is the `/home` path with no parameters and version `HTTP/1.1` |
| HttpRequestLine.LoggedRequestLines | tomcat/src/main/java/org/apache/coyote/http/request/HttpRequestLine.java:44-49 | a three-token line, trailing spaces included, is logged exactly when its version does not start with HTTP, and a line of more tokens, an empty third one included (`"GET /  HTTP/1.1"`), always is |
| HttpRequestLine.LenientRequest | tomcat/src/main/java/org/apache/coyote/http/request/HttpRequestLine.java:44-49 | a version not starting with HTTP is logged but still decoded, and a fourth token is ignored |

## Left out

- Logging: `log.info` and `log.error` are side effects that never change control flow. `validateRequestLine` is the predicate `HttpRequestLine.LogsMalformedLine`, and `validateFormat` leaves no trace beyond the index failure it fails to prevent.
- `HttpMethod.from` and `HttpParameterDecoder.decode` are not part of this model. They are the function parameters `methodFrom` and `decodeQuery`, each of which may fail, and their failures propagate.
- `HttpHeader.from` and `HttpHeader.getHeader` are not part of this model. A header is its name-to-values map plus an optional content type. The model does not track whether `getHeader` aliases the stored map or whether encode's `put` mutates it.
- HashMap iteration order in encode is the parameter `order`, which lists every key once. The round-trip and containment lemmas hold for every such order.
- `toString` and `hashCode` are left out because they are not part of the codec.
- `equals`: the identity, null and class checks are left out, because a Dafny value has no identity and no other class.
- UTF-16: strings are sequences of Unicode scalar values, so lone surrogates are not modelled. `Character.isWhitespace` is given its full list of characters.
- HttpHeaderConverter.DecodeJoinedLines: states the blank-line tolerance only for blocks of lines that hold no CR, where the first line with text does not start with whitespace and the last does not end with it (`LinesOfBlock`). Some such condition is needed: `" a: b"` decodes to `a`, but `"\0\r\n a: b"` keeps the space in the name ` a`. `DecodeTextCollects` states what any text decodes to.
- HttpHeaderConverter.DecodeIgnoresInsertedLine: holds for the same blocks, for the same reason.
- HttpHeaderConverter.DecodeCollects: stated for the same blocks; `DecodeTextCollects` is the same statement for any text.
- HttpHeaderConverter.RoundTrip: proved for names that are not empty, do not start with whitespace and hold no `:` or CR, and for non-empty lists of trimmed, non-empty values with no `:`, `,` or CR. These conditions are weaker than keys free of all whitespace and NUL, so the round trip holds for more maps.
- HttpHeaderDecoder.DecodeCollects: stated for blocks joined from lines that hold no CR, so that splitting gives the lines back. The contract of `HttpHeaderDecoder.Decode` states the same for any text, a lone CR inside a line included.
- HttpHeaderDecoder.LineWithoutColonFails: stated for the same blocks, for the same reason. `HttpHeaderDecoder.TextLineWithoutColonFails` is the same statement for any text.
- HttpHeaderDecoder.ReadsEncodedBlock: needs a non-empty map, because the strict decoder rejects the encoding of the empty map (`RejectsEncodedEmptyMap`).
- HttpRequestLine.Decode: its own contract gives only the token count and the version and method. The full outcome for every line is stated by the token lemmas:
  - `DecodeSpacesOnly` covers no token;
  - `DecodeOneToken` and `DecodeTwoTokens` cover one and two tokens, trailing spaces included;
  - `DecodeTokens` covers three or more tokens, including an empty third token followed by more text, as in `GET /  HTTP/1.1`.
