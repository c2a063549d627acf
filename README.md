# vectorstream core in Dafny

The model covers the vectorstream library of numeric vectors, its C++
loader, and two small front-end kernels. It has four parts.

- **Text format.** A stream starts with `%` comment lines: a header, `%-key=value` options, `%*key=value` hints and `%?text` messages. Then comes a count line, `n % Number of elements`, followed by the `n` elements. Elements are written one per line, or in rows of `s` right-justified cells. A missing vector is written as the token `nil`. A stream whose first byte is `V` holds a binary vector that opens with the magic `VCTR****`.
- **`src/vec.c`.** The tokenizer (`skip_whitespace`, `skip_comment`, `get_token`), the encoder and decoder of the text format and the check of the binary magic. Also the metadata writers and the message filter. Also the slice, add and block-multiply kernels.
- **`src/vec++.hh`.** `register_parameter`, `process_special_line`, `cut_lf`, `parse_multiple_parameters`, and the first scan of `vector_loader`, which collects options, hints and messages from the `%` lines.
- **Front ends.** The interleave of `src/splice.cc`. The size-list parser, the first-length inference and the generalized-slice copy of `src/gslice.cc`.

How the model represents the source:

- A `FILE *` is a `Streams.Reader`: the input text and a read position. An output stream is a `Streams.Writer` with the text written so far.
- Each C routine that reads or writes a stream is a method on those objects, proved against a function of the unread input or of the old output.
- The installed error handler is replaced by the list of `(error_type, message)` reports that an operation returns, together with its status.
- The kernels are methods that fill a caller-supplied `array<real>`. A null pointer is a null array.
- `vector_loader` is the class `Loader.VectorLoader`: its option and hint maps and the message list are fields.
- `std::gslice` is given by clause [class.gslice] of ISO/IEC 14882. Its index set is the recursive function `GSlice.Indices`.
- `%d` and `atoi` are modelled concretely and proved to round-trip (`CText.AtoiOfIntToString`).
- `%.16g` and `atof` appear as function parameters `fmt` and `parse`. A round trip needs the hypothesis `RoundTrip.Survives` on each element: the rendering is one token and `parse(fmt(x)) == x`.
- The float and double variants share one generic member. A `Precision` value picks the function name used in reports.
- `size_t` is `CText.SizeT`, below 2^64. Where the source converts between widths, the model writes out the wrap-around (`PrintfD`, `ToSizeT`).

## Model

| member | source | states |
|---|---|---|
| Streams.Fgets | src/vec.c:166 | fgets stores at most size-1 characters, stopping after the first newline; the reader advances by exactly the stored chunk |
| Streams.FgetsChunkSpec | src/vec++.hh:231 | the chunk is a prefix of the input with a newline only as its last character; it stops short of the limit only at a newline or at the end of input |
| Streams.FgetsWholeLine | src/vec++.hh:231 | a line shorter than the buffer is read whole, through its newline |
| Streams.Writer.Put | src/vec.c:117 | fputs, fprintf, fputc and fwrite append their text to the stream and change nothing already written |
| Streams.Fread | src/vec.c:415 | fread returns the next k characters, or all that remain, and advances past them |
| CText.SkipSpacesSuffix | src/vec.c:48-59 | skipping whitespace drops a prefix made only of whitespace and keeps the rest unchanged |
| CText.SkipSpacesPrefix | src/vec.c:48-59 | a leading run of whitespace makes no difference to where the skipping stops |
| CText.IntToString | src/vec.c:131 | the %d rendering is non-empty and holds no whitespace, '=', ':', newline or NUL, and cannot start a comment, a binary stream or the nil token |
| CText.AtoiOfIntToString | src/vec.c:367 | atoi reads back every integer that %d printed |
| CText.PrintfD | src/vec.c:315 | %d applied to a size_t prints a 32-bit signed value congruent to the count modulo 2^32, and the count itself when it is at most INT_MAX |
| CText.ToSizeT | src/vec.c:367 | storing atoi's int into a size_t reduces it modulo 2^64 and keeps every value already in range |
| CText.Pad | src/vec.c:322 | a field printed with width 18 ends with the rendering and is preceded only by blanks, up to the width |
| CText.CStr | src/vec++.hh:212-213 | the C-string view of a buffer is its prefix up to, not including, the first NUL |
| CText.IndexOf | src/vec++.hh:152-154 | the scan stops at the first occurrence of the character, or at the end when there is none |
| CText.IndexOfFirst | src/vec++.hh:152-154 | any position that holds the character with no earlier occurrence is the one the scan finds |
| CText.Split | src/vec++.hh:150-159 | a string with k separators splits into exactly k+1 pieces |
| CText.JoinSplit | src/vec++.hh:150-159 | no piece holds the separator, and joining the pieces with it gives back the string |
| CText.SplitJoin | src/gslice.cc:84-90 | splitting pieces that hold no separator, once joined, gives back the same pieces |
| CText.MapSeqAppend | src/vec++.hh:160-163 | converting the pieces of a concatenation converts each part in turn: a piece's value depends only on that piece, in its place |
| Tokenizer.SkipWhitespace | src/vec.c:48-59 | the reader ends up past exactly the leading whitespace |
| Tokenizer.SkipToEndOfLine | src/vec.c:68-71 | the reader ends up just past the next newline, or at the end of input |
| Tokenizer.SkipComment | src/vec.c:61-79 | the reader ends up where AfterComments says: at the first character that is neither whitespace nor inside a '%' line |
| Tokenizer.AfterComments | src/vec.c:61-79 | what is left after the comments is empty or starts with a character that is neither whitespace nor '%' |
| Tokenizer.AfterCommentsBlock | src/vec.c:61-79 | any block of '%' lines is consumed entirely, each through its newline |
| Tokenizer.AfterCommentsSpaces | src/vec.c:64 | leading whitespace does not change where the comment skipping ends |
| Tokenizer.AfterCommentsStops | src/vec.c:75-77 | a character that is neither whitespace nor '%' is not consumed |
| Tokenizer.SkipLineOver | src/vec.c:68-71 | a line without a newline inside is consumed through its newline |
| Tokenizer.TokenLength | src/vec.c:92 | the token length counts only non-whitespace characters and stops at whitespace or at the end |
| Tokenizer.NextTokenSpec | src/vec.c:81-107 | the token is the maximal whitespace-free run after the leading whitespace; the single whitespace character ending it is consumed |
| Tokenizer.NextTokenOf | src/vec.c:92-105 | a token followed by one whitespace character is read back whole, and reading resumes just after that character |
| Tokenizer.NextTokenAtEnd | src/vec.c:92 | a token that runs into the end of input is read back whole, with nothing after it |
| Tokenizer.TokenLengthOf | src/vec.c:92 | a token followed by whitespace or the end has exactly its own length |
| Tokenizer.CollectToken | src/vec.c:85-105 | the collected token is exactly the maximal non-whitespace prefix of the input, so the 128-character buffer's doubling loses no character already stored |
| Tokenizer.GetToken | src/vec.c:81-107 | the returned token and the reader's new position are those of NextToken on the unread input |
| Metadata.PutHeader | src/vec.c:115-127 | writes the three header lines; a null stream gives status 1 and its error report and writes nothing |
| Metadata.PutHint | src/vec.c:129-138 | writes one line "%*hint=parameter"; a null stream gives status 1 and its error report |
| Metadata.Flatten | src/vec.c:147-152 | the flattened message has the same length, no newline, and agrees with the message everywhere except that each newline becomes a blank |
| Metadata.FlattenCopy | src/vec.c:145-152 | the in-place rewrite of the duplicated message computes Flatten |
| Metadata.PutMessage | src/vec.c:140-160 | writes exactly one "%?" line holding the flattened message; a null stream or a null message gives status 1 and its report |
| Metadata.MessageLineShape | src/vec.c:153 | a message line starts with "%?", has its only newline at the end, and carries the flattened message between them |
| Metadata.PutNil | src/vec.c:179-188 | writes the nil text "nil\n\n"; a null stream gives status 1 and its report |
| Metadata.MessageLines | src/vec.c:167 | the lines kept are input lines that start with "%?" |
| Metadata.ForwardedLines | src/vec.c:164-170 | for input made of lines that fit the buffer, the scan forwards exactly the lines starting with "%?", unchanged and in order |
| Metadata.ForwardedLine | src/vec.c:166-169 | one line that fits the buffer is forwarded whole when it starts with "%?", and dropped otherwise |
| Metadata.MessageIsForwarded | src/vec.c:153 | a message line the writer produced is forwarded unchanged by the scan |
| Metadata.CopyMessages | src/vec.c:164-170 | reads the input to its end and appends to the output what Forwarded prescribes |
| Metadata.ScanMessages | src/vec.c:162-177 | forwards the message lines of the whole input; a null input or output stream gives status 1 and its report |
| TextCodec.ReadValues | src/vec.c:370-373 | the reading loop yields exactly k values |
| TextCodec.PutRow | src/vec.c:320-324 | one row holds the cells of the next s elements that exist, never an index at or past n |
| TextCodec.PutRows | src/vec.c:317-326 | the rows cover all n elements in groups of s, each row ending in a newline |
| TextCodec.PutLines | src/vec.c:328-334 | writes one "%.16g" line per element, in order |
| TextCodec.BodyLineCount | src/vec.c:316-334 | for s <= 1 exactly n lines are written; for s > 1 exactly ceil(n/s) rows; the body ends in a newline |
| TextCodec.RowCountIsCeiling | src/vec.c:319 | the row loop runs ceil(n/s) times |
| TextCodec.RowsFromCount | src/vec.c:319-326 | the rows from element i on hold one newline per group of s remaining elements |
| TextCodec.LinesFromCount | src/vec.c:331-333 | the element lines from i on hold one newline per remaining element |
| TextCodec.CellsFromCount | src/vec.c:320-324 | the cells inside a row hold no newline |
| TextCodec.RowsEndLine | src/vec.c:325 | the rows end in a newline |
| TextCodec.LinesEndLine | src/vec.c:332 | the element lines end in a newline |
| TextCodec.EncodersAgree | src/vec.c:315-341 | for a count up to INT_MAX, the as-written encoder and the corrected one agree whenever the elements are present or the count is 0 |
| TextCodec.PutVector | src/vec.c:313-348 | writes the count line first, then the rows or lines of the elements, or "0" for a count of 0, or the nil text for null elements; a null stream gives status 1 |
| TextCodec.PutVectorBinary | src/vec.c:398-409 | writes the magic, the count word and the payload; a null stream, null elements or a count of 0 give status 1 and the report, and nothing is written |
| TextCodec.ReadInto | src/vec.c:368-373 | fills a fresh array of n elements with the values ReadValues reads, each token after skip_comment, in order |
| TextCodec.NewVectorText | src/vec.c:362-383 | the text path decodes what DecodeTokens prescribes: nil, a count of 0 with no elements, or exactly n elements |
| TextCodec.NewVectorBinary | src/vec.c:411-434 | reads eight bytes; the first four equal to "VCTR" give status 0, anything else is a bad-magic error with count 0 and no elements; a null stream gives its report and leaves the caller's count and elements as they were |
| TextCodec.NewVector | src/vec.c:350-390 | decodes what DecodeText prescribes and leaves the reader where it stops; a null stream gives status 1 and its report and leaves the caller's count and elements as they were |
| RoundTrip.DecodeEncode | src/vec.c:313-390 | for n > 0 and any row stride, decoding the corrected encoder's output (count printed in full), after any comment lines, gives back the count and the elements in order |
| RoundTrip.DecodeEncodeAsWritten | src/vec.c:313-390 | the encoder as written, with its %d count line, round-trips the same way for 0 < n <= INT_MAX |
| RoundTrip.DecodeEncodeEmpty | src/vec.c:336-337 | an empty vector decodes as count 0 with no elements, and no element token is read |
| RoundTrip.DecodeEncodeNil | src/vec.c:379-381 | missing elements, encoded as the nil text, decode as the nil sentinel: count (size_t)-1 and no elements |
| RoundTrip.DecodeNil | src/vec.c:366-381 | the token nil after any comments yields the count (size_t)-1 and no elements, and reads nothing more |
| RoundTrip.DecodeNilToken | src/vec.c:366 | whenever the first token is nil, the decoder returns the sentinel with status 0 and no reports |
| RoundTrip.DecodeCount | src/vec.c:366-377 | a count token c gives exactly c values read after it, and a count of 0 gives no elements and stops after the token |
| RoundTrip.DecodeLeadingV | src/vec.c:356-361 | a first byte 'V' goes to the binary decoder after a warning report, and succeeds exactly when the first four bytes are the magic |
| RoundTrip.DecodeBinaryOutput | src/vec.c:400 | output that opens with the magic decodes as binary, status 0, with only the warning report |
| RoundTrip.ReadCountLine | src/vec.c:315 | after comment lines, the first token of the count line is the printed count, and the comment "% Number of elements" is what follows it |
| RoundTrip.SkipCountComment | src/vec.c:364 | the "% Number of elements" comment is skipped before the first element is read |
| RoundTrip.CountToken | src/vec.c:366-367 | a printed count is never the nil token and atoi reads it back |
| RoundTrip.ReadValuesSplit | src/vec.c:370-373 | reading k1 + k2 values is reading k1, then k2 more from where they stopped |
| RoundTrip.ReadValuesFront | src/vec.c:370-373 | reading 1 + k values is reading one, then k more |
| RoundTrip.ReadOne | src/vec.c:371-372 | a cell or line whose rendering survives is read back as its element, and reading resumes just after its delimiter |
| RoundTrip.TokenReaderReadsCells | src/vec.c:322 | every right-justified cell of the row layout reads back as its element |
| RoundTrip.TokenReaderReadsLines | src/vec.c:332 | every element line reads back as its element |
| RoundTrip.TokenReaderSkipsBreak | src/vec.c:325 | the newline ending a row is skipped before the next element |
| RoundTrip.ReadCells | src/vec.c:320-324 | the cells of a row read back as the row's elements, with what follows left unread |
| RoundTrip.ReadRows | src/vec.c:317-326 | all the rows read back as the elements in order |
| RoundTrip.ReadLines | src/vec.c:328-334 | all the element lines read back as the elements in order |
| RoundTrip.ReadBody | src/vec.c:316-334 | whatever the stride, the body reads back as all the elements |
| RoundTrip.NilAsWrittenIsNotNil | src/vec.c:339-340 | see Findings: for 0 < n <= INT_MAX, a count with null elements, as written, decodes as n elements with elements present, never as the nil sentinel |
| RoundTrip.NilSentinelAsWritten | src/vec.c:339-340 | see Findings: the decoder's own nil (count SIZE_MAX, no elements), as written, prints the count -1, and decodes with count SIZE_MAX and elements present, not as nil |
| RoundTrip.NilAsWrittenOne | src/vec.c:315 | see Findings: count 1 with null elements decodes as one element, which is atof of the nil token |
| RoundTrip.WideCountAsWritten | src/vec.c:315 | see Findings: 2^32 elements, as written, decode as the empty vector |
| Kernels.SlicedAt | src/vec.c:441-442 | the reference slice Sliced has `length` elements, and element i is v[offset + i*stride], which lies inside the source |
| Kernels.SliceOfSlice | src/vec.c:436-461 | a slice of a slice is one slice, with the offsets composed and the strides multiplied |
| Kernels.SliceContiguous | src/vec.c:436-461 | with stride 1 the slice is the contiguous run from the offset |
| Kernels.SliceExample | src/vec.c:440-443 | offset 1, length 3 and stride 2 over 0..9 pick 1, 3, 5 |
| Kernels.SliceReports | src/vec.c:446-459 | there is no report exactly when both pointers are set and length and stride are positive; every report is an error |
| Kernels.SliceCopy | src/vec.c:440-443 | a[i] == v[offset + i*stride] for every i < length; the rest of a is unchanged |
| Kernels.Slice | src/vec.c:436-461 | on success a holds the slice; a null pointer, length 0 or stride 0 gives status 1, one report per failing condition, and a unchanged |
| Kernels.PairwiseExample | src/vec.c:468-470 | [1,2,3] + [10,20] is [11,22] |
| Kernels.AddPairwise | src/vec.c:463-477 | a[i] == v1[i] + v2[i] for exactly i < min(n1, n2), the rest of a unchanged; s, n1 or n2 equal to 0, or a null pointer, give status 1, the report, and no writes |
| Kernels.RepeatAt | src/vec.c:487 | element k of the repeated block is b[k % |b|]: the fact that makes the broadcast sum, v1[k % s] + v2[k] for every k < n2, a pairwise sum over the repeated first block |
| Kernels.BroadcastIsPairwiseOfRepeat | src/vec.c:479-497 | broadcast add is pairwise add with the first block of v1 repeated n2/s + 1 times |
| Kernels.BroadcastRepeat | src/vec.c:479-497 | any number of repetitions covering v2 gives the same sum |
| Kernels.BroadcastOneBlock | src/vec.c:479-497 | with one block as long as v1, broadcast add is pairwise add |
| Kernels.BroadcastExample | src/vec.c:483-490 | block [1,1] added to [0,0,10,10,20,20] gives [1,1,11,11,21,21] |
| Kernels.AddBlock | src/vec.c:484-489 | block j writes a[k] = v1[k % s] + v2[k] for its indices below n2 and nothing else |
| Kernels.BroadcastBlocks | src/vec.c:483-490 | the n2/s + 1 blocks write a[k] = v1[k % s] + v2[k] for every k < n2 and never a[k] for k >= n2 |
| Kernels.AddBroadcast | src/vec.c:479-497 | on success a[..n2] is the broadcast sum and the rest of a is unchanged; s == 0, n1 < s, n2/s < n1/s or a null pointer give status 1, the report, and no writes |
| Kernels.MatIndex | src/vec.c:509-513 | the matrix index, i*s+j or j*s+i when transposed, stays inside one s-by-s block |
| Kernels.Blocks | src/vec.c:506-517 | the whole blocks of output hold s elements each |
| Kernels.MatrixFits | src/vec.c:499 | under the guard, every block's matrix lies inside the matrix data |
| Kernels.Product | src/vec.c:499-551 | the product covers all nv outputs, and the tail past (nv/s)*s is 0 |
| Kernels.ProductAt | src/vec.c:508-515 | output k*s+j of a whole block k is the sum over i < s of block k's matrix element (i, j), or (j, i) when transposed, times v[k*s+i]; block k's matrix starts at k*s*s, or at 0 when shared |
| Kernels.SharedIsPerBlockRepeated | src/vec.c:526-551 | the shared-matrix product is the per-block product with the single matrix repeated for every block |
| Kernels.SharedBlocks | src/vec.c:526-551 | the blocks computed from the shared matrix agree with those from its repetition |
| Kernels.SharedBlock | src/vec.c:536-541 | block k of the shared product uses the matrix at offset 0, as block k of the repetition uses its k-th copy |
| Kernels.RepeatedBlock | src/vec.c:536-541 | copy k of a repeated matrix holds the matrix |
| Kernels.SameMatrix | src/vec.c:507-515 | two matrix blocks with equal entries give the same output block |
| Kernels.DotAgree | src/vec.c:509-513 | sums whose matrix terms agree are equal |
| Kernels.IdentityDot | src/vec.c:536-541 | with the identity, the partial sum for output j is v[j] once i has passed j, and 0 before |
| Kernels.IdentityBlocks | src/vec.c:533-544 | the identity leaves every whole block of v unchanged |
| Kernels.IdentityProduct | src/vec.c:526-551 | multiplying by the shared identity gives v on its whole blocks and 0 on the tail |
| Kernels.TransposedIndex | src/vec.c:538-541 | swapping row and column stays inside the block |
| Kernels.TransposedAt | src/vec.c:538-541 | entry (i, j) of the reference matrix Transposed (s*s entries) is entry (j, i) of the matrix |
| Kernels.TransposedTerm | src/vec.c:538-541 | the transposed index into m picks the same entry as the plain index into the transposed matrix |
| Kernels.TransposedDot | src/vec.c:536-541 | each transposed sum equals the plain sum over the transposed matrix |
| Kernels.TransposedBlocks | src/vec.c:533-544 | the transposed product's blocks equal those of the plain product with the transposed matrix |
| Kernels.TransposeShared | src/vec.c:526-551 | setting transpose is the same as multiplying by the transposed matrix |
| Kernels.MultiplyExamples | src/vec.c:526-551 | worked 2-by-2 products: identity, upper-triangular, and its transpose |
| Kernels.ProductExample | src/vec.c:533-544 | with no tail, the product is its whole blocks |
| Kernels.ZeroPrefix | src/vec.c:503-505 | the first nv outputs are zeroed before accumulation and nothing else is touched |
| Kernels.DotStep | src/vec.c:509-513 | one `+=` extends the partial sum by the next matrix-vector term |
| Kernels.AccumulateOutput | src/vec.c:508-514 | a[k*s+j] becomes the sum over i of the matrix term times v[k*s+i]; no other element changes |
| Kernels.AccumulateBlock | src/vec.c:507-516 | one block of outputs becomes BlockOut, the s sums over i of the matrix term times v[k*s+i], with the rest of a unchanged |
| Kernels.AccumulateBlocks | src/vec.c:506-517 | the whole blocks of outputs become Blocks, with the rest unchanged |
| Kernels.AccumulateFirst | src/vec.c:506-517 | after the first `blocks` iterations the outputs so far are Blocks of that many blocks |
| Kernels.AccumulateNext | src/vec.c:506-517 | one more iteration of the block loop extends the computed prefix by one block and writes nothing else |
| Kernels.FitsFewer | src/vec.c:499 | a matrix large enough for some blocks is large enough for fewer |
| Kernels.MultiplyBlocks | src/vec.c:503-517 | the nv outputs become Product and elements past nv are unchanged |
| Kernels.MultiplyPerBlock | src/vec.c:499-524 | on success a[..nv] is the per-block product, with a zero tail; the guard nm/(s*s) >= nv/s, nv/s > 0, s > 0 and non-null pointers, when violated, gives status 1, the report, and no writes |
| Kernels.MultiplyShared | src/vec.c:526-551 | on success a[..nv] is the shared-matrix product; violating nm >= s*s, nv/s >= nm/(s*s), s > 0 or non-null pointers gives status 1, the report, and no writes |
| Loader.Parameter | src/vec++.hh:175-194 | the key holds no '=' and the value is never empty |
| Loader.ParameterFlag | src/vec++.hh:182-184 | a line with no '=' maps the whole line to "1" |
| Loader.ParameterPair | src/vec++.hh:185-190 | "key=value" maps key to value, and "key=" maps key to "0" |
| Loader.SplitParameter | src/vec++.hh:176-190 | the scan for '=' and the cut at it compute Parameter |
| Loader.Insert | src/vec++.hh:192-193 | insertion adds the key, keeps a value already present, and leaves every other entry alone |
| Loader.InsertKeepsFirst | src/vec++.hh:192-193 | a repeated key keeps the first value inserted |
| Loader.VectorLoader.RegisterParameter | src/vec++.hh:175-194 | the hints or the options gain the parsed pair unless the key is present; nothing else changes |
| Loader.CutLf | src/vec++.hh:212-217 | removes at most one trailing newline, exactly when the line ends in one, and changes nothing else |
| Loader.Special | src/vec++.hh:196-210 | a line not starting with '-', '*' or '?' changes nothing; otherwise the maps only gain keys, existing entries keep their values, and messages are only appended to |
| Loader.SpecialOf | src/vec++.hh:196-210 | '-' goes to the options, '*' to the hints, '?' appends the rest of the line to the messages |
| Loader.SpecialOption | src/vec++.hh:198-200 | "-key=value" registers the option |
| Loader.SpecialHint | src/vec++.hh:201-203 | "*key=value" registers the hint |
| Loader.SpecialMessage | src/vec++.hh:204-206 | "?text" appends text to the messages, after those already there |
| Loader.VectorLoader.ProcessSpecialLine | src/vec++.hh:196-210 | the loader's tables change as Special prescribes |
| Loader.TooLongIffLongLine | src/vec++.hh:230-236 | a chunk fills the buffer without its newline, with input left after it, exactly when the line (with its newline, if any) is longer than the 1023 characters the buffer holds beside its NUL |
| Loader.Chunk | src/vec++.hh:237-240 | a chunk that does not start with '%' leaves the tables unchanged |
| Loader.ScanLine | src/vec++.hh:229-241 | a line that fits is read whole; a '%' line reaches process_special_line without its newline, any other line is skipped |
| Loader.ScanPlainLines | src/vec++.hh:237 | lines that do not start with '%' never change the tables |
| Loader.ScanSpecialLine | src/vec++.hh:237-240 | a '%' line updates the tables as Special prescribes for its text after the '%' |
| Loader.ScanHeader | src/vec.c:115-127 | scanning the header the writer produced registers only the option format=1.1 |
| Loader.ScanVersionLine | src/vec.c:117 | the line "%!VCTR" changes nothing |
| Loader.ScanFormatLine | src/vec.c:118 | the line "%-format=1.1" registers the option format=1.1 |
| Loader.ScanCreatedLine | src/vec.c:119 | the "%%Created with" line changes nothing |
| Loader.ScanHint | src/vec.c:129-138 | a hint line the writer produced registers the hint with its printed parameter |
| Loader.ScanMessage | src/vec.c:140-160 | a message line the writer produced appends the flattened message to the messages |
| Loader.VectorLoader.ScanChunk | src/vec++.hh:230-240 | one fgets step either refuses a chunk that does not fit, or applies it and advances, agreeing with Scan |
| Loader.VectorLoader.FirstScan | src/vec++.hh:228-241 | the tables become what Scan computes from the input, or the scan fails when a line does not fit in the buffer |
| Loader.AfterFgets | src/vec++.hh:230-231 | after fgets the buffer keeps its size |
| Loader.LengthErrorNeverRaised | src/vec++.hh:232-234 | see Findings: the as-written length check never fires |
| Loader.LongLineAsWritten | src/vec++.hh:229-241 | see Findings: a data line of 1023 'x' characters followed by "%?hi" is refused by the corrected scan, while the as-written scan records the message "hi" |
| Loader.LongLineChunk | src/vec++.hh:231 | the first chunk of that line fills the buffer without a newline and changes nothing |
| Loader.ScanAsWrittenLine | src/vec++.hh:229-241 | on a line that fits, the as-written scan agrees with one step of the corrected scan |
| Loader.ParseMultipleParameters | src/vec++.hh:146-164 | a string with k colons yields exactly k+1 values, the pieces converted in order with the separators dropped |
| Loader.SplitPieces | src/vec++.hh:149-159 | the cutting loop yields exactly Split of the string on ':' |
| Loader.NextSeparator | src/vec++.hh:152-154 | the scan stops at the first ':' or at the end, with no ':' before |
| Loader.ConvertAll | src/vec++.hh:160-163 | each piece is converted, in order |
| Loader.SplitAt | src/vec++.hh:155-158 | cutting at the next separator yields the piece before it, then the pieces after it |
| Splice.SpliceWarning | src/splice.cc:19-22 | there is a warning exactly when N1 != N2, and at most one |
| Splice.InterleavedAt | src/splice.cc:24-27 | the reference interleave Interleaved has length 2N, with out[2i] == v1[i] and out[2i+1] == v2[i] for every i < N |
| Splice.Unzip | src/splice.cc:24-28 | the even places (Evens) of the output give back v1[..N] and the odd places (Odds) give back v2[..N] |
| Splice.AlternatingIsInterleaved | src/splice.cc:24-28 | any array of length 2N holding v1 at even places and v2 at odd places is the interleave |
| Splice.Interleave | src/splice.cc:19-28 | the fresh output is the interleave of the first N elements of each input; the warning is given exactly when the lengths differ; the inputs are only read |
| Splice.InterleavedAlternates | src/splice.cc:26-27 | the interleave of equal-length inputs alternates between them |
| Splice.SpliceRows | src/splice.cc:31 | written with stride 2, each text row of the output is one pair (v1[i], v2[i]) |
| Splice.RowsOfPairs | src/splice.cc:31 | from pair i on, the rows of stride 2 are the rows of the remaining pairs |
| Splice.RowOfTwo | src/vec.c:319-326 | a row of stride 2 holds two cells and a newline |
| Splice.PairCells | src/splice.cc:26-27 | the two cells of row i are those of v1[i] and v2[i] |
| Splice.SpliceReadsBack | src/splice.cc:30-31 | decoding splice's output as the corrected encoder writes it gives back the interleave, whose even and odd places are v1[..N] and v2[..N] |
| Splice.SpliceReadsBackAsWritten | src/splice.cc:30-31 | decoding what splice writes with the encoder as written gives back the interleave and both inputs cut to N, for 2N <= INT_MAX |
| Splice.InterleavedSurvives | src/splice.cc:26-27 | every element of the interleave comes from an input, so it survives printing and parsing as the inputs do |
| GSlice.ParseNumbers | src/gslice.cc:80-96 | a string with k colons yields exactly k+1 sizes: each piece through atoi, stored as size_t, in left-to-right order |
| GSlice.ParseSizeList | src/gslice.cc:80-96 | parse_numbers reads back every non-empty list of sizes printed in decimal and joined with ':' |
| GSlice.InferLengths | src/gslice.cc:34-36 | a first length of 0 becomes the number of whole strides in N, the largest l with l*strides[0] <= N; no other length changes |
| GSlice.InferFirstLength | src/gslice.cc:34-36 | the lengths array is updated in place to InferLengths |
| GSlice.Indices | src/gslice.cc:39 | the index set has as many entries as the product of the lengths |
| GSlice.Along | src/gslice.cc:39 | the indices for the first coordinate from i on number (lengths[0]-i) times the product of the other lengths |
| GSlice.Unrank | src/gslice.cc:39 | every position of the selection is the rank of an in-range index tuple |
| GSlice.IndicesAt | src/gslice.cc:39 | the tuple idx, with each idx_i < lengths[i], sits at its last-dimension-fastest rank and selects offset + Σ idx_i*strides[i] |
| GSlice.IndicesEvery | src/gslice.cc:39 | every entry of the selection is offset + Σ idx_i*strides[i] for the tuple of its rank |
| GSlice.RankCons | src/gslice.cc:39 | the rank of a tuple is its first coordinate times the size of the rest, plus the rank of the rest |
| GSlice.RankLastStep | src/gslice.cc:39 | advancing the last coordinate advances the rank by one: the last dimension varies fastest |
| GSlice.OneDimension | src/gslice.cc:39 | with one dimension the selection is offset, offset+stride, ... |
| GSlice.GatherAppend | src/gslice.cc:39 | the selection over a concatenation of index lists is the selection over each list in turn, the order of the indices kept |
| GSlice.GatherAt | src/gslice.cc:38-39 | for every index tuple with idx_i < lengths[i], the selection holds v[offset + Σ idx_i*strides[i]] at the tuple's last-dimension-fastest rank |
| GSlice.GatherOneDimension | src/gslice.cc:39 | with one dimension the generalized slice is the slice kernel |
| GSlice.InferredExample | src/gslice.cc:34-39 | ten elements with lengths [0] and strides [2] give the first length 5 and the slice of stride 2 |
| GSlice.Copy | src/gslice.cc:41-44 | the fresh buffer holds the selection element by element |
| GSlice.ProcessVector | src/gslice.cc:33-44 | infers the first length in place, then returns a fresh buffer holding v at every selected index, in selection order |

## Left out

- I/O: only the text of a stream is modelled, and the fgets, fgetc, fread, ungetc and feof calls are read as operations on it. The end of input is clean: the message scan and the first scan of `vector_loader` stop at the end and never process the last buffer a second time after feof (src/vec.c:164-170). fopen, fclose, rewind and fflush are not modelled.
- Tokenizer.SkipComment: a '%' line that runs into the end of input ends the skipping. In the source, the loop at src/vec.c:68-71 waits for a newline and never ends at end of file.
- Tokenizer.NextTokenAtEnd: the same end of input as Tokenizer.GetToken below: the token is returned whole, with no (char)EOF byte appended.
- Tokenizer.GetToken: a token that runs into the end of input is returned whole. The source has already stored the value fgetc returns at end of file before feof is set (src/vec.c:92), so it appends a (char)EOF byte to such a token. get_token's static buffer, which is shared between calls and returned mutable, is a fresh sequence in the model.
- Number formatting: `%.16g`, `%18.16g` and atof are the parameters `fmt`/`parse`. Elements are `real`, so the IEEE rounding of the add and multiply sums is not modelled. The width-18 padding of a cell is modelled by `CText.Pad`.
- RoundTrip.Survives: `%.16g` keeps 16 significant digits, and some IEEE doubles need 17 to be read back exactly. For example 0.1 + 0.2 = 0.30000000000000004 prints as "0.3" and reads back as a different double. For such values `Survives` is false, so RoundTrip.DecodeEncode and Splice.SpliceReadsBack do not cover them: the text round trip holds only for doubles that 16 digits determine.
- CText.Atoi: overflow of atoi, which C leaves undefined, is not modelled: the model yields the exact value.
- TextCodec.PutVectorBinary / TextCodec.NewVectorBinary: the binary layout past the magic is machine-dependent. The count word and the payload are parameters of the writer, and the reader stops after the eight magic bytes and returns `BinaryPayload` without reading the native size_t count and the native doubles. An input shorter than four bytes is treated as bad magic; in the source, strncmp then reads uninitialised buffer bytes.
- Error handling: the default error handler prints to stderr and exits the process on an error (src/vec.c:34-44), and vec_set_error_handler swaps the handler (src/vec.c:109-113). The model returns the reports in order and leaves out the exit.
- vec_delete_double_vector and the allocation calls (calloc, strdup, new, free): memory management is not modelled.
- The float variants (src/vec.c:190-311) share the double members. `Precision` only changes the names in reports.
- Kernels.AddBroadcast: requires that the output is not v1, because the first block written would overwrite elements of v1 that later blocks read. The output may be v2.
- Kernels.MultiplyPerBlock: requires that the output is neither m nor v, because src/vec.c:503-505 zero a[..nv] before any element of m or v is read.
- Kernels.MultiplyShared: requires the same, for the same reason (src/vec.c:530-532). Kernels.Slice and Kernels.AddPairwise accept any aliasing.
- Kernels.MultiplyPerBlock: the guard nm/(s*s) >= nv/s and the index arithmetic are exact, which agrees with size_t only while s*s < 2^64, that is s < 2^32. For s = 2^32 the source's s*s wraps to 0 and the guard divides by zero, where the model reports bad parameters.
- Kernels.MultiplyShared: the same holds for its guard nv/s >= nm/(s*s) and its indices: exact arithmetic, matching size_t only for s < 2^32.
- Kernels.Slice and the other kernels require the caller's arrays to hold the stated numbers of elements, but only when the kernel's own guard passes; on the refusal paths nothing is required of the arrays. The C code reads and writes blindly.
- Loader.CutLf: an empty line returns unchanged. The source reads line[l-1] before the start of the buffer (src/vec++.hh:214-215); the model makes no promise about that byte.
- Loader.VectorLoader.FirstScan: the constructor's fopen and its invalid_argument exception, the second scan that reads the values, and the accessors (src/vec++.hh:220-255 and 39-118) are not modelled. The std::length_error becomes the result false.
- The command-line front ends (main, parse_option, help in vcat.cc, add.cc, multiply.cc, slice.cc, gslice.cc, vectorize.cc and splice.cc), the orchestration in add.cc, multiply.cc and slice.cc, and src/statistics.cc are not part of this model.
- Splice.Interleave: does not model the `int` loop counter of src/splice.cc:25, which overflows for N > INT_MAX. It does not accept a nil input, whose NULL elements the source would read. Reading the two files and writing the output are kept separate: the output text is the subject of `Splice.SpliceReadsBack`.
- GSlice.ProcessVector: index arithmetic is exact, not size_t, and the selection is required to lie inside the vector (`Selectable`). std::gslice gives an out-of-range selection undefined behaviour. A first length of 0 requires a positive first stride: the source divides by it. The -L and -S lists are required to have the same number of entries, where src/gslice.cc:142-144 accepts lists of any sizes. Reading the input, and writing the selection as text or binary (src/gslice.cc:45-65), are left to the codec members. The command-line flags are not modelled.

## Findings

| source | as written | input that shows it | evidently intended | confidence | as-written member | corrected member |
|---|---|---|---|---|---|---|
| src/vec.c:315 | the count line is always written, so a vector of n > 0 with null elements is written as "n % Number of elements" and then "nil" | n = 1, v = NULL: the decoder reads count 1 and then atof("nil") as the single element; n = SIZE_MAX, v = NULL, the decoder's own nil: the count prints as -1 and reads back as SIZE_MAX with elements present | the nil text alone, which the decoder reads as the sentinel (size_t)-1 with no elements | likely; not executed | RoundTrip.NilAsWrittenIsNotNil, RoundTrip.NilSentinelAsWritten | RoundTrip.DecodeEncodeNil |
| src/vec++.hh:232-234 | buff[1023] is cleared before fgets(buff, 1024, f), and fgets writes at most 1023 characters and a NUL, so that byte is always NUL afterwards and the length error is never thrown | a data line of 1023 'x' followed by "%?hi\n": the tail "%?hi" is scanned as a line of its own and recorded as a message | a line that does not fit in the buffer raises std::length_error | likely; not executed | Loader.LengthErrorNeverRaised | Loader.VectorLoader.FirstScan |
| src/vec.c:315 | the size_t count is printed with %d, which on an LP64 platform prints its low 32 bits as a signed int | n = 2^32 prints "0", and the decoder returns the empty vector | the count printed in full (%zu) and read back with a size_t conversion (strtoull) rather than atoi's int; the corrected member uses both | likely; not executed | RoundTrip.WideCountAsWritten | RoundTrip.DecodeEncode |
