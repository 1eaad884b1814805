# Extended-attribute dump, restore and tree walk, in Dafny

A model of the core of the `attr` tools (`getfattr`, `setfattr`), with proofs:

- **Value codec.** `getfattr`'s `encode` writes an attribute value as quoted text with
  backslash and octal escapes, as `0x` plus lowercase hex, or as `0s` plus base64
  (the alphabet and `=` padding of RFC 4648, section 4). `setfattr`'s `decode` picks the
  scheme from the first two characters and reads the value back. It uses `hex_digit` and
  `base64_digit`. Each scheme has a specification function. The C loops, which write
  into a buffer through a moving index, are methods proved equal to it. The headline
  theorem is `Decoded(Encoded(b, scheme)) == Some(b)` for every byte sequence and
  every scheme.
- **Dump formatter** (`get_one`, `do_get_all`, `do_get_one`, `high_water_alloc`,
  `pstrcmp`). `listxattr` and `getxattr` are functions passed to the model, and the
  name pattern is a predicate. Standard output is a sequence of lines. `qsort` with
  `pstrcmp` is an in-place insertion sort proved to give the unique `strcmp`-sorted
  permutation.
- **Restore parser** (`restore`, `next_line`, `do_set`). The input file is a string,
  read by `fgets` into a `_POSIX_PATH_MAX + 32` buffer. The attribute calls are recorded
  as a trace of `Op`s, and whether each one succeeds is a function passed to the model.
  The line-by-line state machine is proved equal to a function over the list of lines.
  A node's `--dump` block, printed and read back by `next_line`, is proved to restore
  to one `setxattr` per dumped attribute, carrying the original bytes. This holds when
  every accepted name is readable, not empty and free of `=`, when
  the path and the names hold no newline, NUL or final carriage return and every
  printed line fits `next_line`'s 288-byte buffer. A longer line comes back in pieces
  (see Findings); with a reader that takes whole lines the round trip holds at any length.
- **Two tree walkers.** The file system is a `map<Path, Entry>`; an entry is a
  directory with its `readdir` names, a file or a symbolic link. A path not in the
  map is absent. The visitor is a function from a call to its result, and each walk
  returns its count together with the trace of visitor calls.
  - libmisc/walk_tree.c is driven by flags.
  - getfattr/walk_tree.c uses globals and a static `level`. It is a class whose
    method restores `level` on every exit path.

Modules: `Common` (bytes, C string reads), `Encode`, `Decode`, `RoundTrip`,
`NameOrder`, `Dump`, `Restore`, `DumpRestore`, `FileSystem`, `FlagWalk` and
`GlobalWalk`.

## Model

| member | source | states |
|---|---|---|
| `Encode.Escape` | getfattr/getfattr.c:364-374 | a byte below 32 or at least 127 becomes `\` and three octal digits, high digit first, whose value is the byte; `\` and `"` get a backslash in front; every other byte is copied; every character written is printable |
| `Encode.TextEncodingLength` | getfattr/getfattr.c:362-378 | the text encoding is 2 plus the sum of 4, 2 or 1 per byte long |
| `Encode.TextEncodingPrintable` | getfattr/getfattr.c:362-377 | the text encoding begins and ends with `"` and holds only printable characters |
| `Encode.TextBodyWithinAlloc` | getfattr/getfattr.c:349-355 | the escapes fit in the `size + extra + 3` buffer that the sizing loop computes |
| `Encode.CountExtra` | getfattr/getfattr.c:349-354 | the sizing loop computes 4 per octal escape and 1 per backslash escape |
| `Encode.PutEscape` | getfattr/getfattr.c:364-374 | the writes for one byte append exactly its escape at `e` and move `e` past it |
| `Encode.PutTextBody` | getfattr/getfattr.c:363-375 | the write loop puts the escape of every byte, in order, after the opening quote, and ends just past them |
| `Encode.EncodeText` | getfattr/getfattr.c:346-378 | the text branch writes exactly `Encode.TextEncoding`, the quoted escaped text |
| `Encode.HexEncodingAt` | getfattr/getfattr.c:380-396 | the hex encoding is `0x` and then, for each byte, two lowercase hex digits, high nibble first; its length is 2 + 2n |
| `Encode.PutHexPair` | getfattr/getfattr.c:392-393 | the two writes for a byte append its high and then its low hex digit |
| `Encode.PutHexBody` | getfattr/getfattr.c:390-394 | the write loop puts the hex pair of every byte, in order, after `0x`, and ends 2 + 2n characters in |
| `Encode.EncodeHex` | getfattr/getfattr.c:379-396 | the hex branch writes exactly `Encode.HexEncoding`, `0x` and two lowercase digits per byte |
| `Encode.Base64EncodingShape` | getfattr/getfattr.c:398-432 | the base64 encoding is 2 + 4·⌈n/3⌉ long; a final group of two bytes ends in one `=`, a final group of one byte ends in `==`, and no other character is `=` |
| `Encode.Base64Examples` | getfattr/getfattr.c:409-431 | "A" encodes to `0sQQ==`, "AB" to `0sQUI=` and "ABC" to `0sQUJD` |
| `Encode.Base64AllocAsWrittenShort` | getfattr/getfattr.c:402 | the buffer allocated at line 402 is two bytes shorter than what lines 409-431 write, for every value |
| `Encode.Base64AllocFits` | getfattr/getfattr.c:402-432 | with the corrected size, the encoding and its NUL fill the buffer exactly |
| `Encode.PutWholeGroup` | getfattr/getfattr.c:410-418 | one turn of the group loop appends the four digits of three bytes and stays inside the buffer |
| `Encode.PutWholeGroups` | getfattr/getfattr.c:410-418 | the loop over whole groups writes `0s` and the base64 of every whole group of three bytes, leaving fewer than three bytes |
| `Encode.PutLastGroup` | getfattr/getfattr.c:419-430 | the partial final group completes the base64 encoding |
| `Encode.EncodeBase64` | getfattr/getfattr.c:397-433 | the base64 branch writes exactly `Encode.Base64Encoding`, `0s` and the padded RFC 4648 groups |
| `Encode.Encode` | getfattr/getfattr.c:340-435 | `encode` produces the encoding of the selected scheme |
| `Encode.Put` | getfattr/getfattr.c:410-430 | writing a group of characters at the index appends exactly that group to what was written before |
| `Encode.HexBodyPrintable` | getfattr/getfattr.c:390-394 | every hex digit written is printable |
| `Encode.Base64BodyPrintable` | getfattr/getfattr.c:409-431 | every base64 character and `=` written is printable |
| `Encode.EncodedPrintable` | getfattr/getfattr.c:340-435 | no encoding of any value holds a character outside space to `~`, so none holds a newline, carriage return or NUL |
| `Decode.HexDigit` | setfattr/setfattr.c:391-401 | the value of a hex digit of either case, and -1 exactly for any other character |
| `Decode.Base64Digit` | setfattr/setfattr.c:403-419 | 0..63 exactly for the alphabet, -2 exactly for `=`, and -1 otherwise |
| `Decode.SkipSpaces` | setfattr/setfattr.c:266-267 | the white-space loop stops at the first character that is not white space |
| `Decode.HexFromDefined` | setfattr/setfattr.c:263-283 | hex decoding succeeds exactly when the non-space characters are an even number of hex digits, and it then yields half as many bytes |
| `Decode.HexDecodeFails` | setfattr/setfattr.c:253-284 | `0x` input gives NULL exactly on an odd digit count or a non-hex digit |
| `Decode.ReadHexPair` | setfattr/setfattr.c:263-283 | one pass of the hex loop writes `d1 << 4 \| d0`, stops at the end, or fails on a malformed pair |
| `Decode.DecodeHex` | setfattr/setfattr.c:253-284 | the hex branch returns what `Decode.HexFrom` gives from the third character |
| `Decode.Base64Group` | setfattr/setfattr.c:296-319 | one pass of the group loop writes three bytes of a full group (the cast keeps 8 bits), ends the loop, or fails when fewer than four characters are left |
| `Decode.FinalGroup` | setfattr/setfattr.c:320-338 | `XY==` gives one byte and needs `Y & 0x0F == 0`; `XYZ=` gives two and needs `Z & 0x03 == 0`; a -1 digit or misplaced `=` fails |
| `Decode.Base64Trailer` | setfattr/setfattr.c:339-350 | after the last group only white space, at most one `====` and white space may follow |
| `Decode.Base64Digits` | setfattr/setfattr.c:309-318 | four digits either are all valid and append their three bytes, so that `Decode.B64From` is unchanged, or end the loop with the digits the final-group check reads |
| `Decode.DecodeBase64` | setfattr/setfattr.c:285-351 | the base64 branch returns what `Decode.B64From` gives from the third character |
| `Decode.OctalRun` | setfattr/setfattr.c:373-379 | an octal escape reads one to three octal digits and stops early only at a character that is not an octal digit |
| `Decode.ReadOctal` | setfattr/setfattr.c:372-380 | the octal loop computes `OctalRun` |
| `Decode.ReadTextByte` | setfattr/setfattr.c:369-384 | one step of the text loop: `\\` and `\"` give the character, `\` and octal digits their value mod 256, anything else itself |
| `Decode.PutText` | setfattr/setfattr.c:368-385 | the unescaping loop writes exactly `Decode.TextFrom` of the quoted part |
| `Decode.DecodeText` | setfattr/setfattr.c:352-386 | the text branch strips one quote pair when the value has at least two characters and decodes the rest as `Decode.TextFrom` gives |
| `Decode.Decoded` | setfattr/setfattr.c:253-386 | a value without a `0x`/`0X`/`0s`/`0S` prefix is decoded as text, which always succeeds |
| `Decode.DecodedLength` | setfattr/setfattr.c:257-361 | in every scheme the decoded value is no longer than its input: at most half of it for hex, at most 3 per 4 characters for base64 |
| `Decode.Decode` | setfattr/setfattr.c:245-389 | `decode` dispatches on the prefix and returns what the scheme's specification gives |
| `RoundTrip.HexDigitOfHexChar` | setfattr/setfattr.c:391-401 | `hex_digit` inverts `encode`'s hex alphabet |
| `RoundTrip.Base64DigitOfBase64Char` | setfattr/setfattr.c:403-419 | `base64_digit` inverts `encode`'s base64 alphabet |
| `RoundTrip.Group3Bytes` | setfattr/setfattr.c:316-318 | the bytes of a full group come back from its four digits |
| `RoundTrip.OctalEscapeStep` | setfattr/setfattr.c:373-381 | `\` and the three octal digits `encode` writes for a byte read back as that byte, four characters on |
| `RoundTrip.TextStepOfEscape` | setfattr/setfattr.c:369-384 | one step of the text loop reads any escape `encode` writes back into its byte and moves just past it, whatever follows |
| `RoundTrip.TextFromBody` | setfattr/setfattr.c:368-385 | the text loop reads a run of escapes back into the bytes they were written for |
| `RoundTrip.TextRoundTrip` | setfattr/setfattr.c:352-386 | decoding the text encoding gives back every byte sequence |
| `RoundTrip.HexRoundTrip` | setfattr/setfattr.c:253-284 | decoding the hex encoding gives back every byte sequence |
| `RoundTrip.Base64RoundTrip` | setfattr/setfattr.c:285-351 | decoding the base64 encoding gives back every byte sequence |
| `RoundTrip.RoundTrip` | getfattr/getfattr.c:340-435 | for every scheme, `decode(encode(b)) == b` |
| `NameOrder.StrcmpAntisymmetric` | getfattr/getfattr.c:206-209 | swapping the names negates `strcmp` |
| `NameOrder.StrcmpZeroIff` | getfattr/getfattr.c:206-209 | on names without NUL, `strcmp` is zero exactly for equal names |
| `NameOrder.StrcmpTransitive` | getfattr/getfattr.c:206-209 | the `strcmp` order is transitive |
| `NameOrder.StrcmpOrdersLexicographically` | getfattr/getfattr.c:206-209 | `strcmp` is negative exactly when the first name is a proper prefix of the second or has the smaller byte where they first differ |
| `NameOrder.InsertNext` | getfattr/getfattr.c:251-252 | one insertion step sorts one more element into the sorted prefix and keeps the array a permutation of what it held |
| `NameOrder.SortNames` | getfattr/getfattr.c:251-252 | the in-place sort leaves a permutation of the names in `strcmp` order |
| `NameOrder.SortSortsAndPermutes` | getfattr/getfattr.c:251-252 | the sorted order is sorted and a permutation of the names |
| `NameOrder.SortedUnique` | getfattr/getfattr.c:251-252 | two sorted permutations of the same names are equal, so the output does not depend on the sort algorithm |
| `Dump.StrippedPathShape` | getfattr/getfattr.c:306-321 | the stripped path is not empty and does not start with `/`; it is `.` or a suffix of the path after leading slashes or after `./` and slashes; any other path is kept |
| `Dump.StripLeadingSlash` | getfattr/getfattr.c:306-321 | the loops that advance `path` compute `Dump.StrippedPath` |
| `Dump.RoundUp` | getfattr/getfattr.c:193 | the new size is the least multiple of `CHUNK_SIZE` that is at least the requested size |
| `Dump.HighWater.Alloc` | getfattr/getfattr.c:184-204 | the buffer only grows, in whole chunks, and is kept when it is already big enough |
| `Dump.ValueText` | getfattr/getfattr.c:327-328 | `puts(value)` prints the value up to its first NUL |
| `Dump.AcceptedCounts` | getfattr/getfattr.c:240-250 | the filter keeps each accepted name as often as the listing has it, and no other name |
| `Dump.GotAllNames` | getfattr/getfattr.c:240-253 | `do_get_all` reads the accepted names, each as often as listed, in `strcmp`-ascending order |
| `Dump.GetFailures` | getfattr/getfattr.c:283-296 | a missing `system.*` attribute gives 0 and no output; any other failure to get an attribute gives 1 and no output |
| `Dump.GotEachShape` | getfattr/getfattr.c:323-326 | a node's header is printed at most once, before all value lines, and only when an attribute could be read and values are not printed alone |
| `Dump.GotAllShape` | getfattr/getfattr.c:211-263 | a node prints nothing, or its header, its value lines and one blank line; a listing error other than ENOATTR/ENOTSUP returns 1 and counts one error |
| `Dump.GotNamedShape` | getfattr/getfattr.c:265-274 | `do_get_one` adds a blank line exactly when it printed the header |
| `Dump.Dumper.GetOne` | getfattr/getfattr.c:276-338 | `get_one` prints and returns what `Dump.GotOne` gives |
| `Dump.Dumper.KeepAccepted` | getfattr/getfattr.c:240-250 | the filter pass over the listing keeps the accepted names in listing order |
| `Dump.Dumper.SortedAccepted` | getfattr/getfattr.c:240-253 | the filter passes and `qsort` give the accepted names in `strcmp` order |
| `Dump.Dumper.GetEach` | getfattr/getfattr.c:257-258 | `get_one` runs once per name, in order |
| `Dump.Dumper.DoGetAll` | getfattr/getfattr.c:211-263 | `do_get_all` prints and returns what `Dump.GotAll` gives |
| `Dump.Dumper.DoGetOne` | getfattr/getfattr.c:265-274 | `do_get_one` prints and returns what `Dump.GotNamed` gives |
| `Restore.FgetsChunk` | setfattr/setfattr.c:111-112 | `fgets` reads at most 287 characters, with a newline only at the end; the chunk ends in a newline, fills the buffer, or takes the rest of the file |
| `Restore.BeforeNulShape` | setfattr/setfattr.c:115 | the line is the buffer up to its first NUL |
| `Restore.TrimEolShape` | setfattr/setfattr.c:115-120 | `next_line` keeps a prefix of the line and removes only `\n` and `\r` characters, all of them at the end |
| `Restore.TrimEolKeeps` | setfattr/setfattr.c:115-120 | a line followed by line ends trims back to the line itself |
| `Restore.NextLineOf` | setfattr/setfattr.c:109-122 | `next_line` gives NULL exactly at the end of the file, and otherwise consumes some of it |
| `Restore.Restorer.TrimLineEnds` | setfattr/setfattr.c:115-120 | the trimming loop computes the trimmed line |
| `Restore.Restorer.NextLine` | setfattr/setfattr.c:109-122 | `next_line` reads and trims one line |
| `Restore.ChunkEndAtNewline` | setfattr/setfattr.c:111-112 | `fgets` stops just after the first newline when it comes before the buffer is full |
| `Restore.ChunkEndFull` | setfattr/setfattr.c:111-112 | `fgets` stops with a full buffer, 287 characters, when none of them is a newline |
| `Restore.BeforeNulFree` | setfattr/setfattr.c:113-115 | a buffer without a NUL is read whole as a C string |
| `Restore.PrintedLineText` | setfattr/setfattr.c:113-120 | a printed line with its newline, cut at NUL and trimmed, is the line as printed |
| `Restore.NextLineOfPrinted` | setfattr/setfattr.c:109-122 | `next_line` reads a printed line of at most 286 characters, without newline, NUL or final carriage return, back as printed and leaves the lines after it |
| `Restore.LongLineSplits` | setfattr/setfattr.c:111-112 | a printed line of 287 characters or more is not read back as that line followed by the rest of the file |
| `Restore.PrintedReadBack` | setfattr/setfattr.c:109-122 | `next_line` reads back every line of a printed file whose lines fit its buffer |
| `Restore.WholeLineEnd` | setfattr/setfattr.c:109-122 | a whole line ends at the first newline or at the end of the file |
| `Restore.WholeLineEndFirst` | setfattr/setfattr.c:109-122 | no newline comes before the end `Restore.WholeLineEnd` finds |
| `Restore.NextWholeLine` | setfattr/setfattr.c:109-122 | the whole-line reader gives NULL exactly at the end of the file, and otherwise consumes some of it |
| `Restore.NextWholeLinePrinted` | setfattr/setfattr.c:109-122 | the whole-line reader reads any printed line without newline, NUL or final carriage return back as printed, whatever its length |
| `Restore.PrintedWholeReadBack` | setfattr/setfattr.c:109-122 | the whole-line reader reads back every line of such a printed file |
| `Restore.SplitAtFirstEq` | setfattr/setfattr.c:78-81 | an attribute line splits at its first `=`; the name holds no `=`, and a line without `=` is all name with no value |
| `Restore.SplitJoin` | setfattr/setfattr.c:78-81 | a name without `=`, then `=` and a value, splits back into that name and value |
| `Restore.DoneSetShape` | setfattr/setfattr.c:224-243 | `do_set` makes at most one call; it sets the decoded value, or the empty value when there is no `=`, or removes with `-x`; a value that does not decode makes no call; it returns 1 exactly when it counts an error |
| `Restore.Restorer.DoSet` | setfattr/setfattr.c:224-243 | `do_set` records and returns what `Restore.DoneSet` gives |
| `Restore.RestoringIsRestoreLines` | setfattr/setfattr.c:41-92 | reading line by line is the restore of the list of lines `next_line` gives |
| `Restore.HeaderMissingAborts` | setfattr/setfattr.c:46-65 | when the first non-blank line of a block lacks `# file: `, the restore returns 1 at once and makes no more calls |
| `Restore.BlankSkipped` | setfattr/setfattr.c:47-49 | a blank line between blocks changes nothing but the reported line number |
| `Restore.EmptyBlockNoop` | setfattr/setfattr.c:77-85 | a header with no attribute lines is a clean no-op |
| `Restore.RestoreShape` | setfattr/setfattr.c:41-92 | an abort comes with status 1; calls are only ever added, so an abort keeps the calls made before it |
| `Restore.Restorer.SkipBlankLines` | setfattr/setfattr.c:47-49 | the loop skips blank lines and counts them |
| `Restore.Restorer.SetAttributes` | setfattr/setfattr.c:77-85 | the block loop calls `do_set` for each line up to a blank line or EOF, and each result replaces `status` |
| `Restore.Restorer.SetBlock` | setfattr/setfattr.c:66-85 | the lines after a `# file: ` header are set on its path, and the restore goes on as `Restore.RestoreBlock` gives |
| `Restore.Restorer.FinishBlock` | setfattr/setfattr.c:66-85 | after a `# file: ` header, the block's lines are set on its path; the loop then ends as `Restore.RestoreBlock` gives, or goes on with less input left |
| `Restore.Restorer.RestoreStep` | setfattr/setfattr.c:46-85 | one turn of the `for (;;)` loop ends, aborts or goes on with less input left, as `Restore.RestoreFrom` gives |
| `Restore.Restorer.Restore` | setfattr/setfattr.c:41-92 | `restore` returns and records what `Restore.Restoring` gives for the input read with `next_line` |
| `DumpRestore.ValueLineRestores` | setfattr/setfattr.c:77-83 | a dumped attribute line whose name is not empty and holds no `=` is not blank, and `do_set` sets the value it was dumped from |
| `DumpRestore.SetRunRecords` | setfattr/setfattr.c:77-83 | `do_set` over a run of lines records their calls in order |
| `DumpRestore.BlockRestores` | setfattr/setfattr.c:46-86 | the restore of a node's dump block, handed over as a list of lines, does not abort and sets each attribute on the dumped path with the bytes that were read, when every name is readable, not empty and free of `=` |
| `DumpRestore.GotAllBlock` | getfattr/getfattr.c:254-260 | a listed node with a readable accepted name prints its header, one line per name and a blank line |
| `DumpRestore.DumpedBlock` | getfattr/getfattr.c:254-260 | a node's dump adds its header, one value line per accepted name and a blank line after what was printed before, when every accepted name is readable, not empty and free of `=` |
| `DumpRestore.DumpThenRestoreLines` | getfattr/getfattr.c:211-263 | `--dump` of a node, its lines handed to the restore as a list, sets the accepted attributes again, in `strcmp` order, with their original values, when every accepted name is readable, not empty and free of `=` |
| `DumpRestore.ValueLineUnbroken` | getfattr/getfattr.c:329-335 | a value line holds no newline, NUL or final carriage return when its name holds none |
| `DumpRestore.BlockUnbroken` | getfattr/getfattr.c:323-335 | every line of a node's block is unbroken when its path and names are |
| `DumpRestore.BlockFits` | setfattr/setfattr.c:111-112 | every line of such a block fits `next_line`'s buffer when the header and value lines are at most 286 characters |
| `DumpRestore.DumpThenRestore` | setfattr/setfattr.c:41-122 | `--dump` of a node, printed, then `--restore` of the file read with `next_line`, sets the accepted attributes again, in `strcmp` order, with their original values, when every accepted name is readable, not empty and free of `=`, the path and names are unbroken and each line fits the buffer |
| `DumpRestore.DumpThenRestoreExample` | setfattr/setfattr.c:41-122 | a file `f` whose one attribute `user.a` holds `A`, dumped as text and restored with `next_line`, gets `user.a` set to `A` again: the bounds of `DumpRestore.DumpThenRestore` are met by real input |
| `DumpRestore.LongValueLineSplits` | setfattr/setfattr.c:111-112 | a dumped value line of 287 characters or more is not read back as one line |
| `DumpRestore.HexZerosSplit` | setfattr/setfattr.c:111-112 | 200 zero bytes dumped in hex as `a` make a 404-character line that `next_line` does not read back whole |
| `DumpRestore.DumpThenRestoreWhole` | setfattr/setfattr.c:41-122 | with a reader that takes whole lines, `--dump` then `--restore` sets the accepted attributes again with their original values whenever every accepted name is readable, not empty and free of `=` and the path and names are unbroken, however long the lines |
| `DumpRestore.EqualsInNameMisread` | setfattr/setfattr.c:78-81 | the dumped line of a name holding `=` splits at the name's first `=`, so the restore names a different attribute: the part of the name before that `=` |
| `DumpRestore.UserAEqualsBMisread` | getfattr/getfattr.c:329-335 | `user.a=b` holding `x` dumps as `user.a=b="x"`, which splits into the name `user.a` and the value text `b="x"` |
| `FlagWalk.ChildPath` | libmisc/walk_tree.c:76-83 | a child's path is `path + "/" + name` when it fits in `FILENAME_MAX` with its NUL; otherwise it is too long |
| `FlagWalk.ChildPathAsWrittenTruncates` | libmisc/walk_tree.c:78 | the `>` test as written lets a path of exactly `FILENAME_MAX` characters through, cut short by one character |
| `FlagWalk.RootTooLong` | libmisc/walk_tree.c:95-98 | a root path of `FILENAME_MAX` characters or more makes exactly one FAILED call without a stat, whose result is returned |
| `FlagWalk.LstatFailed` | libmisc/walk_tree.c:44-45 | a failed `lstat` is one FAILED call without a stat, with no descent |
| `FlagWalk.SymlinkSkipped` | libmisc/walk_tree.c:46-49 | a symbolic link is neither visited nor walked, and 0 is returned, exactly when PHYSICAL is set or LOGICAL is unset below depth 1 |
| `FlagWalk.SymlinkFollowed` | libmisc/walk_tree.c:50-54 | a followed symbolic link carries SYMLINK; with DEREFERENCE the visitor sees the target's stat, and a dangling link is one FAILED call |
| `FlagWalk.WalkedPreOrder` | libmisc/walk_tree.c:55-57 | the node is visited before anything below it |
| `FlagWalk.ChildrenFailedAt` | libmisc/walk_tree.c:73-85 | the `readdir` loop calls the visitor on the directory's own path only to report a child path that is too long, with FAILED |
| `FlagWalk.VisitedFirstOnce` | libmisc/walk_tree.c:55-89 | a node's walk starts with the call on its path with its stat and the flags in force; every later call on that path carries FAILED |
| `FlagWalk.WalkedVisitedOnce` | libmisc/walk_tree.c:31-89 | a node that is present, not skipped, and whose `stat` succeeds under DEREFERENCE is visited first and exactly once without FAILED, when the walk flags hold no FAILED |
| `FlagWalk.FileNotDescended` | libmisc/walk_tree.c:55-57 | a regular file is visited once with its stat and the flags in force, and nothing below it is walked |
| `FlagWalk.NotRecursive` | libmisc/walk_tree.c:55-57 | without RECURSIVE, a walk makes at most one call, at the root |
| `FlagWalk.WalkedBelow` | libmisc/walk_tree.c:73-84 | every call of a walk is about the root or a path below it |
| `FlagWalk.WalkedSums` | libmisc/walk_tree.c:63-89 | the walk returns the sum of the results of all the visitor calls it made, including the FAILED calls for `opendir`, a too-long child path and `closedir` |
| `FlagWalk.WalkTreeRec` | libmisc/walk_tree.c:31-90 | `walk_tree_rec` returns the count and calls of `FlagWalk.Walked`, which visits through `FlagWalk.Visited` |
| `FlagWalk.WalkChildren` | libmisc/walk_tree.c:73-85 | the `readdir` loop adds each child's walk to `err`, as `FlagWalk.WalkedChildren` gives |
| `FlagWalk.WalkTree` | libmisc/walk_tree.c:92-100 | `walk_tree` checks the root's length and starts at depth 1, as `FlagWalk.WalkedTree` gives |
| `GlobalWalk.ChildPath` | getfattr/walk_tree.c:54-75 | a child's path is the parent, then `/` unless the parent ends in one, then the name cut to `_POSIX_PATH_MAX` characters |
| `GlobalWalk.PhysicalSkipsSymlinks` | getfattr/walk_tree.c:31-33 | in PHYSICAL mode a symbolic link is neither visited nor walked, and counts nothing |
| `GlobalWalk.DanglingSymlinkFails` | getfattr/walk_tree.c:35-36 | in the other modes, a link whose target `stat` fails counts one error and is not visited |
| `GlobalWalk.SymlinkFollowedIff` | getfattr/walk_tree.c:31-83 | a link is followed exactly when HALF_LOGICAL at level 1 or FULL_LOGICAL; then it is visited once with its target's stat, first in pre-order and last in post-order, and not at all when post-order recursion's `opendir` on the target fails |
| `GlobalWalk.OthersFollowed` | getfattr/walk_tree.c:41-42 | anything other than a symbolic link is followed |
| `GlobalWalk.FileNotDescended` | getfattr/walk_tree.c:47-50 | a regular file is visited once with its stat, and nothing below it is walked, whatever the policy |
| `GlobalWalk.NotRecursive` | getfattr/walk_tree.c:44-84 | without `-R`, a walk makes at most one visitor call, on its argument |
| `GlobalWalk.VisitedOnce` | getfattr/walk_tree.c:44-83 | a followed node is visited exactly once, first in pre-order and last in post-order; a post-order node whose `opendir` fails is not visited |
| `GlobalWalk.WalkedBelow` | getfattr/walk_tree.c:50-77 | every call is about the root or a path below it |
| `GlobalWalk.CountIsOwn` | getfattr/walk_tree.c:25-92 | the count is the node's own visitor result plus its own `lstat`, `stat` or `opendir` failure; the children's counts are dropped |
| `GlobalWalk.DefaultWalk` | getfattr/walk_tree.c:15-17 | with the defaults (not recursive, pre-order, HALF_LOGICAL) a walk visits its argument once, following a symbolic link |
| `GlobalWalk.Walker.constructor` | getfattr/walk_tree.c:15-17 | the globals start non-recursive, pre-order, HALF_LOGICAL, with `level` 0 |
| `GlobalWalk.Walker.WalkTree` | getfattr/walk_tree.c:19-93 | `walk_tree` returns the count and calls of `GlobalWalk.Walked` one level down, and every exit path restores `level` |
| `GlobalWalk.Walker.WalkFollowed` | getfattr/walk_tree.c:44-84 | a followed node is walked as `GlobalWalk.Followed` gives: visited before or after its children, and a failed `opendir` counts one error |
| `GlobalWalk.Walker.WalkChildren` | getfattr/walk_tree.c:69-77 | the `readdir` loop walks each child one level down and drops its count, as `GlobalWalk.ChildCalls` gives |
| `GlobalWalk.Walker.WalkChild` | getfattr/walk_tree.c:70-76 | `.` and `..` are skipped; any other name is walked at the child path |

## Notable behaviour of the code

The model keeps each of these behaviours of the C code:

- libmisc/walk_tree.c:97 returns the visitor's result for a root path that is too
  long, not a fixed 1.
- getfattr/walk_tree.c:76 drops the counts of the recursive calls. Only
  libmisc/walk_tree.c sums them.
- libmisc/walk_tree.c:68 counts no failure when `opendir` fails with ENOTDIR or ENOENT.
- In PHYSICAL mode a symbolic link is not reported to the visitor at all, in both
  walkers.
- In `restore`, `status` holds the result of the last `do_set`. It is not a count of
  failures; `had_errors` counts them.
- `--dump` joins a name and its value with `=`, and `--restore` splits the line at its
  first `=` (setfattr/setfattr.c:78-81). A name that holds `=` is therefore restored
  under the part before that `=`, with the rest of the line as its value.
- A post-order node whose `opendir` fails is never visited (getfattr/walk_tree.c:66-68
  jumps past the post-order call).

## Left out

- The system calls (`listxattr`, `getxattr`, `setxattr`, `removexattr`, `lstat`,
  `stat`, `opendir`, `readdir`, `closedir`) are modelled as functions of a map or as
  parameters. Their `l`-variants for `-h`/`-l` are not told apart.
- `regcomp` and `regexec` are modelled as a predicate on names.
- `qsort` is modelled as an insertion sort. The result is the same, because the
  sorted permutation of a list of names is unique.
- `main`, option parsing, `help`, gettext, and the `perror`/`fprintf` messages. The
  restore keeps only the line number it would report.
- Allocation failures (`malloc`, `realloc` and `alloca` returning NULL) are not modelled.
- The static one-slot buffers of `encode` and `decode`. Both return fresh values.
- The static `st` of getfattr/walk_tree.c:22 is not shared. A post-order visit gets
  the node's own stat, where the code passes whatever the last child left in `st`.
- getfattr/walk_tree.c:54-64 writes the child name into the caller's string when the
  path ends in `/`. The model builds a new path instead.
- `Dump.HighWater.Alloc` compares `*bufsize` and allocates a fresh buffer. Lines 192-194
  compare the pointer `bufsize` and call `realloc` without a buffer.
- The `<=` loops at getfattr/getfattr.c:240 and 248 read one entry past the listing.
  The model walks the listed names only.
- The walkers' recursion depth and stack use are not modelled.
- `FILENAME_MAX` is 4096 and `_POSIX_PATH_MAX` is 256 (the Linux values).
- `stat` gives up after 40 links (MAXSYMLINKS).
- `DumpRestore.DumpThenRestore` requires every accepted name to be readable, not
  empty and free of `=`, the path and the names to hold no newline, NUL
  or final carriage return, and every printed line to fit `next_line`'s buffer.
  A name holding `=` comes back as the part before its first `=`
  (`DumpRestore.EqualsInNameMisread`). A name whose `getxattr` fails prints no line
  (getfattr/getfattr.c:283-296), so the restore does not set it.
  Outside those bounds the printed dump does not read back line for line
  (`Restore.LongLineSplits`, and the first row under Findings).
- `FileSystem.Lstat` looks up the whole path as one key: a path through a symbolic
  link to a directory (`link/child`) is its own entry, not resolved to
  `target/child`. A walk through a symbolic-link loop ends because the map is finite
  and each child path is longer, not through ELOOP or `PATH_MAX`.
- Concurrent changes to the file system during a walk are not modelled.
- Values are byte sequences, and text is one `char` per C byte. Characters above 255
  do not occur in C text and are reduced modulo 256.

## Findings

| source | as written | input that shows it | evidently intended | confidence | as-written member | corrected member |
|---|---|---|---|---|---|---|
| getfattr/getfattr.c:402 | allocates `(size + 2) / 3 * 4 + 1` bytes for the base64 encoding, leaving no room for the `0s` prefix | the value "A": lines 409-431 write `0sQQ==` and a NUL, 7 bytes, into 5 | `(size + 2) / 3 * 4 + 3` bytes | high, not executed | `Encode.Base64AllocAsWrittenShort` | `Encode.Base64AllocFits` |
| setfattr/setfattr.c:111 | `next_line` reads one line with a single `fgets` into a buffer of `_POSIX_PATH_MAX + 32` (288) bytes, so a line of 287 characters or more comes back in pieces | 200 zero bytes dumped with `-e hex` under the name `a` print a 404-character line; `next_line` returns its first 287 characters, `a=0x` and an odd count of digits that `decode` rejects, then a 117-character line of zeros, which sets an empty value on an attribute named `000…` | read each line whole, however long | high, not executed | `DumpRestore.HexZerosSplit` | `DumpRestore.DumpThenRestoreWhole` |
| libmisc/walk_tree.c:78 | rejects a child path only when `snprintf` reports more than `FILENAME_MAX` characters | a parent path of 4094 characters with a child named `x`: the 4096-character path is cut to 4095 characters and that other path is walked | `err2 >= FILENAME_MAX` | high, not executed | `FlagWalk.ChildPathAsWrittenTruncates` | `FlagWalk.ChildPath` |
