# caotun: models and proofs

caotun tunnels traffic from a desktop or a phone to a server. These files model its most intricate parts in Dafny
and prove what they are for. `dafny verify dfyconfig.toml` checks the project.

The parts, with their files:

- **QR codes** (`GaloisField`, `GfTables`, `Polynomial`, `ReedSolomon`, `QrData`, `RsBlocks`, `RsDivision`, `Interleave`,
  `QrBytes`, `Placement`, `QrPatterns`, `QrBch`, `QrCapacity`, `QrSymbol`, `QrCode`, and `QrPictures` and `QrWords` with
  the pictures and tables of the standard that these must agree with): the web panel's generator, sections 6 and 7 of
  ISO/IEC 18004:2015. The tables of the field of 256 elements, the generator polynomials and the division, the bit stream,
  the blocks of all levels and versions, their interleaving, the function patterns, the format and version words and the
  zig-zag placement. The end result, `QrCode.Symbol.Make`, is that every module has the
  colour of the standard and a reader of nothing but the modules gets the text back.
- **GIF images** (`BitStrings`, `Lzw`, `Base64`): the compressor and the text encoding of the image of the symbol, with the
  decoders that invert them.
- **Routes** (`Cidr`, `AndroidRoutes`, `CnRoute`, `Forwarder`): intervals of addresses, their complement as aligned blocks on
  Android, the lookup table in Go, and the agreement of both: what is dialled directly is not routed into the tunnel,
  with one block as the exception.
- **WebSocket frames** (`WsFrame`, `WsConn`, `WsStream`, `WsLock`, `WsReply`): sections 5.2 to 5.5 of RFC 6455.
- **Handshake** (`Target`, `Handshake`): the two programs, and all their interleavings over two channels.
- **Protection of the server** (`BanPolicy`, `Quota`): bans, quota, persistence.
- **Names** (`FakeIp`, `DnsWire`, `DnsAnswers`, `Caches`): the fake-address pool, the walkers of DNS messages (section 4.1 of
  RFC 1035) and the two caches.

`Basics` holds the types they share.

## How the code is modelled

Where the source changes state, so does the model: classes with fields, arrays, loops with invariants. Each such method
is proved against a function or a relation, and the results of the table below are about those.

- JavaScript: a cell that was never written counts as 0, as `^=` and `>>>` treat it. If the unwritten cell is the leading
  coefficient of a dividend, its logarithm is `undefined`, the exponent is not a number, and the exclusive or leaves
  every cell as it was: the model's ratio is then 0. Shifts of numbers below 2^32 are shifts of naturals; the buffer of
  the base64 streams is cut to 32 bits.
- Go's `uint32` addition in `last.end+1` wraps in the model, Kotlin's `Long` does not. `byte(len(host))` and `uint16(port)`
  are taken modulo 256 and 65536.
- Library calls are parameters or relations: `net.ParseIP` and `IP.String` (as functions that invert each other),
  `sort.Slice` (a sorted permutation), the message authentication code (any function with results of 32 bytes),
  resolvers, dialers and the clock, which does not go back and is read once an operation. The clock in
  `protection.go` is read up to four times in one `recordFail`.
- Lines of the address table are pairs of an address and a prefix length. The text of a line is not modelled.
- Threads are steps of a state machine: single writes under the lock in `WsLock`, single atomic operations in `Quota`,
  single reads and writes in `Handshake`.

## What the proofs found

- **End of the LZW raster.** The end code is written with the current width. When the table holds exactly 2^width
  entries a reader has already moved to the next width, and reads the end code correctly only if a padding bit follows.
  That goes wrong exactly for a final table of sixteen entries (`Lzw.RasterDecodes`), which takes at most 66 pixels
  (`Lzw.SixteenIsSmall`; `Lzw.ZeroImageFails` has such images). The panel never compresses so small an image:
  `Lzw.SymbolImageDecodes` covers every symbol.
- **Wrapping merge.** A block that ends at 255.255.255.255 makes `last.end+1` zero. If another block follows it in the
  sorted order, the merged table is not separated (`CnRoute.SeparatedIffTopOnlyLast`, an equivalence) and the binary search
  can miss addresses (`CnRoute.IsCnWrapMisses`). It is right for every address if and only if its path behind the first
  such range meets no range that ends lower (`CnRoute.IsCnExactIff`), which a single search shows
  (`CnRoute.ClearIffTopFound`). It never reports an address outside the table (`CnRoute.IsCnSound`).
- **Carrier-grade NAT.** The comment in `DirectOK` names it, but the mask 0xFC takes 100.64.0.0/14 only, a sixteenth
  of 100.64.0.0/10 (`Forwarder.CgnatIsPartial`). That block may be dialled directly and is not excluded from the routes;
  `Forwarder.DialledDirectly` shows that it is the only family with a self-loop.
- **Equal blocks at the peak.** Sizes do not always strictly grow and then strictly shrink: 1 to 6 is emitted as blocks of
  1, 2, 2 and 1 addresses (`Cidr.OneToSix`). Two neighbours are equal if and only if, for some k and some odd multiple m of 2^k,
  start lies in the block of 2^k addresses that ends at m (m included) and end + 1 between m + 2*2^k and m + 3*2^k, the
  latter excluded (`Cidr.EqualNeighboursIff`); all other ranges have the strict shape (`Cidr.GrowThenShrinkIff`).
- **A phone without its table.** If the phone cannot read its table it excludes no table block, while the engine falls back
  to the built-in one: every directly dialled address of the table is then routed back (`Forwarder.DialledWithoutRouteTable`).
- **Torn quota file.** The file is truncated before it is written. A crash in between loses the total and starts a new
  window (`Quota.TornFileLosesTotal`). The stored pair can then decrease (`Quota.TornFileDecreases`), but only if the restart
  falls within the clock reading in which the window of a nonzero total began (`Quota.HarmlessIff`).
- **Size of the fake-address pool.** A limit above the number of addresses to give away makes obtain search for ever
  (`FakeIp.LimitIsExact`); the engine's own pool stays below it.
- **Bans.** The comments promise a ban for ten failures within five minutes. The code bans for ten failures with gaps of at
  most five minutes each (`BanPolicy.SlowFailuresBan`).
- **Patched DNS answers.** A comment at `emptyAnswer` says that all three record counts are zeroed, but only the
  answer count is. For a query that announces an additional record (EDNS) the empty and the synthetic answers are
  malformed: `DnsAnswers.SyntheticReadsBack` and `DnsAnswers.NodataReadsBack` are equivalences.
- **Cache key.** The comment at `dnsCacheGet` speaks of four leading bytes that are left out of the key; the code leaves out two.
- **Long names.** A host name of more than 255 bytes is sent with its length modulo 256; the rest is relayed as data
  (`Handshake.LongNameIsRelayed`). `Target.ReadBack` gives the exact condition for agreement.

## Model

| member | source | states |
|---|---|---|
| GaloisField.AlphaOrder | src/web/qrcode.js:1138-1146 | the element behind the exponent table has order exactly 255: no shorter power of it is 1 |
| GaloisField.AlphaInjective | src/web/qrcode.js:1147-1149 | the exponent table does not repeat an element below 255, so the logarithm loop overwrites nothing |
| GaloisField.AlphaOnto | src/web/qrcode.js:1147-1149 | every nonzero byte is reached, so the logarithm loop fills every cell that glog reads |
| GaloisField.MulAssoc | src/web/qrcode.js:1210-1221 | the product through logarithms is associative |
| GaloisField.MulDistributes | src/web/qrcode.js:1210-1221 | and distributes over the exclusive or |
| GaloisField.MulNonzero | src/web/qrcode.js:1210-1221 | and has no zero divisors |
| GaloisField.MulIsCarryless | src/web/qrcode.js:1132-1172 | multiplication through the two tables is carry-less multiplication modulo the field polynomial, for all pairs of bytes |
| GfTables.ExpRecurrence | src/web/qrcode.js:1141-1146 | powers of alpha satisfy the recurrence that fills the table |
| GfTables.BuildTables | src/web/qrcode.js:1134-1149 | the three loops leave alpha^i in cell i of one table and the logarithm of every nonzero byte in the other |
| GfTables.QRMath.Gexp | src/web/qrcode.js:1162-1172 | gexp of any integer, reduced by the two loops, is alpha to that exponent modulo 255 |
| GfTables.QRMath.Glog | src/web/qrcode.js:1153-1160 | glog throws exactly for zero and otherwise yields the logarithm |
| Polynomial.EvalProduct | src/web/qrcode.js:1210-1221 | evaluation turns the product of polynomials into the product of values |
| Polynomial.EvalStrip | src/web/qrcode.js:1188-1198 | dropping leading zeros keeps every value |
| Polynomial.Multiply | src/web/qrcode.js:1210-1221 | the in-place loops compute the product without leading zeros, and throw exactly when a coefficient on either side is zero |
| Polynomial.ReducedHead | src/web/qrcode.js:1229-1241 | a subtraction step clears the leading coefficient, so the recursion gets strictly shorter polynomials |
| Polynomial.EvalMod | src/web/qrcode.js:1223-1242 | the remainder has the value of the dividend at every root of the divisor |
| Polynomial.Modulo | src/web/qrcode.js:1223-1242 | the recursive division returns exactly when the divisor has no zero coefficient or is longer than the dividend, and then yields the remainder |
| ReedSolomon.SparseWithRootsIsZero | src/web/qrcode.js:966-972 | a polynomial of at most 255 coefficients with k consecutive powers of alpha as roots and at most k nonzero coefficients is zero |
| ReedSolomon.GeneratorRoots | src/web/qrcode.js:966-972 | the generator vanishes at alpha^0 to alpha^(n-1) |
| ReedSolomon.GeneratorAllNonzero | src/web/qrcode.js:966-972 | for n < 255 no coefficient of the generator is zero, so glog is never asked for zero |
| ReedSolomon.GeneratorFull | src/web/qrcode.js:966-972 | for n = 255 the generator has a zero coefficient |
| ReedSolomon.GetErrorCorrectPolynomial | src/web/qrcode.js:966-972 | the loop yields the generator for n <= 255 and throws beyond |
| ReedSolomon.ComputeEcCells | src/web/qrcode.js:292-301 | the error correction cells are the right-aligned remainder; the exact condition under which the call returns |
| ReedSolomon.CodewordRoots | src/web/qrcode.js:287-301 | data followed by its error correction cells vanishes at alpha^0 to alpha^(n-1), for every data block |
| ReedSolomon.EcCellsUnique | src/web/qrcode.js:287-301 | no other cells complete the data to a codeword |
| ReedSolomon.Distance | src/web/qrcode.js:287-301 | two different codewords differ in more than n places |
| ReedSolomon.CorrectionIsUnique | src/web/qrcode.js:287-301 | a received word is within n/2 errors of at most one codeword |
| QrData.BitBuffer.PutBit | src/web/qrcode.js:1586-1598 | one bit is appended to the buffer, the bytes stay bytes and the bits behind the end stay zero |
| QrData.BitBuffer.Put | src/web/qrcode.js:1576-1580 | the low bits of a number are appended, most significant bit first |
| QrData.WriteStream | src/web/qrcode.js:338-343 | mode, length and bytes of every segment, in order |
| QrData.Terminate | src/web/qrcode.js:359-367 | terminator if there is room for it, then zeros up to a byte |
| QrData.Pad | src/web/qrcode.js:369-381 | 0xEC and 0x11 in turn until exactly the data codewords are there |
| QrData.CreateCodewords | src/web/qrcode.js:332-381 | throws exactly when the stream does not fit, and otherwise yields exactly totalDataCount bytes |
| QrData.ReadBack | src/web/qrcode.js:332-381 | a reader of segments gets back mode, length and bytes of every segment, for every data list that fits |
| QrData.LengthsFit | src/web/qrcode.js:351-357 | a segment of a stream that fits is shorter than the number of codewords, so its length field does not wrap |
| QrData.SegmentFormat | src/web/qrcode.js:976-1015 | a segment starts with 0100 and a length of 8 bits up to version 9 and of 16 bits from version 10 on |
| QrData.PaddedPlaces | src/web/qrcode.js:359-381 | every bit of the data codewords: the stream, zeros up to a byte, and then 11101100 and 00010001 in turn, for every stream and capacity |
| RsBlocks.GetRsBlocks | src/web/qrcode.js:1507-1549 | the blocks of the table row of any level, and the exception outside versions 1 to 40 |
| RsBlocks.BlockFacts | src/web/qrcode.js:1253-1505 | at every level and in every version each block is a code of at most 255 symbols with at most 30 check symbols, the total number of codewords does not depend on the level, and the length fields can count the data codewords |
| RsBlocks.CodewordsFill | src/web/qrcode.js:1253-1505 | the codewords of a version fill the modules that the function patterns leave, except for at most seven |
| RsDivision.RowsAreShaped | src/web/qrcode.js:1253-1505 | every row of the table deals the codewords of its version out to the number of blocks and check symbols of the standard, the blocks with one more data codeword last |
| RsDivision.RowUnique | src/web/qrcode.js:1253-1505 | and only one row does: number of blocks, check symbols and total determine it |
| Interleave.InterleavedLength | src/web/qrcode.js:303-329 | the output array is exactly filled |
| Interleave.DeinterleavesInterleaved | src/web/qrcode.js:303-329 | taking the blocks out of the interleaved sequence gives them back |
| Interleave.InterleavesDeinterleaved | src/web/qrcode.js:303-329 | and every sequence of that length is the interleaving of the blocks taken out of it: the interleaving is a permutation of the cells |
| Interleave.PositionOrder | src/web/qrcode.js:306-325 | all first cells in the order of the blocks come before all second cells, and so on |
| Interleave.InterleavedAt | src/web/qrcode.js:306-325 | cell i of block r stands at that place |
| QrBytes.MakeBlocks | src/web/qrcode.js:267-301 | the blocks are consecutive pieces of the buffer, each with its error correction cells, and nothing throws |
| QrBytes.CreateBytes | src/web/qrcode.js:267-330 | the interleaved data cells followed by the interleaved error correction cells |
| QrBytes.CreateData | src/web/qrcode.js:332-384 | throws exactly for a data list that does not fit the version, and otherwise yields the codewords |
| QrBytes.ChooseType | src/web/qrcode.js:424-450 | make picks the smallest version that fits, and 40 if none below it does |
| QrBytes.BlockIsCodeword | src/web/qrcode.js:267-301 | every block of the output is a Reed-Solomon codeword |
| QrBytes.DataCellAt | src/web/qrcode.js:275-316 | where each cell of the buffer stands among the codewords |
| QrBytes.CheckCellAt | src/web/qrcode.js:318-325 | and each check cell, behind all data cells |
| QrBytes.ReaderGetsSegments | src/web/qrcode.js:267-384 | a reader that de-interleaves by block sizes finds codewords in every block and reads exactly the written segments from their data cells |
| QrBytes.ErrorsAreCorrectable | src/web/qrcode.js:267-301 | with errors in up to half as many cells of a block as it has check cells, the written codeword is the only one in reach |
| Placement.WalkVisitsOnce | src/web/qrcode.js:225-264 | the zig-zag walk visits every module outside column 6 exactly once, for every odd side length |
| Placement.MapData | src/web/qrcode.js:216-265 | the loops put the i-th bit, under the mask, into the i-th null module of the walk and change nothing else |
| Placement.PlacedCells | src/web/qrcode.js:233-253 | each free module holds its bit under the mask, every other module is as it was |
| Placement.WalkReadsBack | src/web/qrcode.js:216-265 | reading in the order of the walk with the same mask returns the bits of the codewords, and zeros after them |
| Placement.NoModuleStaysNull | src/web/qrcode.js:216-265 | no module stays null if and only if column 6 was filled before |
| QrPictures.FlipsByTile | src/web/qrcode.js:940-963 | for every mask and every module: the mask inverts it if and only if the tile of the standard, repeated over the symbol, has it marked |
| QrPictures.MaskedByTile | src/web/qrcode.js:233-253 | a free module is dark if its bit is set or its mask marks it, but not both |
| QrPictures.WalkOrder | src/web/qrcode.js:225-264 | the place in the walk of every module outside column 6: pairs of columns from the right, the first one upwards, in each row the right module first |
| QrPatterns.SetupPositionProbePattern | src/web/qrcode.js:75-96 | the nine by nine pattern, cut off at the border, and nothing else |
| QrPatterns.SetupTimingPattern | src/web/qrcode.js:116-131 | the timing patterns where nothing was set before, and nothing else |
| QrPatterns.PositionsFacts | src/web/qrcode.js:863-904 | in every version the alignment positions start at the timing line, end at the position patterns and are at least twelve modules apart, and their number is the one of the standard |
| QrPatterns.SetupPositionAdjustPattern | src/web/qrcode.js:133-162 | the alignment patterns stand exactly where the crossing of two positions was empty when the method began, and nothing else changes |
| QrPatterns.SetupTypeInfo | src/web/qrcode.js:179-214 | both copies hold the format word bit by bit, the fixed module is set, and nothing else changes |
| QrPatterns.SetupTypeNumber | src/web/qrcode.js:164-177 | both copies hold the version word bit by bit, and nothing else changes |
| QrPatterns.SetupPatterns | src/web/qrcode.js:43-66 | after the set-up methods a module is filled if and only if it lies in a position, timing, alignment, format or version area, and each of them has the colour of its area: position and alignment patterns, timing lines that alternate through the alignment patterns on them, both copies of both words, light in a trial symbol |
| QrPatterns.TimingColours | src/web/qrcode.js:116-131 | the timing pattern is set around alignment patterns and still alternates over its whole length, since every position is even |
| QrPictures.ProbePicture | src/web/qrcode.js:75-94 | the position pattern as a picture |
| QrPictures.AdjustPicture | src/web/qrcode.js:148-158 | the alignment pattern as a picture |
| QrPictures.PositionsSpaced | src/web/qrcode.js:863-904 | the alignment positions of every version: one on the timing line and the others evenly spaced up to the position patterns |
| QrPictures.InfoPlaces | src/web/qrcode.js:179-214 | the fifteen modules of either copy of the format word, one by one |
| QrPictures.LevelBits | src/web/qrcode.js:835-840 | the two bits of each level |
| QrBch.GetBchTypeInfo | src/web/qrcode.js:911-926 | under the mask, a multiple of the generator G15 with the data on top |
| QrBch.GetBchTypeNumber | src/web/qrcode.js:928-934 | a multiple of the generator G18 with the version on top |
| QrBch.WordUnique | src/web/qrcode.js:920-934 | there is exactly one such word for each data |
| QrBch.InfoDistance | src/web/qrcode.js:920-926 | the format words of two different levels or masks differ in at least seven of fifteen places |
| QrBch.InfoIsCorrectable | src/web/qrcode.js:920-926 | with up to three wrong modules only one level and mask is within reach |
| QrBch.NumberDistance | src/web/qrcode.js:928-934 | the words of two different versions differ in at least eight of eighteen places |
| QrWords.FormatWord | src/web/qrcode.js:911-926 | the format word of every level and mask is the one of the table of the standard |
| QrWords.VersionWord | src/web/qrcode.js:928-934 | the version words of 7, 8, 21, 32 and 40 are those of the standard |
| QrCapacity.DataCellsCount | src/web/qrcode.js:57-73 | the walk meets every module outside the function patterns exactly once, and their number is the one of the standard, for each of the forty versions |
| QrCapacity.Capacity | src/web/qrcode.js:43-73 | in every version and at every level the codewords fit into these modules, and less than one further codeword would |
| QrSymbol.SymbolReads | src/web/qrcode.js:43-73 | once just the function modules are filled and the format information stands, placing the codewords decides every module, and a reader that knows nothing but the modules (version by size, level and mask from the format word, text from the walk) gets exactly the written segments |
| QrSymbol.SymbolDrawn | src/web/qrcode.js:43-73 | placing the codewords leaves every function module its colour and gives every other module its bit under the mask, for trial and real symbols |
| QrCode.Symbol.AddData | src/web/qrcode.js:386-413 | the data list grows and the cached codewords are dropped |
| QrCode.Symbol.MakeImpl | src/web/qrcode.js:43-73 | returns exactly for a data list that fits a version of at most 40; then every module is decided and has the colour of the standard, function patterns with the words of level, mask and version as well as data under the mask, and a symbol that is not a trial is read back; cached codewords always belong to the present data list |
| QrCode.Symbol.GetBestMaskPattern | src/web/qrcode.js:96-114 | the mask with the fewest lost points, the first of several |
| QrCode.Symbol.Make | src/web/qrcode.js:424-451 | the whole way for every level, data list and given version: the smallest version that fits if none was given, the best mask, every module of the symbol with its colour, and a reader of the modules alone finds that level, that mask and the data list |
| BitStrings.BitOutputStream.Write | src/web/qrcode.js:2100-2116 | `length over` is thrown exactly for data that does not fit, and otherwise exactly its bits are appended |
| BitStrings.BitOutputStream.Flush | src/web/qrcode.js:2118-2122 | the last byte is filled up with zeros |
| BitStrings.ToBitsAt | src/web/qrcode.js:2105-2113 | the least significant bit of a number comes first |
| Lzw.LzwTable.Add | src/web/qrcode.js:2196-2202 | a new key gets the next code; a known key throws |
| Lzw.GetLzwRaster | src/web/qrcode.js:2127-2187 | the loop writes clear code, data codes and end code without ever throwing |
| Lzw.CodeFits | src/web/qrcode.js:2162-2181 | every code fits the bit width it is written with |
| Lzw.EncodeWidth | src/web/qrcode.js:2164-2171 | the width grows exactly when the table outgrows it |
| Lzw.DecodeEncode | src/web/qrcode.js:2150-2181 | a decoder that lags one entry behind, with its own table and widths (the code-not-yet-defined case, at most 4096 entries and 12 bits), returns exactly the pixels of the data codes |
| Lzw.PixelCodes | src/web/qrcode.js:2129-2141 | the four colours are the first codes, and clear and end code the next ones |
| Lzw.RasterLength | src/web/qrcode.js:2127-2187 | of all final table sizes only sixteen entries end a raster at a byte boundary right where the reader changes its width |
| Lzw.SixteenIsSmall | src/web/qrcode.js:2150-2171 | such a table means an image of at most 66 pixels |
| Lzw.RasterDecodes | src/web/qrcode.js:2127-2187 | a reader of the whole raster finds no end if and only if the final table has sixteen entries, and otherwise gets exactly the pixels; every image of more than 66 pixels is read back |
| Lzw.SymbolImageDecodes | src/web/qrcode.js:557-566 | so the image of every symbol, whatever cell size and margin, is read back |
| Lzw.ZeroImageFails | src/web/qrcode.js:2127-2187 | 56 to 66 equal pixels are not read back: the bound of 66 is the best one |
| Base64.Base64EncodeOutputStream.WriteByte | src/web/qrcode.js:1909-1919 | a byte is taken and whole groups of six bits are written |
| Base64.Base64EncodeOutputStream.Flush | src/web/qrcode.js:1921-1937 | the text is the encoding of all bytes taken, padding included |
| Base64.EncodeAll | src/web/qrcode.js:2233-2240 | the text of a whole byte sequence |
| Base64.Base64DecodeInputStream.Read | src/web/qrcode.js:1958-1989 | one byte, the end, or the exception, and exactly the text and the bits that the next call starts from, so every later call is determined, also after the end or an exception |
| Base64.StepDecodes | src/web/qrcode.js:1958-1989 | the results of the calls up to the end, put together, are the decoding of the text |
| Base64.DecodeAll | src/web/qrcode.js:1949-1989 | reading to the end yields all bytes of the text, or throws where the text is malformed |
| Base64.DecodesEncoded | src/web/qrcode.js:1879-1989 | decoding the encoded text returns the bytes, for every length |
| Base64.EncodedLength | src/web/qrcode.js:1921-1937 | four characters for every three bytes begun |
| Base64.UpperCase | src/web/qrcode.js:1892-1908 | 0 to 25 are the capital letters |
| Base64.LowerCase | src/web/qrcode.js:1892-1908 | 26 to 51 the small ones |
| Base64.DigitsAndSigns | src/web/qrcode.js:1892-1908 | 52 to 63 the digits, plus and slash |
| Base64.GroupOfThree | src/web/qrcode.js:1879-1937 | three bytes as four characters, each from its six bits |
| Base64.EncodedInGroups | src/web/qrcode.js:1909-1937 | groups of three bytes are encoded one after the other |
| Base64.BlanksAreSkipped | src/web/qrcode.js:1975-1977 | white space changes nothing |
| Base64.OthersThrow | src/web/qrcode.js:1989-2003 | a character outside the alphabet that is neither white space nor the padding throws |
| AndroidRoutes.IpRangeFacts | mobile/android/app/src/main/kotlin/com/caotun/app/TunService.kt:208-215 | a range holds its address, lies in 32-bit space and starts aligned |
| AndroidRoutes.IpRangeByPrefix | mobile/android/app/src/main/kotlin/com/caotun/app/TunService.kt:208-215 | a range holds exactly the addresses that agree with its address in the first `prefix` bits |
| AndroidRoutes.SentinelBlock | mobile/android/app/src/main/kotlin/com/caotun/app/TunService.kt:169-181 | the sentinel block is 10.111.0.0 to 10.111.0.3 |
| AndroidRoutes.Merge | mobile/android/app/src/main/kotlin/com/caotun/app/TunService.kt:158-167 | merging keeps the union and leaves ranges at least one address apart |
| AndroidRoutes.Carve | mobile/android/app/src/main/kotlin/com/caotun/app/TunService.kt:170-181 | the sentinel block is taken out of the ranges and nothing else |
| AndroidRoutes.Complement | mobile/android/app/src/main/kotlin/com/caotun/app/TunService.kt:183-191 | the loop emits the gaps between the ranges |
| AndroidRoutes.GapsOrdered | mobile/android/app/src/main/kotlin/com/caotun/app/TunService.kt:183-191 | the emitted blocks are aligned, disjoint and in order |
| AndroidRoutes.GapsExact | mobile/android/app/src/main/kotlin/com/caotun/app/TunService.kt:183-191 | they hold exactly the addresses outside the ranges |
| AndroidRoutes.SixteenBlocks | mobile/android/app/src/main/kotlin/com/caotun/app/TunService.kt:130-150 | the /16 blocks that the table touches, each once |
| AndroidRoutes.TouchesMeans | mobile/android/app/src/main/kotlin/com/caotun/app/TunService.kt:141-148 | a line touches a /16 block if and only if an address of its block lies in it |
| AndroidRoutes.Exclusions | mobile/android/app/src/main/kotlin/com/caotun/app/TunService.kt:112-156 | the excluded addresses: the fixed blocks, the server, the touched /16 blocks |
| AndroidRoutes.BuildRoutes | mobile/android/app/src/main/kotlin/com/caotun/app/TunService.kt:112-191 | for every table and server address the routes are aligned and disjoint, and their union is every address that is not excluded, plus 10.111.0.0/30 |
| Forwarder.ExcludedMeans | mobile/android/app/src/main/kotlin/com/caotun/app/TunService.kt:112-156 | an address is kept out of the routes if and only if it is in a fixed block, is the server, or shares its first sixteen bits with an address of the table |
| Cidr.ExponentMax | mobile/android/app/src/main/kotlin/com/caotun/app/TunService.kt:222-233 | the block chosen at an address is the largest that is aligned there and ends in the range |
| Cidr.EmitCidr | mobile/android/app/src/main/kotlin/com/caotun/app/TunService.kt:218-240 | the loops add exactly these blocks and count them |
| Cidr.EmitExact | mobile/android/app/src/main/kotlin/com/caotun/app/TunService.kt:218-240 | the blocks hold exactly the addresses of the range |
| Cidr.EmitOrdered | mobile/android/app/src/main/kotlin/com/caotun/app/TunService.kt:218-240 | aligned, disjoint and in order |
| Cidr.EmitMaximal | mobile/android/app/src/main/kotlin/com/caotun/app/TunService.kt:218-240 | every aligned block inside the range lies within one emitted block |
| Cidr.EmitShortest | mobile/android/app/src/main/kotlin/com/caotun/app/TunService.kt:218-240 | no cover of the range by aligned blocks has fewer blocks |
| Cidr.EmitShape | mobile/android/app/src/main/kotlin/com/caotun/app/TunService.kt:218-240 | block sizes strictly grow and then strictly shrink, with at most two equal ones at the peak, and there are at most 62 |
| Cidr.StraddleGivesPair | mobile/android/app/src/main/kotlin/com/caotun/app/TunService.kt:218-240 | a range around two aligned blocks on either side of an odd multiple, with less than a block more on each side, is emitted with those two as equal neighbours |
| Cidr.PairGivesStraddle | mobile/android/app/src/main/kotlin/com/caotun/app/TunService.kt:218-240 | equal neighbours arise in no other way |
| Cidr.EqualNeighboursIff | mobile/android/app/src/main/kotlin/com/caotun/app/TunService.kt:218-240 | two neighbouring blocks are equal if and only if start and end straddle an odd multiple in this way, a condition on start and end alone |
| Cidr.GrowThenShrinkIff | mobile/android/app/src/main/kotlin/com/caotun/app/TunService.kt:218-240 | the sizes strictly grow up to one block and strictly shrink after it if and only if they do not |
| Cidr.OddMultipleMeans | mobile/android/app/src/main/kotlin/com/caotun/app/TunService.kt:218-240 | what an odd multiple of a power of two is, as arithmetic |
| Cidr.OneToSix | mobile/android/app/src/main/kotlin/com/caotun/app/TunService.kt:218-240 | 1 to 6 is emitted as 1/32, 2/31, 4/31, 6/32 |
| CnRoute.SortSlice | src/cnroute/cnroute.go:66 | sorted by start, and the same ranges |
| CnRoute.MergeInPlace | src/cnroute/cnroute.go:67-79 | the merge through a pointer into the slice never writes past what it has read, and leaves the merged ranges at the front |
| CnRoute.MergeAllFacts | src/cnroute/cnroute.go:67-79 | merging keeps the set of addresses, wrapping of the end plus one included |
| CnRoute.SeparatedIffTopOnlyLast | src/cnroute/cnroute.go:70-78 | merged ranges are strictly separated if and only if no range but the last ends at 255.255.255.255 |
| CnRoute.LoadCnFrom | src/cnroute/cnroute.go:45-82 | the loaded table is the merge of the sorted blocks, or nil without any |
| CnRoute.IsCN | src/cnroute/cnroute.go:87-95 | the binary search, step by step |
| CnRoute.IsCnSound | src/cnroute/cnroute.go:87-95 | an address that is found lies in some block of the table, for every table |
| CnRoute.MergeAllEnds | src/cnroute/cnroute.go:67-79 | if every block at or after one that ends at 255.255.255.255 ends there too, the ends of the merged ranges strictly increase |
| CnRoute.LookupExactIff | src/cnroute/cnroute.go:87-95 | on the merged ranges the binary search finds exactly the covered addresses, for every address, if and only if no range that ends below 255.255.255.255 lies on its path behind the first range that ends there |
| CnRoute.IsCnExactIff | src/cnroute/cnroute.go:45-95 | so load then lookup is the linear scan over the blocks, for every address, if and only if the search path of the loaded table is clear |
| CnRoute.ClearIffTopFound | src/cnroute/cnroute.go:87-95 | one search shows it: the path is clear if and only if the search for 255.255.255.255 ends at the first range that reaches it, or behind all ranges if none does |
| CnRoute.IsCnExact | src/cnroute/cnroute.go:45-95 | a condition on the blocks that suffices: if every block at or after one that ends at 255.255.255.255 ends there too, repeated and nested top blocks included, an address is found if and only if it lies in the table |
| CnRoute.IsCnBuriedHarmless | src/cnroute/cnroute.go:87-95 | the condition on the blocks is not needed: a table that breaks it and whose path is clear |
| CnRoute.IsCnWrapMisses | src/cnroute/cnroute.go:74 | 128.0.0.0/1 with 192.0.0.0/8: the sum wraps and 208.0.0.0 is not found |
| Forwarder.DirectOK | src/cnroute/cnroute.go:99-108 | private address or table address, and never without a table |
| Forwarder.PrivateMeans | src/cnroute/cnroute.go:103-106 | without a table lookup exactly the addresses of 10.0.0.0/8, 172.16.0.0/12, 192.168.0.0/16, 127.0.0.0/8, 169.254.0.0/16 and 100.64.0.0/14 are dialled directly |
| Forwarder.CgnatIsPartial | src/cnroute/cnroute.go:104 | of 100.64.0.0/10, the block of carrier-grade NAT that the comment means, the mask 0xFC takes the first sixteenth only |
| Forwarder.Choose | src/tun2sock/tun2sock.go:114-126 | the order of the decisions, and exactly when an address is dialled directly |
| Forwarder.FixedIsInFixed | mobile/android/app/src/main/kotlin/com/caotun/app/TunService.kt:113-120 | the fixed exclusions are the named blocks |
| Forwarder.DialledDirectly | src/tun2sock/tun2sock.go:114-126 | an address that is dialled directly lies in an installed route if and only if it is in 100.64.0.0/14, is not the server and is in no touched /16: no self-loop elsewhere, for every table read by both sides |
| Forwarder.DialledWithoutRouteTable | mobile/android/app/src/main/kotlin/com/caotun/app/TunService.kt:151-156 | if the phone could not read its table while the engine has one, a directly dialled address is routed back if and only if it is no fixed exclusion and not the server, and then it lies in 100.64.0.0/14 or in the table |
| Forwarder.CgnatExceptionNeeded | src/cnroute/cnroute.go:104 | an address of 100.64.0.0/14 that is dialled directly and lies in an installed route |
| WsFrame.MaskTwice | src/ws/ws.go:76-80 | masking twice gives the data back |
| WsFrame.MaskBits | src/ws/ws.go:126-130 | every bit of masked data is the exclusive or of the data bit and the bit of the key byte in turn |
| WsFrame.HeadFormat | src/ws/ws.go:105-125 | every field of the header: FIN, no extensions, opcode, mask bit, the shortest length encoding and the key |
| WsFrame.BigEndianAt | src/ws/ws.go:111-122 | every byte of a length, the most significant one first |
| WsFrame.Opcodes | src/ws/ws.go:83-106 | the opcodes on the wire |
| WsFrame.BigEndianRoundTrip | src/ws/ws.go:53-67 | the extended lengths are read back |
| WsFrame.ParseEncode | src/ws/ws.go:42-80 | reading a written frame gives its opcode and payload back, in either mask mode and with every length encoding, and leaves exactly what follows |
| WsConn.Conn.WriteFrame | src/ws/ws.go:102-137 | one whole frame is appended to what was sent, or as much of it as the connection takes before it fails, which is reported |
| WsConn.Conn.Write | src/ws/ws.go:139-144 | the data as one binary frame, or its first part and the error |
| WsConn.Conn.Read | src/ws/ws.go:33-100 | leftovers first, then frames up to the next data frame; every ping on the way is answered, and a failing answer ends the read with an error |
| WsConn.FirstFrameRead | src/ws/ws.go:33-100 | what a read makes of the first frame for every opcode: the end of the stream, a ping to answer, a frame passed over, data as far as it fits, or an error |
| WsConn.ClientFrame | src/ws/ws.go:87-137 | a whole frame of a client, byte by byte |
| WsStream.ReadTakes | src/ws/ws.go:42-100 | a read moves data from the wire to the reader and the leftovers without loss or change of order, and answers the pings it passes |
| WsStream.StreamRefines | src/ws/ws.go:33-144 | for every sequence of frames, control frames between them, mask modes and buffer sizes: delivered, left over and on the wire together are what was written, and pongs are the pings in order |
| WsStream.ReadProgress | src/ws/ws.go:33-100 | a read into a nonempty buffer delivers something when data is waiting |
| WsLock.RunKeepsInv | src/ws/ws.go:102-137 | at every moment the wire is whole frames in the order of the lock, plus the part of the holder |
| WsLock.LockKeepsFramesWhole | src/ws/ws.go:87-137 | any number of callers with any frames, at the granularity of single writes: with the lock free, the wire is exactly the encoded frames of the log, each caller's in the order of its calls |
| WsReply.RunKeepsInv | src/ws/ws.go:33-144 | the invariant of a reader and writers on one connection over every interleaving |
| WsReply.PongsAnswerPings | src/ws/ws.go:33-144 | at every moment the pongs whole on the wire carry the payloads of the first pings taken, in order, with at most one missing; with the lock free and the reader outside writeFrame, they are exactly the pings that arrived and are not still waiting |
| Target.Conn.ReadFull | src/protocol/protocol.go:28 | the next bytes, or an error when too few arrive |
| Target.WriteTarget | src/protocol/protocol.go:66-83 | the bytes of the message, or its first part and the error of the write |
| Target.ReadTarget | src/protocol/protocol.go:26-63 | what the sequence of reads makes of a stream, and what it leaves |
| Target.WireFormat | src/protocol/protocol.go:66-83 | the message byte by byte: the type, four or sixteen address bytes or a length and a name, and the port |
| Target.DecodedByType | src/protocol/protocol.go:26-63 | what is read, on the bytes of the input: which types are refused, how many bytes each one takes, and what they say |
| Target.ReadBack | src/protocol/protocol.go:26-83 | reading what was written returns the canonical host and the port if and only if the name has at most 255 bytes and the port is one; what follows is left for the relay, and so are the bytes of a longer name |
| Target.MoreFollows | src/protocol/protocol.go:26-63 | a complete target is read the same whatever follows it |
| Target.CanonicalSameAddress | src/protocol/protocol.go:66-77 | the canonical form names the same address |
| Handshake.FinishTunnel | src/tunnel/client.go:386-418 | what the client writes and returns for every input and every point at which a write may fail |
| Handshake.HandleServerConn | src/server/server.go:142-189 | what the server writes and how it ends for every input and every point at which a write may fail; a failure is counted exactly for a whole proof that is wrong, a success exactly for a whole one that is right, on the bytes of the input alone |
| Handshake.WhyServerStops | src/server/server.go:142-189 | on the bytes that arrive and the room for those that leave, exactly when the server stops for which reason, and when it relays to which target: only a whole and wrong proof is a failure of authentication |
| Handshake.WhatServerSends | src/server/server.go:142-189 | the nonce and the status byte 0, 1, 2 or none, each as far as the connection takes it |
| Handshake.WhyClientCloses | src/tunnel/client.go:386-418 | exactly when the client opens the tunnel or closes it for which reason, and what it has sent |
| Handshake.RunKeepsInv | src/server/server.go:142-205 | the invariant of the two sides and the two channels over every run |
| Handshake.ClientSucceeds | src/tunnel/client.go:386-418 | the client succeeds only if the proofs matched, the quota was not used up when checked, the dial succeeded unless the port is 53, and the server relays to the same target |
| Handshake.RelaysFromFirstByte | src/server/server.go:179-205 | the first byte relayed is the first byte the application sent, in both directions, and nothing is relayed earlier |
| Handshake.LongNameIsRelayed | src/protocol/protocol.go:74 | with a name of more than 255 bytes the rest of the name is relayed in front of the data |
| Handshake.NoDeadlock | src/server/server.go:142-189 | until both sides are done one of them can take its next step |
| Handshake.HandshakeEnds | src/server/server.go:142-189 | every run takes at most eleven steps of the handshake, so with no deadlock every run that goes on ends it |
| Handshake.Outcomes | src/server/server.go:142-189 | without a broken connection both sides end the same way, determined by keys, quota and dial |
| Handshake.RunsAgreeWithPrograms | src/tunnel/client.go:386-418 | interleaved runs end as the two programs do on the bytes the other side wrote |
| BanPolicy.TrafficServer.RecordFail | src/server/protection.go:104-135 | the counting of one failure, with the cleaning of a large map |
| BanPolicy.TrafficServer.Banned | src/server/protection.go:94-102 | banned exactly while the stored time lies ahead and banning is on |
| BanPolicy.TrafficServer.RecordOK | src/server/protection.go:137-141 | the record of the address goes |
| BanPolicy.TrafficServer.SetBanEnabled | src/server/protection.go:145-156 | both locked sections of one call: switching off drops every record |
| BanPolicy.EvictionUnobservable | src/server/protection.go:110-118 | the cleaned map and an uncleaned one answer alike for every address at every later time |
| BanPolicy.BannedExactly | src/server/protection.go:94-156 | for the evicting table of the server, over every order of its locked sections: banned if and only if banning is on and a tenth failure of a chain is less than 30 minutes old; the counter is the length of the current chain modulo ten, and a record lives at least 30 minutes after a failure |
| BanPolicy.FewFailuresNeverBan | src/server/protection.go:104-135 | fewer than ten failures since the last success never ban |
| BanPolicy.BurstBans | src/server/protection.go:94-135 | of failures at one moment, ten and no fewer ban, until exactly thirty minutes later |
| BanPolicy.ChainNext | src/server/protection.go:124-126 | a gap of exactly five minutes continues a chain, and a longer one starts over |
| BanPolicy.WhatLifts | src/server/protection.go:137-156 | a success of the address or a release of all of them lifts a ban and forgets its failures; calls for other addresses change nothing |
| BanPolicy.FailForgets | src/server/protection.go:110-118 | which records a failure drops: with more than 4096 of them, those without a failure for thirty minutes |
| BanPolicy.SlowFailuresBan | src/server/protection.go:124-134 | ten failures five minutes apart do ban |
| Quota.RunKeepsInv | src/server/protection.go:80-92 | the invariant of counter, window and file over every interleaving whose restarts are harmless, crashes between truncating and writing the file and failing writes included |
| Quota.HarmlessIff | src/server/protection.go:64-72 | the exact condition on a restart: the file can be read, or nothing was written, or the last written window began at an earlier reading of the clock, or its total is 0; if and only if this holds, no course of events up to the next restart undercuts the last written pair |
| Quota.LastNeverDecreases | src/server/protection.go:188-203 | over every run whose restarts meet that condition, the last pair of window start and total that was written whole never decreases |
| Quota.DiskNeverDecreases | src/server/protection.go:188-203 | nor does the pair that a restart can read |
| Quota.DiskStaysReadable | src/server/protection.go:188-203 | the file becomes unreadable by truncating it only |
| Quota.TornFileLosesTotal | src/server/protection.go:64-72 | a crash between truncating and writing loses the total and starts a new window |
| Quota.TornFileDecreases | src/server/protection.go:188-203 | a run that shows the condition on restarts is needed |
| Quota.TotalIsCounted | src/server/protection.go:206-218 | between rollovers and restarts the total grows by exactly the bytes counted |
| Quota.RolloverBegins | src/server/protection.go:80-88 | exactly when a rollover begins, in days; nothing else lowers the total of a running process |
| Quota.RolloverRun | src/server/protection.go:83-91 | a whole rollover with bytes counted between its steps: the window begins now, the file holds what was counted before it was written, and no byte is lost |
| Quota.RestartRestores | src/server/protection.go:64-72 | a restart goes on from a readable file, and starts a window with nothing counted without one |
| FakeIp.NextIsFree | src/tun2sock/fakeip.go:61-72 | the next candidate is never in use, so the loop ends in its first round |
| FakeIp.Pool.Obtain | src/tun2sock/fakeip.go:50-73 | the address of the domain, inside the block without its first and last address |
| FakeIp.NewDomainGets | src/tun2sock/fakeip.go:50-73 | which address a new domain gets in every reachable state, and when the table starts over |
| FakeIp.Pool.Lookup | src/tun2sock/fakeip.go:75-87 | the domain of an address of the block, if it is in use |
| FakeIp.RunKeepsInv | src/tun2sock/fakeip.go:50-73 | in every reachable state the two tables are inverse, the addresses in use are those of the counter, and the counter is one more than the entries |
| FakeIp.LookupUntilReset | src/tun2sock/fakeip.go:50-87 | an address handed out looks up to its domain until the table starts over |
| FakeIp.ExhaustedPoolHasNoCandidate | src/tun2sock/fakeip.go:61-72 | with every address in use no counter value is free |
| FakeIp.BeyondLimitHangs | src/tun2sock/fakeip.go:50-73 | with a larger limit, as many new names as the block has addresses and one more reach that state, and obtain does not return |
| FakeIp.LimitIsExact | src/tun2sock/fakeip.go:50-73 | every obtain of every run returns if and only if the limit is at most size - 2 |
| FakeIp.EnginePoolValid | src/tun2sock/tun2sock.go:67 | the engine's own pool satisfies the bound |
| DnsWire.DnsQName | src/tun2sock/fakeip.go:90-115 | the name, type and end of the question, or the rejection |
| DnsWire.ProtocolQname | src/protocol/dns.go:35-56 | the joined name of a laxer walk |
| DnsWire.QueryType | src/server/dnsrelay.go:82-102 | the type behind the name, or 0 |
| DnsWire.EmptyAnswer | src/server/dnsrelay.go:105-127 | a copy of header and question with flags and answer count patched, or nil |
| DnsWire.SyntheticA | src/tun2sock/fakeip.go:129-144 | header and question patched, and one address record |
| DnsWire.WalksAgree | src/tun2sock/fakeip.go:90-115 | a name that dnsQName accepts is walked alike by the other three |
| DnsWire.AgreeOnQuery | src/server/dnsrelay.go:82-127 | for every accepted query the four functions agree on name, type, end and empty answer |
| DnsWire.LabelsOfEncoding | src/tun2sock/fakeip.go:90-115 | every list of valid labels is read back from its encoding |
| DnsWire.LabelsExact | src/tun2sock/fakeip.go:90-115 | the walk yields labels and an end if and only if the encoding of these labels, of 1 to 63 bytes each, stands there and ends there |
| DnsWire.LooseExact | src/protocol/dns.go:35-56 | the laxer walk takes labels of up to 255 bytes, and the end of the message for the end of the name |
| DnsWire.SkipExact | src/server/dnsrelay.go:82-127 | the skipping walks end behind the encoding of some labels of up to 255 bytes, and nowhere else |
| DnsWire.JoinOneMore | src/tun2sock/fakeip.go:104-114 | labels are joined by dots |
| DnsWire.ParsedExact | src/tun2sock/fakeip.go:90-115 | exactly which messages are accepted, and the name, type and end found in them |
| DnsWire.QueryRoundTrip | src/tun2sock/fakeip.go:90-115 | a query for valid labels is accepted with the joined name and its type |
| DnsAnswers.SyntheticReadsBack | src/tun2sock/fakeip.go:129-144 | the answer to an accepted query reads as a whole message if and only if the query announced one question and no further records; it then holds that question and one address record for its name |
| DnsAnswers.NodataReadsBack | src/tun2sock/fakeip.go:147-152 | the same for the empty answers |
| DnsAnswers.HandleDns | src/tun2sock/tun2sock.go:207-247 | the order of the decisions for one datagram, the reply and the pool |
| DnsAnswers.FirstUsableMeans | src/tun2sock/tun2sock.go:219-237 | the reply of the first resolver whose reply has at least twelve bytes, and none if and only if there is no such resolver |
| DnsAnswers.AddressBytes | src/tun2sock/fakeip.go:129-144 | the bytes of an address in the answer, the first number first |
| DnsAnswers.AnswerLooksUp | src/tun2sock/tun2sock.go:245-246 | the address a reader takes out of the answer looks up to the queried name, whatever is asked later, until the table starts over |
| Caches.DnsCache.Get | src/server/dnsrelay.go:130-141 | a stored response with the identifier of the query, or a miss |
| Caches.DnsCache.Put | src/server/dnsrelay.go:143-151 | the entry of the query, after a clearing when the table is too large |
| Caches.DnsHit | src/server/dnsrelay.go:130-151 | a hit is the last response stored for a query equal but for its identifier, at most 60 seconds ago |
| Caches.DnsStored | src/server/dnsrelay.go:143-151 | a stored response can be found for 60 seconds; which others stay in the table |
| Caches.DnsBounded | src/server/dnsrelay.go:143-151 | at most 4097 entries, over every run |
| Caches.Router.Lookup | src/tunnel/route.go:88-99 | a fresh decision, or a miss that drops the stale one |
| Caches.Router.Store | src/tunnel/route.go:114-121 | the decision is stored, after a clearing when the table is full |
| Caches.Router.Judge | src/tunnel/route.go:103-112 | direct exactly when there are addresses and every one of them may be dialled directly |
| Caches.RouteHit | src/tunnel/route.go:88-121 | a hit is the last decision for the host, less than 10 minutes old, and direct if and only if every address of its answer was safe |
| Caches.RouteStored | src/tunnel/route.go:114-121 | a stored decision can be found for 10 minutes; which others stay in the table |
| Caches.RouteBounded | src/tunnel/route.go:114-118 | at most 8192 entries, over every run |

## Left out

- CnRoute.IsCnExact: sufficient only, as a condition on the blocks; the exact condition is on the loaded table (`CnRoute.IsCnExactIff`).
- CnRoute.LoadCnFrom: the table lines are parsed pairs; trimming and `net.ParseCIDR` are left out.
- WsConn.Conn.Read: a length of 2^63 or more, on which the allocation panics, is left out.
- BanPolicy.TrafficServer.SetBanEnabled: the write of `security.json` is left out.
- QrCode.Symbol.GetBestMaskPattern: the lost points of the eight trial symbols are a parameter; how they are scored is left out.
- Quota.RunKeepsInv: for runs whose restarts are harmless, the exact condition of `Quota.HarmlessIff`; `Quota.LastNeverDecreases` and `Quota.DiskNeverDecreases` likewise.
- Handshake.NoDeadlock: each write arrives whole; a message in parts only makes the reader wait longer (`Target.MoreFollows`).
- Quota.RestartRestores: a file in the older format of plain digits, which restores the total alone, is left out.
- QrWords.VersionWord: the table words of five versions; the words of all versions are pinned by `QrBch.WordUnique`.
- Quota.TotalIsCounted: the total is unbounded; the wrap of a 64-bit counter after 9 exabytes is not modelled.
- Caches.DnsCache.Get: the query has at least two bytes; the callers have checked for twelve.
- AndroidRoutes.Exclusions: a server address that is not dotted IPv4, on which the original throws, is left out.
- AndroidRoutes.BuildRoutes: a failure while the table is read drops the table as a whole, and a server address that is not dotted IPv4 is left out.
- FakeIp.RunKeepsInv: for a limit of at most size - 2, which `FakeIp.LimitIsExact` shows to be the exact bound.
- Numeric, alphanumeric and kanji modes, SVG and ASCII output, GIF header and sub-blocks: outside the live path or without a property beyond their text.
- TLS, certificate fingerprints, random nonces, file contents other than the quota pair: libraries and the operating system.
- The relay loops after the handshake, the DNS relay's upstream loop, keepalive, deadlines: input and output without a decision of their own.
- `proxylist.Match`, trimming of table lines, log lines, system proxy, panels and bridges: simple helpers or user interface.
