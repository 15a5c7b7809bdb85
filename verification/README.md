# Proofs about gitgud's pairing, conflict, relay and forge code

A Dafny 4.11 model of the parts of the repository whose correctness is a matter of mathematics or of protocol, with
proofs. `dafny verify dfyconfig.toml` checks the whole project. Each module stands in the file of its name.

- **QR encoder** (`src/main/qr.ts`): `Gf256`, `ReedSolomon`, `QrCodewords`, `QrMatrix`, `QrPatterns`, `QrSymbol`,
  `QrRoom`, `QrEncode`, with `CarryLess` and `Bch` for polynomials over one bit. The log tables are shown to
  multiply in GF(256), the shift register to make Reed-Solomon codewords with the distance the code promises, and
  the whole encoder to be undone by a reader that looks at the finished matrix alone. `Iteration`, `Crc32` and
  `QrRaster` (`src/main/qr-png.ts`) are the checksum and the picture.
- **Conflict diff** (`src/renderer/lib/conflictDiff.ts`): `Lcs`, `WordDiff`, `BlockDiff`, `MarkRanges`.
- **Relay** (`src/relay/main.ts`, `src/main/peer-relay.ts`): `Relay` is the step machine over hosts, tokens and
  waiting clients with the class whose handlers take its steps, `RelayHistory` says of the events what its state is;
  `RelayStream` follows the bytes; `ClientHello` is the TLS peek.
- **Forge diff cache** (`src/main/forge/forge-host.ts`): `DiffCache` and `CacheOrder`, every interleaving of the
  asynchronous calls.
- **Auto-fix** (`src/main/git-service.ts`): `AutoFix`, against a git that may answer anything.
- **Patches** (`packages/peer-protocol/src/forge.ts`): `UnifiedDiff` parses one file, `PatchSplit` splits a diff,
  `QuotedPath` decodes quoted paths, `QuotedHeader`, `HunkHeader` and `PatchHeader` are the lines git writes about a
  file. `Basics`, `Lines` and `Options` are shared.
- **Streams and limits** (`packages/peer-protocol/src/index.ts`): `Sse`, `SseTorn`, `PairLimiter`.

Numbers are unbounded, except where the width matters: field elements are 8-bit words, the version and format words
are bit vectors, and the CRC register is a sequence of 32 bits. Characters stand for UTF-16 code units. Loops of the
source that change things are methods, proved against a function or a predicate; the properties are proved of that
function or predicate. Where text goes through the path decoder, a surrogate is stood for by the character 0x10000
above it.

Places where a promise fails, or holds on a condition, and the condition is proved exact:

- Whatever the run that led to a history of heads, what the cache holds under a head is the diff of that head,
  exactly when the head never comes back in that history (`DiffCache.OwnDiffExactly`). For any history in which it
  does come back, `DiffCache.ReturningHeadIsNotProtected` builds a run that stores the diff of the head in between.
- A diff put together from well-formed patches splits back exactly when no line of a patch is taken for the start of
  another (`PatchSplit.PatchesReadBack`). A line separator (U+2028) in an added line is enough
  (`PatchSplit.SeparatorSplitsAPatch`).
- A `diff --git` line with the same path twice, not quoted, is read exactly when the path does not hold ` "b/`
  (`UnifiedDiff.SamePathIsRead`, `UnifiedDiff.CutPathIsShort`). git itself quotes every path that holds a quotation
  mark, so the failing line is not one that git writes; lines with one or both paths quoted are read for all bytes
  that decode (`QuotedHeader`).
- The pairing limiter keeps at most `max` failures in every window exactly when the first lockout is no shorter than
  the window (`PairLimiter.BoundedExactlyWhenCovered`).
- The event stream may be cut anywhere but between `\r` and `\n` (`Sse.ChunksDoNotMatter`). For the decoders that,
  like `JSON.parse`, take no notice of a return at the end of a line, such a cut is harmless, now and for any chunks
  that follow, exactly when it leaves no event open, in front of a data line or at the end, that the stream has
  closed (`SseTorn.BlindExactly`). Whatever the decoder, exactly when besides it leaves no return behind the data of
  a line (`SseTorn.TornExactly`). An event is missing when its empty line is torn (`SseTorn.TornEventIsMissing`).
- `unquotePath` throws exactly when the path is quoted and its last backslash has nothing to escape, or four bytes
  from 0xf4 0x90 on begin a character (`QuotedPath.ThrowsExactly`). The comment on `decodeUtf8` promises U+FFFD for
  invalid sequences; a file name of these bytes is thrown at instead (`QuotedPath.SomeNamesThrow`).
- `runAutoFix` promises to restore the tree when the operation fails after stashing. Unless a query of git itself
  fails, a failure that is no conflict tries to, exactly when something was stashed, the last stash was not the one
  that failed, and it is not, with an attempt left, a refusal for untracked files that names none
  (`AutoFix.Reported`, in the contract of `AutoFix.RunAutoFix`). Otherwise nothing is popped and the result does not
  name the stash; for all such answers of git, `AutoFix.StashLeftBehind` ends with the first stash on the stack.
- With no check symbols `rsEncode` returns one symbol for non-empty data (`ReedSolomon.RsEncode`); the encoder never
  asks for none.
- The comment on `QR_MAX_BYTES` is right: 666 bytes is the exact limit (`QrCodewords.FitsSome`).

## Model

| member | source | states |
|---|---|---|
| Gf256.TimesIsProductModulo | src/main/qr.ts:41-44 | multiplication in the field is the carry-less product of the two polynomials modulo 0x11d, the quotient being given |
| Gf256.TimesCommutes | src/main/qr.ts:44 | multiplication commutes |
| Gf256.TimesAssociates | src/main/qr.ts:44 | multiplication associates |
| Gf256.TimesPlus | src/main/qr.ts:44 | multiplication distributes over xor on both sides |
| Gf256.TimesNonZero | src/main/qr.ts:44 | no zero divisors: a product of non-zero elements is not zero |
| Gf256.AlphaPlus | src/main/qr.ts:43-44 | alpha^i times alpha^j is alpha^(i+j), which is what adding logarithms relies on |
| Gf256.AlphaIsTwo | src/main/qr.ts:42-43 | alpha is 2: the powers begin with 1 and 2, and each is twice the one before |
| Gf256.AlphaOrder | src/main/qr.ts:43 | a power of alpha is 1 exactly when 255 divides the exponent |
| Gf256.AlphaInjective | src/main/qr.ts:43 | the first 255 powers are different |
| Gf256.LogExists | src/main/qr.ts:42-43 | every non-zero element is a power below 255, so the log table has no hole |
| ReedSolomon.FillPowers | src/main/qr.ts:43 | after the first loop the tables hold the powers and their logarithms |
| ReedSolomon.ExtendPowers | src/main/qr.ts:43 | after the second loop all 512 entries are powers |
| ReedSolomon.Tables.constructor | src/main/qr.ts:42-43 | the tables are valid: powers and logarithms for every non-zero element |
| ReedSolomon.Tables.Mul | src/main/qr.ts:44 | the look-up is the field product, for zero operands too |
| ReedSolomon.RsGenerator | src/main/qr.ts:46-54 | the in-place loop computes the product of (x + alpha^i) for i below n, a factor behind the end of the table being x |
| ReedSolomon.TimesRoot | src/main/qr.ts:49-51 | one pass multiplies the polynomial by (x + r) |
| ReedSolomon.EvalTimesRoot | src/main/qr.ts:50 | multiplying by (x + r) multiplies every value by (z + r) |
| ReedSolomon.GeneratorRoots | src/main/qr.ts:46-54 | for every n, behind the end of the table too, the generator is monic and vanishes at alpha^0 to alpha^(n-1) |
| ReedSolomon.ShiftSymbol | src/main/qr.ts:58-62 | one data symbol goes through the shift register as one step of the division |
| ReedSolomon.ShiftKeepsRoot | src/main/qr.ts:58-62 | a shift keeps every root of the generator a root of data and register |
| ReedSolomon.RsEncode | src/main/qr.ts:55-64 | data followed by the check symbols vanishes at the first ecLen powers of alpha (ISO/IEC 18004:2015, section 7.5); exact length, the case of none included |
| ReedSolomon.Vandermonde | src/main/qr.ts:55-64 | the power sums of distinct locations determine the errors: no non-zero pattern of at most n errors has n zero syndromes |
| ReedSolomon.MinimumDistance | src/main/qr.ts:55-64 | two different codewords of length at most 255 differ in more than n places |
| ReedSolomon.UniqueCorrection | src/main/qr.ts:55-64 | at most one codeword lies within half the check symbols of what was received |
| ReedSolomon.CheckSymbolsUnique | src/main/qr.ts:55-64 | the check symbols are the only ones that make the data a codeword |
| QrCodewords.TableRow | src/main/qr.ts:12-33 | every row adds up: data and check symbols of the blocks make the total |
| QrCodewords.FitsSome | src/main/qr.ts:39-77 | some version fits exactly when there are at most 666 bytes |
| QrCodewords.FitsExactly | src/main/qr.ts:72-76 | a version fits exactly up to its byte capacity at level M (ISO/IEC 18004:2015, table 7) |
| QrCodewords.CountHolds | src/main/qr.ts:74-84 | the count field of the version always holds the length |
| QrCodewords.Push | src/main/qr.ts:82 | shifting out appends the binary digits of the value, most significant first |
| QrCodewords.BuildHeader | src/main/qr.ts:83-85 | mode, count and bytes as bits |
| QrCodewords.Terminate | src/main/qr.ts:86-87 | terminator and zeros up to a byte boundary, never past the capacity |
| QrCodewords.TerminatorIsLeast | src/main/qr.ts:86-87 | no fewer zeros would end on a byte with four of them, or with as many as there is room for |
| QrCodewords.PackBits | src/main/qr.ts:88-89 | the bytes have exactly these bits |
| QrCodewords.PadData | src/main/qr.ts:90 | the two pad codewords alternate up to the data capacity |
| QrCodewords.PadsAlternate | src/main/qr.ts:90 | the pads begin with 0xec, and any two neighbours are 0xec and 0x11 |
| QrCodewords.BuildData | src/main/qr.ts:81-90 | the data area is full and holds header, bytes, terminator, zeros and pads in this order |
| QrCodewords.ParseHolds | src/main/qr.ts:81-90 | a data area that holds the bytes is read back to them by mode, count and value |
| QrCodewords.EncodeGroup | src/main/qr.ts:94 | a group of blocks cuts the data without gap, each a codeword with its check symbols |
| QrCodewords.EncodeBlocks | src/main/qr.ts:92-95 | both groups together cut the data into the blocks of the table |
| QrCodewords.Interleave | src/main/qr.ts:98-99 | symbols are taken row by row, blocks that are too short being skipped |
| QrCodewords.DeinterleavedRows | src/main/qr.ts:98-99 | de-interleaving finds every block again |
| QrCodewords.RowsKeepAll | src/main/qr.ts:98-99 | interleaving keeps the number of symbols |
| QrCodewords.StreamReadsBack | src/main/qr.ts:96-100 | the stream has the total length and gives back data and check blocks |
| QrCodewords.BuildStream | src/main/qr.ts:79-100 | the stream has the total length, every block is a codeword, and the data area reads back |
| QrCodewords.BuildCodewords | src/main/qr.ts:68-101 | smallest version that fits, error exactly above 666 bytes, every block a codeword, and de-interleaving and parsing give the bytes (ISO/IEC 18004:2015, sections 7.4 to 7.6) |
| QrCodewords.DamageTolerated | src/main/qr.ts:68-101 | a stream damaged in at most half the check symbols of each block still determines the bytes |
| QrMatrix.WalkStays | src/main/qr.ts:144-158 | the zig-zag stays on the grid and off column 6, and its step is recovered from the cell, so no cell comes twice |
| QrMatrix.WalkCovers | src/main/qr.ts:144-158 | the zig-zag comes to every cell off column 6 |
| QrMatrix.WalkOrder | src/main/qr.ts:144-158 | modules come strip by strip from the right, alternately upwards and downwards, row by row, the right one of two first |
| QrMatrix.PlaceStep | src/main/qr.ts:151-155 | a step sets a free cell to the next bit and leaves a set one alone |
| QrMatrix.PlacePair | src/main/qr.ts:147-157 | one pair of columns, in the direction it is walked |
| QrMatrix.PlaceData | src/main/qr.ts:144-158 | the n-th free cell of the walk holds bit n of the stream, zero past its end; function cells stay |
| QrMatrix.PlacedComplete | src/main/qr.ts:144-158 | no module is left unset |
| QrPatterns.DrawFinder | src/main/qr.ts:109-116 | the modules of a finder are coloured by their ring around its centre, clipped to the grid; nothing else changes |
| QrPatterns.DrawTiming | src/main/qr.ts:117 | the timing lines alternate |
| QrPatterns.DrawAlignments | src/main/qr.ts:118-124 | every alignment pattern that is not skipped is complete, and nothing else changes |
| QrPatterns.OnePattern | src/main/qr.ts:34-37 | alignment patterns do not overlap |
| QrPatterns.AlignAgrees | src/main/qr.ts:117-124 | where an alignment pattern overwrites a timing line it writes the same |
| QrPatterns.ReserveFormat | src/main/qr.ts:126-128 | format modules that nothing else uses are reserved light |
| QrPatterns.VersionBits | src/main/qr.ts:132-135 | the loop of shifts makes the version word, the version with its remainder by 0x1f25 behind it |
| QrPatterns.VersionInBits | src/main/qr.ts:132-138 | the six highest bits of the word name the version |
| QrPatterns.DrawVersion | src/main/qr.ts:131-141 | both copies of the version word, mirror images of each other |
| QrPatterns.VersionIsCodeword | src/main/qr.ts:132-135 | the version word is a multiple of 0x1f25 that begins with the six bits of the version, so its twelve low bits are the remainder (ISO/IEC 18004:2015, Annex D) |
| QrPatterns.DrawFunctionPatterns | src/main/qr.ts:105-141 | exactly the function modules are set, and every module of a pattern has the colour of the pattern |
| QrPatterns.StampsApart | src/main/qr.ts:184-191 | the format is written over no module of another pattern |
| QrRoom.EnoughRoom | src/main/qr.ts:12-37 | in each of the 20 versions there is a free module for every bit of the codewords |
| QrSymbol.ReservedMap | src/main/qr.ts:142 | the modules set before the data |
| QrSymbol.MaskIsInverted | src/main/qr.ts:161-165 | the conditions of the table in another form: equal parity, even rows, every third column, every third diagonal, two by three blocks, and residues of the product by six |
| QrSymbol.ApplyMask | src/main/qr.ts:169 | data modules are inverted exactly where a reader of that mask expects it, reserved ones are not |
| QrSymbol.FormatBits | src/main/qr.ts:178-183 | the loop of shifts makes the format word, level and mask with their remainder by 0x537 behind them |
| QrSymbol.FormatIsCodeword | src/main/qr.ts:179-182 | without 0x5412 the format word is a multiple of 0x537 that begins with level and mask, so its ten low bits are the remainder (ISO/IEC 18004:2015, Annex C) |
| Bch.FormatDivides | src/main/qr.ts:181 | after every step, data and register together are a multiple of the generator |
| QrSymbol.WriteFormat | src/main/qr.ts:177-192 | both copies of the format word stand in place, with the dark module; other modules stay |
| QrSymbol.MaskInFormat | src/main/qr.ts:178-183 | the mask number is read back from the format word |
| QrSymbol.FormatNamesMask | src/main/qr.ts:177-192 | a reader of the matrix finds the mask number |
| QrSymbol.StreamBitIsUnpacked | src/main/qr.ts:153 | the bit that is placed is the bit of the codeword sequence |
| QrSymbol.WalkReadsStream | src/main/qr.ts:144-169 | walking a masked matrix and unmasking gives the bits that were placed |
| QrSymbol.SymbolReadsBack | src/main/qr.ts:142-192 | for any of the eight masks, reading the finished matrix gives the bytes of the stream (ISO/IEC 18004:2015, sections 7.7 to 7.9) |
| QrEncode.MakeSymbol | src/main/qr.ts:169-170 | a masked and stamped matrix carries the stream, the format word and all patterns |
| QrEncode.VersionIsShown | src/main/qr.ts:131-141 | from version 7 on, both areas of the finished matrix name the version |
| QrEncode.ChooseMask | src/main/qr.ts:166-174 | the first mask of lowest score, or the one asked for; an empty matrix for one out of range |
| QrEncode.EncodeQr | src/main/qr.ts:103-175 | every text of at most 666 bytes is read back from the finished matrix alone, in the smallest version, with every pattern and the version number in place, whatever the mask |
| Crc32.EightSteps | src/main/qr-png.ts:11 | eight steps on a register are eight steps on its low byte, xored with the register shifted by eight |
| Crc32.BuildTable | src/main/qr-png.ts:7-15 | every entry is eight steps of its index |
| Crc32.Entry | src/main/qr-png.ts:10-12 | the inner loop takes one step of the division a round |
| Crc32.TableRound | src/main/qr-png.ts:19 | one look-up absorbs one byte |
| Crc32.Crc32 | src/main/qr-png.ts:17-21 | the table-driven loop gives the bit-by-bit division for every buffer (PNG specification, second edition, section 5.5) |
| Crc32.StepsXor | src/main/qr-png.ts:11 | steps are linear |
| Crc32.DivisorIsPolynomial | src/main/qr-png.ts:11 | 0xedb88320 has the coefficients of the polynomial of the PNG specification, second edition, section 5.5 |
| Crc32.StartAndEnd | src/main/qr-png.ts:18-20 | the checksum of no bytes is zero and that of four bytes of ones is ones, which ties down the start and the last xor |
| Crc32.StepInjective | src/main/qr-png.ts:11 | a step loses nothing |
| Crc32.AbsorbPack | src/main/qr-png.ts:17-21 | absorbing up to four bytes is stepping over the word they make |
| Crc32.ChangesAreFound | src/main/qr-png.ts:17-21 | two buffers that differ within four neighbouring bytes have different checksums |
| QrRaster.Fill | src/main/qr-png.ts:50 | fills the range and nothing else |
| QrRaster.Raster | src/main/qr-png.ts:43-54 | every pixel has the colour of its module, the border is white, every scanline begins with filter type 0 |
| QrRaster.ModuleIsShown | src/main/qr-png.ts:43-53 | any pixel of its square shows the module, so the matrix can be read off |
| QrRaster.FilterIsNoPixel | src/main/qr-png.ts:54 | a filter byte is never a pixel |
| Lcs.LengthIsBound | src/renderer/lib/conflictDiff.ts:54-58 | no common subsequence is longer than the recurrence of the table says |
| Lcs.FillTable | src/renderer/lib/conflictDiff.ts:50-58 | the table, filled backwards in place, holds the recurrence in every cell |
| Lcs.LcsFlags | src/renderer/lib/conflictDiff.ts:41-63 | up to the cap the flagged elements of both sides are the same sequence and as long as the recurrence; above it nothing is flagged |
| Lcs.LongestIsOptimal | src/renderer/lib/conflictDiff.ts:41-63 | no common subsequence of the two inputs is longer than the flagged one |
| WordDiff.Tokenize | src/renderer/lib/conflictDiff.ts:70-76 | the tokens cover the line without gap, each a word, a run of space or a single other character, words and runs maximal |
| WordDiff.NeighboursDiffer | src/renderer/lib/conflictDiff.ts:70-76 | where two tokens meet, the characters on both sides are not both of a word and not both space |
| Basics.SpaceCodes | src/renderer/lib/conflictDiff.ts:70 | white space is what the regular expression takes for it, by its codes |
| WordDiff.AddRange | src/renderer/lib/conflictDiff.ts:88-91 | ranges stay sorted, apart and never touch; the last one is widened when the new one begins at its end |
| WordDiff.Collect | src/renderer/lib/conflictDiff.ts:84-94 | exactly the characters of unflagged tokens are covered, by sorted ranges that never touch |
| WordDiff.CutLeavesFlagged | src/renderer/lib/conflictDiff.ts:84-94 | cutting the ranges out leaves the flagged tokens joined |
| WordDiff.WordRanges | src/renderer/lib/conflictDiff.ts:81-96 | cutting the ranges out of both lines leaves the same text, and a longest common sequence of tokens below the cap |
| BlockDiff.CommonLinesAgree | src/renderer/lib/conflictDiff.ts:126-134 | when the walk steps over a common pair it stands on equal lines |
| BlockDiff.RunOutTogether | src/renderer/lib/conflictDiff.ts:127-135 | the walk ends with both sides used up |
| BlockDiff.DiffPair | src/renderer/lib/conflictDiff.ts:117-124 | a pair gets the word ranges of its two lines, or none when it is mostly different |
| BlockDiff.ChangedIsCovered | src/renderer/lib/conflictDiff.ts:117-120 | what is counted as changed is the number of characters in the ranges |
| BlockDiff.PairGap | src/renderer/lib/conflictDiff.ts:114-126 | the lines of a gap are paired in order; lines left over get nothing |
| BlockDiff.DiffGap | src/renderer/lib/conflictDiff.ts:128-131 | one gap, the lines before it untouched |
| BlockDiff.DiffBlock | src/renderer/lib/conflictDiff.ts:107-137 | up to the cap the flagged lines are a longest common sequence, above it no line is common; the k-th lines of a gap are paired and word-diffed, and no other line has ranges |
| MarkRanges.NextRangeDecides | src/renderer/lib/conflictDiff.ts:161-166 | skipping the ranges that ended, the next one alone decides whether a position is in any range, overlaps allowed |
| MarkRanges.Marker.SyncAt | src/renderer/lib/conflictDiff.ts:161-166 | the mark is open afterwards exactly when a range contains the position |
| MarkRanges.Marker.Enter | src/renderer/lib/conflictDiff.ts:159 | opens a mark that is not open |
| MarkRanges.Marker.Leave | src/renderer/lib/conflictDiff.ts:160 | closes a mark that is open |
| MarkRanges.WritePiece | src/renderer/lib/conflictDiff.ts:168-186 | one tag, entity or character, tags outside any mark |
| MarkRanges.RenderPieces | src/renderer/lib/conflictDiff.ts:167-187 | the pieces of the input, put together, are the input |
| MarkRanges.EntityExactly | src/renderer/lib/conflictDiff.ts:141 | an entity is found, and whole, exactly when letters, or a number in decimal or hexadecimal, stand between & and a semicolon |
| MarkRanges.KindsOfCharacters | src/renderer/lib/conflictDiff.ts:141 | letters, digits and hexadecimal digits by their codes |
| MarkRanges.PieceExactly | src/renderer/lib/conflictDiff.ts:168-186 | a tag ends at the first >, the tail has none, an entity of at most twelve characters is one character and any other character stands for itself |
| MarkRanges.TailOnlyWhenOpen | src/renderer/lib/conflictDiff.ts:170-171 | a tail is only cut off where a tag is not closed |
| MarkRanges.Mark | src/renderer/lib/conflictDiff.ts:149-190 | without the marks the output is the input; marks alternate, hold no tag and are never empty; a text character is marked exactly when a range contains its offset |
| Relay.SplicedOnce | src/relay/main.ts:255-272 | in every run a connection is spliced at most once |
| Relay.SpliceSound | src/relay/main.ts:236-272 | the client of a splice asked for that peer and was not closed or timed out since; the socket presented the token still bound to the peer |
| Relay.RunKeepsTokens | src/relay/main.ts:205-210 | a bound token never changes |
| Relay.LateCloseIsHarmless | src/relay/main.ts:219-233 | closing the replaced socket leaves the new registration in place |
| Relay.RegistrationNeedsToken | src/relay/main.ts:205-217 | a registration succeeds exactly when well-formed and the peer has no token or this one |
| Relay.HexExactly | src/relay/main.ts:206 | a name or token is well-formed exactly when its length is in bounds and all its characters are lower-case hexadecimal |
| Relay.StepKeeps | src/relay/main.ts:152-272 | register, connect, accept, timeout, close and stop keep the invariant |
| Relay.RelaySafety | src/relay/main.ts:86-272 | in every run from any token file: the above, hosts and waiting clients each with a bound token, and what the log says agrees with the state |
| RelayHistory.RunAgrees | src/relay/main.ts:86-272 | in every run, said of the events alone: hosts are the last good registrations whose socket has not closed since, waiting clients those parked whose wait has not ended by close, timeout, stop or accept, tokens those of the first registration |
| RelayHistory.PeerIdsAgree | src/relay/main.ts:79-83 | the names that are looked for in a server name are exactly those that may register |
| RelayHistory.AcceptedExactly | src/relay/main.ts:255-272 | an accept is granted exactly when its connection was opened for this peer, has not ended since, and the token is the bound one |
| Relay.IntroductionIsFair | src/relay/main.ts:262-268 | each side is given what the other sent early, a raw client is told nothing, and the pipe comes last |
| Relay.RelayServer.AuthHost | src/relay/main.ts:205-210 | binds on first use, compares afterwards |
| Relay.RelayServer.OnRegister | src/relay/main.ts:212-234 | registers exactly when well-formed and no other token is bound, says what is written and which socket is destroyed |
| Relay.RelayServer.OnConnect | src/relay/main.ts:236-253 | same answer for an unknown host and a wrong hash; otherwise one new waiting client |
| Relay.RelayServer.OnRawHello | src/relay/main.ts:138-158 | a registered name waits for its host with all bytes seen; any other goes to the relay itself |
| Relay.RelayServer.OnAccept | src/relay/main.ts:255-272 | granted exactly for a waiting client of this peer and the bound token; the splice, and in which order the two sides get their bytes |
| Relay.RelayServer.OnTimeout | src/relay/main.ts:154-155 | the waiting client is gone |
| Relay.RelayServer.OnClose | src/relay/main.ts:157-157 | a closed socket leaves no waiting client and no registration of its own, and takes no other away |
| Relay.RelayServer.OnStop | src/relay/main.ts:163-169 | everything is cleared |
| RelayStream.FrameReader.OnData | src/main/peer-relay.ts:48-66 | lines are consumed until one is accepted, and what follows it is returned |
| RelayStream.ScanInTwo | src/main/peer-relay.ts:52-60 | reading in two goes finds what reading at once finds |
| RelayStream.ReadLineConserves | src/relay/main.ts:180-190 | the relay takes off exactly the first line, however it is cut |
| RelayStream.PeekConserves | src/relay/main.ts:134-146 | peeking keeps every byte |
| RelayStream.SpliceConserves | src/relay/main.ts:262-269 | greeting, held bytes and stream, in this order |
| RelayStream.ReceiveConserves | src/main/peer-relay.ts:48-81 | an end finds the start of the stream and puts back what it read too far |
| RelayStream.StepKeeps | src/relay/main.ts:129-283 | every step keeps: sent is received, plus on the way down, plus on the way up |
| RelayStream.BytesArrive | src/relay/main.ts:129-283 | whatever the chunks and the order of reads, each end has got a beginning of what the other sent behind its first line, and all of it when nothing is on the way |
| RelayStream.CloseIsFinal | src/relay/main.ts:280-282 | once closed, a connection stays closed and nothing moves any more |
| RelayStream.HandshakeCompletes | src/relay/main.ts:129-283 | for framed and raw clients and any cutting: not closed while the host answers in turn, first lines fit in 4096 bytes, whatever follows them, and more than 16384 bytes of a raw client are enough; and an open connection with nothing on the way is spliced, both streams open, all bytes delivered |
| RelayStream.HandshakeOpens | src/relay/main.ts:255-283 | one such run, of a framed client |
| ClientHello.ParseClientHelloSni | src/relay/main.ts:45-51 | never reads past the buffer, and gives what the nested length fields say |
| ClientHello.ParseHandshake | src/relay/main.ts:51-60 | the fixed part, session id, ciphers and compression, with every bound |
| ClientHello.ParseExtensions | src/relay/main.ts:61-75 | the first server_name extension decides |
| ClientHello.ParseNames | src/relay/main.ts:64-71 | the first host name that fits |
| ClientHello.LowerIsSmall | src/relay/main.ts:68 | a capital letter becomes its small one, accented ones included, any other character stays |
| ClientHello.AnswerIsFinal | src/relay/main.ts:45-76 | once a prefix gives an answer, every extension of it gives the same |
| ClientHello.ParserInvertsWriter | src/relay/main.ts:45-76 | for every ClientHello in one record the parser returns the lower-cased first host name of the first server_name extension, and null without one, whatever follows (RFC 8446 section 4.1.2, RFC 6066 section 3) |
| ClientHello.PrefixAsksForMore | src/relay/main.ts:46-49 | every proper prefix of a record asks for more |
| ClientHello.LabelBeforeDot | src/relay/main.ts:79-83 | the first label, when it is a peer id |
| ClientHello.RoutesToPeer | src/relay/main.ts:45-83 | a hello that names a peer id is routed to that peer |
| DiffCache.EvictDropsOldest | src/main/forge/forge-host.ts:323-327 | eviction drops a prefix of the oldest and no more than needed |
| DiffCache.StepKeeps | src/main/forge/forge-host.ts:295-335 | any event keeps the invariant |
| DiffCache.OneRunning | src/main/forge/forge-host.ts:299-334 | two fetches for one key never run at once |
| DiffCache.StoredLast | src/main/forge/forge-host.ts:321-328 | what was just stored is never evicted, and what is evicted is older and had to go |
| DiffCache.OwnDiffExactly | src/main/forge/forge-host.ts:302-328 | for a history of heads: in every run with this history each stored slot of a head was served for it, exactly when the head never comes back |
| DiffCache.CacheSafety | src/main/forge/forge-host.ts:295-335 | under every interleaving: bytes add up, at most 30 entries, within the cap or one entry, one entry and one fetch per key, and a head that never came back has its own diff |
| CacheOrder.OrderIsUse | src/main/forge/forge-host.ts:297-328 | under every interleaving the order of the map is the order of last use, said of the events: the last call that found the diff, or the last store |
| CacheOrder.InflightIsFetching | src/main/forge/forge-host.ts:299-334 | under every interleaving a key is in flight exactly from a call that missed to the clean-up of its fetch |
| DiffCache.ReturningHeadIsNotProtected | src/main/forge/forge-host.ts:302-306 | for any history in which a head comes back, a run that stores the diff of a head in between under it |
| DiffCache.ForgeHost.DiffFor | src/main/forge/forge-host.ts:297-300 | a hit moves to the end and the others keep their order, a running fetch is shared, otherwise one is started |
| DiffCache.ForgeHost.FinishFetch | src/main/forge/forge-host.ts:302-328 | stores only when the head is still the one asked for and the diff can be split, counts the bytes and evicts by the loop |
| DiffCache.ForgeHost.Forget | src/main/forge/forge-host.ts:334 | the fetch is no longer shared |
| AutoFix.Pop | src/main/git-service.ts:2643-2649 | applied, conflict or refused, judged by stack and conflict state alone, and that is the outcome of the pop it tried |
| AutoFix.Restore | src/main/git-service.ts:2650-2656 | pops newest first until one does not apply, and fails only when one was tried and did not |
| AutoFix.GiveUp | src/main/git-service.ts:2683-2686 | restores what was set aside, or says that it could not |
| AutoFix.SetAsideBlocker | src/main/git-service.ts:2687-2704 | one named entry on top, or nothing |
| AutoFix.Reapply | src/main/git-service.ts:2708-2731 | re-applies newest first until a pop does not apply, all of them otherwise; the stash that is named as kept is the top one left; a conflict is that of the last pop |
| AutoFix.TryToFix | src/main/git-service.ts:2682-2704 | a failed attempt restores, gives up or sets one blocker aside, and reports which |
| AutoFix.RunAutoFix | src/main/git-service.ts:2605-2732 | at most three runs and two stashes, going on exactly while the blocker can be set aside; the user entries stay in place under a prefix of the pushed ones; the others were applied, newest first; no pop after one that did not apply; a kept stash is on the stack; success without one means the stack is back; after success all are popped unless a pop was tried and did not apply, or keeping was asked for; which failures try to restore, and that the others pop nothing |
| AutoFix.StashLeftBehind | src/main/git-service.ts:2688-2701 | for all answers that set one blocker aside and then name no file or fail to stash, the promise to restore fails: the stash stays, unnamed |
| AutoFix.SomeAnswersLeaveFirst | src/main/git-service.ts:2687-2697 | there are such answers: changed files first, then untracked files that git does not name |
| AutoFix.NothingDropped | src/main/git-service.ts:2629-2732 | every pushed entry is still on the stack or was applied |
| UnifiedDiff.ClosingQuote | packages/peer-protocol/src/forge.ts:234-240 | the first quote behind an even number of backslashes; the last character when there is none |
| QuotedHeader.BothQuotedAreRead | packages/peer-protocol/src/forge.ts:213-220 | two paths of any bytes that decode, both in quotes as git writes them, are read as the paths they decode to |
| QuotedHeader.SecondQuotedIsRead | packages/peer-protocol/src/forge.ts:221-222 | a quoted path behind one that is not |
| QuotedHeader.FirstQuotedIsRead | packages/peer-protocol/src/forge.ts:215-220 | a path that is not quoted behind one that is |
| UnifiedDiff.SamePathIsRead | packages/peer-protocol/src/forge.ts:213-232 | a line with the same path twice is read whatever spaces and ` b/` the path holds |
| UnifiedDiff.CutPathIsShort | packages/peer-protocol/src/forge.ts:221-222 | and is cut short when the path holds ` "b/` |
| UnifiedDiff.ParseFileChunk | packages/peer-protocol/src/forge.ts:174-211 | the loop over the lines computes the fold of the line rule |
| HunkHeader.HeaderIsRead | packages/peer-protocol/src/forge.ts:193-194 | for all numbers, the counts of a hunk header are read back, 1 where a count is left out |
| HunkHeader.EntriesCount | packages/peer-protocol/src/forge.ts:186-189 | lines written as kept, removed or added count as that |
| HunkHeader.HunkIsAnnounced | packages/peer-protocol/src/forge.ts:185-194 | the header git writes announces the lines that follow |
| UnifiedDiff.BodyStep | packages/peer-protocol/src/forge.ts:185-191 | while counters are left, a line counts as what it is, even if it reads like a header |
| UnifiedDiff.HunkAdds | packages/peer-protocol/src/forge.ts:185-194 | a hunk adds exactly its + and - lines and changes neither paths nor status |
| UnifiedDiff.HunksAdd | packages/peer-protocol/src/forge.ts:184-204 | so do all hunks of a file |
| UnifiedDiff.HeadersDoNotCount | packages/peer-protocol/src/forge.ts:195-203 | header lines count nothing |
| PatchSplit.Exec | packages/peer-protocol/src/forge.ts:165-166 | the next match and none in between |
| PatchSplit.FindStarts | packages/peer-protocol/src/forge.ts:163-166 | all matches, though the search goes on behind the last one |
| PatchSplit.SplitUnifiedDiff | packages/peer-protocol/src/forge.ts:160-172 | one slice for every match, up to the next |
| PatchSplit.StartsOfParts | packages/peer-protocol/src/forge.ts:163-168 | the matches in a concatenation are the matches of the parts |
| PatchSplit.NormalizeText | packages/peer-protocol/src/forge.ts:161 | drops one carriage return at the end of each line and nothing else |
| PatchSplit.TrimEndExactly | packages/peer-protocol/src/forge.ts:168 | trimming takes off line breaks at the end, and all of them |
| PatchSplit.TrimKeepsSlice | packages/peer-protocol/src/forge.ts:168 | trimming line breaks changes nothing but the text kept |
| PatchSplit.SliceIsExpected | packages/peer-protocol/src/forge.ts:174-211 | paths, previous path and status from the header lines alone, counts exactly the + and - lines of the hunks |
| PatchSplit.PatchesReadBack | packages/peer-protocol/src/forge.ts:160-211 | a concatenation of well-formed patches comes back patch by patch, in order, exactly when no line is taken for the start of another |
| PatchHeader.HeaderIsRead | packages/peer-protocol/src/forge.ts:195-203 | the header git writes for a changed, new, deleted, renamed or copied file, with text, binary, encoded binary or no contents, is read as its status, its paths and its kind of contents |
| PatchHeader.ExpectedIsIntended | packages/peer-protocol/src/forge.ts:174-211 | the slice has the status, path, previous path and counts that git says |
| PatchHeader.GitDiffReadsBack | packages/peer-protocol/src/forge.ts:160-211 | a diff of such files, hunk headers written from the lines that follow, comes back file by file as git says, exactly when no line is taken for the start of another |
| PatchHeader.QuotedIsWritten | packages/peer-protocol/src/forge.ts:197-202 | names of any bytes that decode, in quotes, are among those it holds for |
| PatchHeader.PlainIsWritten | packages/peer-protocol/src/forge.ts:197-202 | so are names as they are, with the tab behind one that holds a space |
| PatchSplit.DiffLineIsQuiet | packages/peer-protocol/src/forge.ts:164 | a hunk line without stray line terminators is never taken for one |
| PatchSplit.SeparatorSplitsAPatch | packages/peer-protocol/src/forge.ts:164 | a patch that comes back in two pieces |
| QuotedPath.DecodeUtf8 | packages/peer-protocol/src/forge.ts:274-287 | the loop decodes group by group, and fails on a code point out of range |
| QuotedPath.DecodeUndoesEncode | packages/peer-protocol/src/forge.ts:264-287 | decoding undoes encoding on every code point, surrogates included, whatever follows (RFC 3629, section 3) |
| QuotedPath.Utf16IsPair | packages/peer-protocol/src/forge.ts:284 | a code point outside the basic plane is a high and a low surrogate with ten bits each |
| QuotedPath.UnquotePath | packages/peer-protocol/src/forge.ts:249-262 | the loop collects the bytes of raw characters, octal and letter escapes |
| QuotedPath.UnquoteUndoesQuote | packages/peer-protocol/src/forge.ts:249-262 | of any bytes, unquoting what git writes gives the text decoded from them |
| QuotedPath.UnquotedPathIsPath | packages/peer-protocol/src/forge.ts:249-287 | a path comes back whichever of its characters were escaped |
| QuotedPath.PlainPathPasses | packages/peer-protocol/src/forge.ts:250-251 | an unquoted path passes, without the tab |
| QuotedPath.ThrowsExactly | packages/peer-protocol/src/forge.ts:249-287 | throws exactly when the path is quoted and a backslash has nothing to escape or bytes that begin a character stand for more than 0x10ffff |
| QuotedPath.QuotedThrowsExactly | packages/peer-protocol/src/forge.ts:274-287 | of what git writes, only the latter throws |
| QuotedPath.SomeNamesThrow | packages/peer-protocol/src/forge.ts:272-285 | file names that throw instead of being decoded with U+FFFD |
| Sse.SseParser.Feed | packages/peer-protocol/src/index.ts:380-401 | buffer and events are those of draining buffer and chunk |
| Sse.Parse | packages/peer-protocol/src/index.ts:386-398 | the event of a block, if its data lines make one |
| Sse.DrainInTwo | packages/peer-protocol/src/index.ts:383-400 | draining in two goes gives the same events and rest |
| Sse.ChunksDoNotMatter | packages/peer-protocol/src/index.ts:378-402 | any chunks that tear no line break give the events of the whole stream |
| SseTorn.DrainIsEmit | packages/peer-protocol/src/index.ts:383-400 | the events are those of the terminated lines, one by one |
| Lines.JoinSplit | packages/peer-protocol/src/index.ts:387-391 | a block split at line breaks and joined again is the block, and no line holds a break |
| SseTorn.ChunksAlike | packages/peer-protocol/src/index.ts:381 | however a stream is cut, the buffer holds its lines, some with a return kept |
| SseTorn.BlindExactly | packages/peer-protocol/src/index.ts:378-402 | which cuts change no event, now or after any further chunks, for the decoders that take no notice of a return at the end of a line |
| SseTorn.ClosingNeverShows | packages/peer-protocol/src/index.ts:378-402 | such a cut shows for no type of event and no such decoder |
| SseTorn.TornExactly | packages/peer-protocol/src/index.ts:378-402 | which cuts change no event, now or after any further chunks, whatever the decoder |
| SseTorn.HarmlessNeverShows | packages/peer-protocol/src/index.ts:378-402 | a cut that besides keeps no return behind data shows for no type of event and no decoder |
| SseTorn.TornEventIsMissing | packages/peer-protocol/src/index.ts:381-382 | every event whose empty line is torn is missing where the whole stream gives it |
| Sse.EventsComeBack | packages/peer-protocol/src/index.ts:372-402 | events encoded, joined and cut anywhere come back, with an empty buffer (HTML Living Standard, section 9.2) |
| PairLimiter.PairRateLimiter.RecordFailure | packages/peer-protocol/src/index.ts:271-279 | takes the step of the specification |
| PairLimiter.PairRateLimiter.LockedFor | packages/peer-protocol/src/index.ts:262-269 | locked exactly while time is left, and how much |
| PairLimiter.PairRateLimiter.Reset | packages/peer-protocol/src/index.ts:281-285 | back to the start |
| PairLimiter.RunKeeps | packages/peer-protocol/src/index.ts:271-279 | the failures remembered are those since the last lockout within the window, and no max+1 in a row are less than a window apart |
| PairLimiter.WindowBound | packages/peer-protocol/src/index.ts:251-279 | no interval as long as the window holds more than max failures |
| PairLimiter.LocksExactly | packages/peer-protocol/src/index.ts:271-278 | a failure locks exactly when it is the max-th within a window since the last lockout, and only then the end of the lockout changes |
| PairLimiter.DurationDoubles | packages/peer-protocol/src/index.ts:275 | the first lockout lasts lockoutMs and each twice as long as the one before, an hour at most |
| PairLimiter.BoundedExactlyWhenCovered | packages/peer-protocol/src/index.ts:251-279 | that bound holds of every run exactly when the window is no longer than lockoutMs and an hour |
| PairLimiter.LockNeverMovesBack | packages/peer-protocol/src/index.ts:274-277 | between resets the end of the lockout never moves back, failures while locked included |
| PairLimiter.LockoutsDouble | packages/peer-protocol/src/index.ts:275-276 | lockout k, counted from 0, lasts the lesser of an hour and lockoutMs times 2^k |

## Left out

- The QR penalty score is a function of the mask: it only chooses among symbols that all read back.
- How far apart the eight format words, and the version words, are.
- The conversion of a text to UTF-8 in front of `buildCodewords`: the model starts from bytes.
- deflate, chunk framing and the ASCII, SVG and terminal renderers.
- BlockDiff.DiffPair: the comparison with 0.7 of the length is a parameter, because its rounding is floating point
  and only decides whether a pair is shown at all.
- `blockText`, `classifyResolved` and `findNearest` would only add easy members.
- Relay.RelayServer.OnConnect: sockets, TLS, JSON frames and timers are steps and parameters; the base-36 time in a
  connection id is kept as a number beside the serial.
- RelayStream.BytesArrive: what Node buffers inside a socket is one queue; `unshift` puts bytes back in front of it.
  Closing may lose bytes on the way, never ones in between.
- `RelayLink`'s reconnecting and back-off, the keep-alive pings and the statistics of bytes.
- ClientHello.ParserInvertsWriter: one record only, as the code reads it; a hello split over records is answered
  from the first.
- DiffCache.CacheSafety: the head and its time to live that callers pass in (`currentHead`), the other caches and
  `mapLimit` are not modelled; any head the forge has had may be asked for at any time.
- AutoFix.RunAutoFix: which messages are which kind of failure and which files they name are answers of git; a push
  that succeeds adds one entry, a pop removes the top one exactly when it applies, and the operation leaves the
  stack alone. A status or stash list that rejects ends the call; looking for a paused operation or for conflicts
  does not reject.
- `getConflictFile`: cutting a file at its conflict markers would only add easy members.
- UnifiedDiff.ParseFileChunk: path decoding is a total function here, so a decoder that throws is not followed
  through the parser; `QuotedPath.ThrowsExactly` says when it throws, and `DiffCache.ForgeHost.FinishFetch` what a
  diff that cannot be split does to the cache.
- PatchSplit.PatchesReadBack: stated for lines that do not end with a carriage return; `PatchSplit.NormalizeText`
  says what becomes of those that do.
- Sse.EventsComeBack: JSON is assumed to give one line that begins with a brace and to parse back; that `JSON.parse`
  is one of the decoders of `SseTorn.BlindExactly` follows from its grammar, which is not modelled.
- HunkHeader.HeaderIsRead: counts are exact numbers; from 2^53 on the source rounds them.
- PairLimiter.WindowBound: a clock that does not go back and failures recorded only while not locked.
- The policy around the limiter, addresses, beacons and URIs in `packages/peer-protocol/src/index.ts`.
- User interface, IPC, Electron and the companion app.
