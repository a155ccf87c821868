# Models of the mail manager's algorithms

This project models the parts of the mail manager that compute something intricate, and
proves what they are meant to guarantee. Each module follows one source file, in that
file's own form: matrices and tables that the source fills in place are arrays and classes
with methods, parsers are loops proved against a recursive reading of the text, protocols
are step systems whose steps are the very functions the class methods are proved to compute.

- **QR symbols** (`GaloisField`, `ReedSolomon`, `ReedSolomonDistance`, `BchCode`,
  `QrCodewords`, `QrPatterns`, `QrCapacity`, `QrPlacement`, `QrFormat`, `QrPenalty`,
  `QrPenaltyLaws`, `QrStandard`, `QrEncoder`). The whole pipeline of `qrcode.ts` from bytes to a matrix, against a reader
  that only looks at the matrix: version from its size, mask from the format cells, the
  walk over the free cells, de-interleaving, then mode, count and bytes. The reader takes the
  mask from its picture, and patterns, positions, masks and penalty are proved equal to
  drawings, tables and counts that do not depend on the code. The end-to-end
  theorem is the contract of `QrEncoder.QrModules`. Section numbers are those of
  ISO/IEC 18004:2015.
- **Mail logs** (`LogLines`, `LogService`, `LogView`). A file is a growing sequence of
  bytes, the search an opaque predicate on lines, and the three limits are parameters.
  `LogLines.Kept` is the simple specification: split on newlines, drop empty lines, filter.
  The backward chunked reader, the follower and the window on screen are proved exact
  against it, the last one over every interleaving of requests, answers and frames.
- **Message markdown** (`MessageInline`, `MessagePatterns`, `MessageBlocks`, `MessageLines`,
  `MessageEntities`, `MessageInk`, `MessageQuotations`). Which delimiters and which lines are
  recognised is stated by the texts they match, in both directions. The tree of a text writes back as that text, links are safe at any
  depth of any block, blocks partition the lines and hold their text but for the marks, and
  the recursion through quotations ends. A quotation is read as a message of its own, its
  entities decoded once more; when that changes nothing is decided line by line, by
  counting how much text the blocks hold.
- **Metric chart** (`MetricCurve`). The monotone cubic curve over the reals.
- **Sessions** (`AuthStore`). The single-flight rotation of one-time refresh tokens.
- **Invitation permissions** (`InvitePermissions`). Checkboxes closed under dependencies.
- **Version tags** (`SemverTags`, `SemverParse`). How they are read, their order against section 11 of Semantic Versioning
  2.0.0, and the lists made with it.
- **DKIM sidecar** (`DkimTables`, `DkimNames`). The names it accepts, the key table, the signing table and the keys on disk.

`Strings` holds what several of them do with text, `Wrappers` the type of a value that may
be missing.

## Where the code and its promises differ

- `dkim-api.py` checks names with a `$` that also matches before a final newline. Such a
  name is accepted, its table line breaks in two, and no later request removes the pieces.
  `DkimTables.TablesAgreeIff` and `DkimTables.GenerateTwiceIff` give the exact condition,
  `DkimTables.NewlineIsAccepted` such a name.
- The follower skips to the last `FOLLOW_LIMIT` bytes when it falls further behind, but
  still hands out a frame that begins at its old offset, so a window that it extends misses
  what was skipped. `LogService.FrameExactIff` says exactly when a frame misses nothing, and
  `LogService.LateFrameMissesLine` shows one that does.
- `refresh` looks at the session before it looks at the rotation in flight. After a logout
  during a rotation a further caller is answered false at once, while the one who waits gets
  the outcome, and a successful outcome opens the session again, so that the logout is
  undone. `AuthStore.LogoutPartsCallers` is such a run; `AuthStore.SharesIff` and
  `AuthStore.LogoutLastsIff` give the exact conditions.
- `logout` asks the server first and clears the session only when that request is answered.
  A rotation posted meanwhile opens the session again, so that nothing being in flight when
  `logout` is called is not enough (`AuthStore.QuietCallIsNotEnough`); nothing in flight then
  and nothing posted before the answer is (`AuthStore.QuietLogoutLasts`). A login made while
  an older rotation is out meets the same fate: that rotation's pair, or its failure, takes
  the place of the new session (`AuthStore.LoginLastsIff`, `AuthStore.LoginIsOverwritten`).
- `parseBlocks` decodes entities in what it is given, and it is given the text of a quotation
  that is decoded already. A line that shows `&lt;` shows `<` once it is quoted, one decoding
  more at each depth (`MessageQuotations.QuotationDecodesAgain`).
  `MessageQuotations.QuotationIffSettled` says when a quotation shows what its texts would.
- `generatorPolynomial` reads `EXP[i]` past the end of the table as zero. Its roots are the
  powers below the degree exactly up to degree 512 (`ReedSolomon.RootsArePowersIff`); the
  error correction codewords are right at every degree all the same
  (`ReedSolomon.RemainderGivesCodeword`).
- Checking a permission adds only its direct dependencies, and unchecking removes only
  actions the catalogue lists. `InvitePermissions.CheckingKeepsClosedIff` and
  `InvitePermissions.UncheckingKeepsClosedIff` say when that keeps the set closed, and
  `InvitePermissions.NeedsOfNeedsAreMissed` shows that the first does not always, and
  `InvitePermissions.UnlistedKeyStays` that the second does not even with the catalogue in
  use, once a stored permission is no longer listed. From listed permissions on, that
  catalogue keeps every set closed, over any sequence of edits
  (`InvitePermissions.DomainEditsKeepClosed`).

## Model

| member | source | states |
|---|---|---|
| GaloisField.Generates | manager-ui/app/utils/qrcode.ts:96-109 | every non-zero byte is one of the first 255 powers of x modulo 0x11d, so the logarithm table has an entry for each |
| GaloisField.PowersDistinct | manager-ui/app/utils/qrcode.ts:96-109 | the first 255 powers are all different, so no table entry overwrites another |
| GaloisField.ProductOfPowers | manager-ui/app/utils/qrcode.ts:111-113 | exponents add under the field product, the law the two tables rest on |
| GaloisField.ProductAssociates | manager-ui/app/utils/qrcode.ts:111-113 | the schoolbook product modulo 0x11d is associative |
| GaloisField.ProductCommutes | manager-ui/app/utils/qrcode.ts:111-113 | it is commutative |
| GaloisField.ProductDistributes | manager-ui/app/utils/qrcode.ts:111-113 | it distributes over exclusive or on both sides |
| GaloisField.ProductUnits | manager-ui/app/utils/qrcode.ts:111-113 | one is neutral and a product is zero only when a factor is |
| ReedSolomon.Tables.constructor | manager-ui/app/utils/qrcode.ts:98-109 | the loops fill the exponent table with the powers of x up to 511 and the logarithm table with their inverse |
| ReedSolomon.Tables.Multiply | manager-ui/app/utils/qrcode.ts:111-113 | the product looked up in the tables is the product of the field, for all pairs of bytes |
| ReedSolomon.GeneratorPolynomial | manager-ui/app/utils/qrcode.ts:115-126 | the nested loops compute the product of the linear factors |
| ReedSolomon.GeneratorRoots | manager-ui/app/utils/qrcode.ts:115-126 | the generator is monic of its degree and vanishes exactly at the entries it was built from |
| ReedSolomon.RootsArePowersIff | manager-ui/app/utils/qrcode.ts:115-126 | these roots are exactly the powers of x below the degree if and only if the degree is at most 512 |
| ReedSolomon.ErrorCorrection | manager-ui/app/utils/qrcode.ts:128-137 | the shift register gives `degree` codewords that complete the data into a polynomial vanishing at the first `degree` powers |
| ReedSolomon.RemainderGivesCodeword | manager-ui/app/utils/qrcode.ts:128-137 | data followed by its remainder vanishes at the powers 0 to degree - 1, for every data sequence and every degree from 1 |
| ReedSolomon.CodewordIsUnique | manager-ui/app/utils/qrcode.ts:128-137 | no other codewords complete the data into a word of the code |
| ReedSolomon.SyndromesCharacterize | manager-ui/app/utils/qrcode.ts:128-137 | a block passes the syndrome test if and only if its tail is what this encoder computes for its data |
| ReedSolomonDistance.CodewordsAreHeavy | manager-ui/app/utils/qrcode.ts:128-137 | a non-zero word of the code of at most 255 codewords has more than `degree` non-zero ones |
| ReedSolomonDistance.CodewordsAreApart | manager-ui/app/utils/qrcode.ts:128-137 | two different words of the code differ in more than `degree` places |
| ReedSolomonDistance.ErrorsAreCorrectable | manager-ui/app/utils/qrcode.ts:128-137 | a block with at most degree / 2 wrong codewords can only come from the block that was encoded |
| QrCodewords.TableFacts | manager-ui/app/utils/qrcode.ts:15-58 | every row of the version table leaves room for data in each block, keeps blocks under 255 codewords and bounds the data codewords, to 182 where the count has one byte |
| QrCodewords.SmallestVersion | manager-ui/app/utils/qrcode.ts:80-85 | the result holds the message and no smaller version does; none is found exactly when none exists |
| QrCodewords.LongestMessage | manager-ui/app/utils/qrcode.ts:70-85 | some version holds a message if and only if it has at most 2331 bytes |
| QrCodewords.CountFieldHolds | manager-ui/app/utils/qrcode.ts:75-78 | the count field does not overflow in a version that holds the message |
| QrCodewords.StreamLength | manager-ui/app/utils/qrcode.ts:141-152 | header, four terminator bits and padding fill the capacity exactly |
| QrCodewords.ParseOfStream | manager-ui/app/utils/qrcode.ts:141-152 | reading mode, count and bytes from the stream gives the message back |
| QrCodewords.DataBits | manager-ui/app/utils/qrcode.ts:142-152 | the pushing loops, the terminator clipped to the capacity, the alignment and the alternating pads make exactly that stream |
| QrCodewords.GatherBytes | manager-ui/app/utils/qrcode.ts:154-159 | grouping the bits eight by eight loses none of them |
| QrCodewords.BlocksCoverData | manager-ui/app/utils/qrcode.ts:161-173 | consecutive blocks, the short ones first and one codeword shorter at most, begin where the last one ended and together are the version's data codewords |
| QrCodewords.SplitBlocks | manager-ui/app/utils/qrcode.ts:161-173 | each block is its slice of the data and is protected by its own error correction codewords |
| QrCodewords.Deinterleaves | manager-ui/app/utils/qrcode.ts:175-182 | the interleaved output has the version's total length and a reader finds every data and error correction block in it |
| QrCodewords.Codewords | manager-ui/app/utils/qrcode.ts:141-183 | the codewords of a message fill the version, read back as the message and form words of the code block by block |
| QrCodewords.CodewordsDetermined | manager-ui/app/utils/qrcode.ts:141-183 | two codeword sequences that carry the same data and whose blocks are words of the code are the same, place by place |
| QrCodewords.DamagedBlockIsRecoverable | manager-ui/app/utils/qrcode.ts:161-182 | a block of a symbol read with at most half as many errors as it has error correction codewords can only be that block |
| BchCode.EncodeIsTheCodeword | manager-ui/app/utils/qrcode.ts:253-256 | long division gives the one multiple of the generator that begins with the data, for any generator and data |
| BchCode.RegisterEncodes | manager-ui/app/utils/qrcode.ts:320-323 | the shift register ends with the same check bits as the long division |
| QrPatterns.AlignmentPositions | manager-ui/app/utils/qrcode.ts:185-192 | the splicing loop gives the positions counted back from the far edge |
| QrPatterns.PositionsSpaced | manager-ui/app/utils/qrcode.ts:185-192 | for all forty versions the positions are even, run from 6 to n - 7 and lie at least twelve apart |
| QrPatterns.VersionConstant | manager-ui/app/utils/qrcode.ts:255 | the generator of the version code is 0x1f25 |
| QrPatterns.VersionInformation | manager-ui/app/utils/qrcode.ts:253-256 | the top-down clearing of bits computes the version word |
| QrPatterns.VersionWordIsTheCodeword | manager-ui/app/utils/qrcode.ts:253-256 | a word of eighteen bits is the version information if and only if it begins with the version and is in the code |
| QrPatterns.Canvas.Set | manager-ui/app/utils/qrcode.ts:200-205 | one cell is drawn and reserved, nothing outside the matrix or elsewhere changes |
| QrPatterns.FunctionPatterns | manager-ui/app/utils/qrcode.ts:196-267 | after all drawing steps every cell shows and reserves what the picture of the version says |
| QrCapacity.FindersIntact | manager-ui/app/utils/qrcode.ts:208-218 | the three finder patterns are whole, separators included: nothing drawn later touches them |
| QrCapacity.AlignmentIntact | manager-ui/app/utils/qrcode.ts:225-239 | every alignment pattern is whole, also the ones on a timing line |
| QrCapacity.TimingIntact | manager-ui/app/utils/qrcode.ts:220-223 | the timing lines alternate from end to end, also under alignment patterns |
| QrCapacity.ColumnSixReserved | manager-ui/app/utils/qrcode.ts:208-223 | row and column 6 are reserved from edge to edge in every version |
| QrCapacity.FormatCellsReserved | manager-ui/app/utils/qrcode.ts:241-251 | every cell the format information or the dark module takes is reserved |
| QrCapacity.ReservedIsCovered | manager-ui/app/utils/qrcode.ts:196-267 | every reserved cell lies in one of the counted regions |
| QrCapacity.EnoughCells | manager-ui/app/utils/qrcode.ts:17-58 | in every version the unreserved cells are enough for the codewords of the table |
| QrStandard.TotalsAreCapacity | manager-ui/app/utils/qrcode.ts:17-58 | the codewords of each version are as many as fit into its cells by the area of the function patterns: fewer than eight cells remain |
| QrStandard.FinderIsDrawn | manager-ui/app/utils/qrcode.ts:208-218 | a finder pattern with its separator is the drawing of the standard |
| QrStandard.AlignmentIsDrawn | manager-ui/app/utils/qrcode.ts:225-239 | so is an alignment pattern |
| QrStandard.PositionsOfTable | manager-ui/app/utils/qrcode.ts:185-192 | the computed alignment positions are the table of annex E, for all forty versions |
| QrStandard.VersionCells | manager-ui/app/utils/qrcode.ts:253-265 | every bit of the version information is in its two cells |
| QrStandard.DarkModule | manager-ui/app/utils/qrcode.ts:251-251 | the cell beside the lower left finder is dark in every version |
| QrPlacement.StepIsCell | manager-ui/app/utils/qrcode.ts:269-286 | every step of the zig-zag is a cell outside column 6 from which the step can be told |
| QrPlacement.CellIsStep | manager-ui/app/utils/qrcode.ts:269-286 | every cell outside column 6 is a step of the zig-zag |
| QrPlacement.DirectionsAlternate | manager-ui/app/utils/qrcode.ts:277-278 | the column pairs are walked upwards and downwards in turn, upwards first |
| QrPlacement.DataCellsAreTheFreeCells | manager-ui/app/utils/qrcode.ts:269-286 | for any odd size and any reservation with column 6 the walk meets every unreserved cell, once, and no other |
| QrPlacement.PlaceData | manager-ui/app/utils/qrcode.ts:269-286 | along the walk the cells hold the bits of the data, and every other cell is as before |
| QrPlacement.DataBitsThenZeros | manager-ui/app/utils/qrcode.ts:280-281 | read back in the order of the walk these are the bits of the data followed only by zeros |
| QrStandard.WalkGoesOn | manager-ui/app/utils/qrcode.ts:269-286 | the walk begins in the lower right corner, goes left, then on by a row, up and down in turn, pair by pair to the left edge, passing over column 6 |
| QrFormat.ApplyMask | manager-ui/app/utils/qrcode.ts:309-316 | exactly the unreserved cells on which the picture of the mask is dark are inverted, and no reserved cell changes |
| QrFormat.MaskIsPicture | manager-ui/app/utils/qrcode.ts:288-307 | each of the eight masks is dark exactly where its drawn picture, laid over the symbol again and again, is |
| QrFormat.FormatConstants | manager-ui/app/utils/qrcode.ts:322-323 | generator and pattern of the format code are 0x537 and 0x5412 |
| QrFormat.FormatInformation | manager-ui/app/utils/qrcode.ts:320-323 | the ten-step register computes the format word |
| QrFormat.ReadFormatOfWord | manager-ui/app/utils/qrcode.ts:318-324 | a reader that tests for the code finds level M and the mask in the format word |
| QrFormat.WriteFormat | manager-ui/app/utils/qrcode.ts:318-336 | both copies and the dark module are written bit by bit in their places, and no other cell changes |
| QrPenalty.Runs | manager-ui/app/utils/qrcode.ts:343-356 | the counting loop gives three for each maximal run of five and one for each cell beyond |
| QrPenalty.LastRunIsARun | manager-ui/app/utils/qrcode.ts:343-352 | the runs counted are maximal stretches of one colour |
| QrPenalty.FinderScore | manager-ui/app/utils/qrcode.ts:365-376 | forty for each place where a finder pattern stands beside four light cells |
| QrPenalty.BalanceScore | manager-ui/app/utils/qrcode.ts:377-380 | the floor of the real quotient is an exact integer division: ten for each full five percent off one half |
| QrPenalty.Score | manager-ui/app/utils/qrcode.ts:340-382 | the loops over the matrix add up the four features |
| QrPenaltyLaws.RunsCounted | manager-ui/app/utils/qrcode.ts:343-352 | a line costs one for each five cells alike in it, and two more for each run they begin |
| QrPenaltyLaws.PenaltyCounts | manager-ui/app/utils/qrcode.ts:340-382 | the penalty by numbers of places: five alike and beginnings of runs, along rows and columns, three for each block, forty for each place that looks like a finder pattern with light cells beside it, and the number of dark cells |
| QrPenaltyLaws.BalanceIff | manager-ui/app/utils/qrcode.ts:377-380 | the last part is ten times k exactly when the dark cells are k, but not k + 1, steps of five percent away from one half |
| QrPenaltyLaws.PenaltyTurned | manager-ui/app/utils/qrcode.ts:340-382 | rows and columns count alike: the matrix turned about its diagonal has the same penalty |
| QrEncoder.Candidate | manager-ui/app/utils/qrcode.ts:391-394 | drawing, placing, masking and writing the format give the matrix a version, codewords and mask determine |
| QrEncoder.CandidateIsUnique | manager-ui/app/utils/qrcode.ts:391-394 | that description leaves no cell open |
| QrEncoder.CandidateDecodes | manager-ui/app/utils/qrcode.ts:384-402 | each of the eight candidates reads as the same message |
| QrEncoder.CandidateFormatAgain | manager-ui/app/utils/qrcode.ts:331-335 | a reader of the second copy of the format information finds the same word as one of the first |
| QrEncoder.BestCandidate | manager-ui/app/utils/qrcode.ts:388-401 | the matrix kept has the least penalty of the eight, and the lowest mask among equals |
| QrEncoder.QrModules | manager-ui/app/utils/qrcode.ts:384-402 | end to end: a message of at most 2331 bytes gives a matrix that decodes to exactly that message, the mask taken off by its picture, in the smallest version, with protected blocks and the least penalty; a longer one gives none |
| LogLines.KeptConcat | manager-api/src/api/mail-logs/mail-logs.service.ts:113-117 | at a clean cut the matching lines of a file are those of its two parts |
| LogLines.KeptLineByLine | manager-api/src/api/mail-logs/mail-logs.service.ts:113-144 | a text up to its first newline is a line, kept unless it is empty or does not match, and what follows is the rest |
| LogLines.CutIsExact | manager-api/src/api/mail-logs/mail-logs.service.ts:96-104 | cutting loses nothing if and only if the cut is not inside a line |
| LogLines.SelectKept | manager-ui/app/composables/useMailLog.ts:106-107 | filtering the lines of a frame in the browser is filtering while splitting |
| LogService.MailLogs.SearchChunk | manager-api/src/api/mail-logs/mail-logs.service.ts:134-146 | the inner loop keeps what was found, the start and the carried beginning of a line exact, wherever the chunk edge cuts |
| LogService.MailLogs.ReadBack | manager-api/src/api/mail-logs/mail-logs.service.ts:121-147 | chunk by chunk backwards: it stops on enough lines, at the beginning or at the scan limit, with everything above read exactly |
| LogService.MailLogs.Tail | manager-api/src/api/mail-logs/mail-logs.service.ts:107-166 | for any file, position, filter and chunk size the answer is exactly the matching lines from `start`, at most as many as wanted; as many means that `start` begins the first one, fewer that the file is used up or that the last bytes the limit allows, in whole chunks, were read, `start` being their first line break; `truncated` exactly when the limit stopped it |
| LogService.AnswerIsTheLastLines | manager-api/src/api/mail-logs/mail-logs.service.ts:107-166 | the answer is the last wanted matching lines if and only if it has that many or none is left before its start; always when the limit allows all the bytes asked about |
| LogService.AnswerProgressesIff | manager-api/src/api/mail-logs/mail-logs.service.ts:121-165 | `start` lies strictly below the bytes asked about if and only if there are any and the last ones the limit allows, in whole chunks, are all of them or hold a line break |
| LogService.AnswerIsUnique | manager-api/src/api/mail-logs/mail-logs.service.ts:107-166 | file, position, filter and limits leave only one answer, lines and start |
| LogService.PagesAreExact | manager-api/src/api/mail-logs/mail-logs.service.ts:121-165 | pages asked for one from the start of the other, while the file grows, together are the matching lines from the last start: none lost, repeated or split |
| LogService.PagesAreComplete | manager-api/src/api/mail-logs/mail-logs.service.ts:121-165 | once a page starts at 0 they are all matching lines of the prefix |
| LogService.MailLogs.Follow | manager-api/src/api/mail-logs/mail-logs.service.ts:75-105 | one call changes only the offset of its service, as one step of the follower |
| LogService.FrameIsExact | manager-api/src/api/mail-logs/mail-logs.service.ts:86-104 | a follower at most the limit behind hands out exactly the lines it passes over and stops right behind the last line break of the file |
| LogService.FollowerMovesIff | manager-api/src/api/mail-logs/mail-logs.service.ts:86-104 | a look moves the follower on if and only if the bytes it reads hold a line break, then right behind the last one of the file; otherwise it stays and hands out nothing |
| LogService.FollowerKeepsUp | manager-api/src/api/mail-logs/mail-logs.service.ts:75-105 | over any number of looks at a growing file, none of them late, the frames together are exactly the lines up to the last line break of the file, where the follower then stands |
| LogService.LateFrame | manager-api/src/api/mail-logs/mail-logs.service.ts:86-104 | one further behind hands out exactly the lines after the first line break it still reads, up to the last one of the file |
| LogService.FrameExactIff | manager-api/src/api/mail-logs/mail-logs.service.ts:86-104 | a frame that advances misses nothing if and only if the follower was at most the limit behind or what it skipped holds no line |
| LogService.LateFrameMissesLine | manager-api/src/api/mail-logs/mail-logs.service.ts:86-104 | whatever the limit, from one byte on, a follower one byte too far behind passes over a line and hands out none |
| LogView.MailLogView.StartLoad | manager-ui/app/composables/useMailLog.ts:29-36 | loading takes a new ticket and supersedes older pages, unless the view is gone |
| LogView.MailLogView.FinishLoad | manager-ui/app/composables/useMailLog.ts:36-44 | only the answer of the current ticket is shown |
| LogView.MailLogView.StartLoadOlder | manager-ui/app/composables/useMailLog.ts:47-53 | an older page is asked for from the window's start, one at a time and never while loading |
| LogView.MailLogView.FinishLoadOlder | manager-ui/app/composables/useMailLog.ts:53-65 | a current answer is put before the window and moves its start |
| LogView.MailLogView.OnFrame | manager-ui/app/composables/useMailLog.ts:98-114 | a frame that continues the window extends it, one that leaves a gap reloads, an old one is ignored |
| LogView.FrameExtends | manager-ui/app/composables/useMailLog.ts:106-113 | an exact window extended by an exact frame is exact |
| LogView.OlderPageJoins | manager-ui/app/composables/useMailLog.ts:53-60 | an exact page put before an exact window is exact |
| LogView.DeliverKeeps | manager-ui/app/composables/useMailLog.ts:29-66 | an answer or a failure, awaited or late, keeps the window exact and at most one request awaited |
| LogView.StepKeepsExact | manager-ui/app/composables/useMailLog.ts:29-122 | every step of view, service, follower and file keeps the invariant |
| LogView.WindowIsExact | manager-ui/app/composables/useMailLog.ts:29-122 | after every run the window holds exactly the matching lines of the file from its start to its size |
| LogView.FrameIsHeeded | manager-ui/app/composables/useMailLog.ts:98-114 | in every run, a frame that comes while nothing is loading leaves the window ending where the frame does, or further, or asked for anew |
| LogView.AnswerIsShown | manager-ui/app/composables/useMailLog.ts:29-66 | the awaited answer is shown and the view is ready again; a failure is told |
| LogView.AskedIff | manager-ui/app/composables/useMailLog.ts:29-53 | an older page is asked for, from the start of the window, exactly when there is one and nothing is awaited |
| MessageInline.SafeHrefAccepts | manager-ui/app/utils/messageMarkdown.ts:42-48 | an address is accepted if and only if, trimmed, it has a safe scheme and no space, quote, angle bracket or control character; accepting again changes nothing |
| MessagePatterns.SafeHrefIff | manager-ui/app/utils/messageMarkdown.ts:32-48 | an address is accepted exactly when, trimmed, it begins with `http://`, `https://`, `mailto:` or `/` in either case and holds none of the characters named; what is accepted is that |
| MessageInline.RuleMatches | manager-ui/app/utils/messageMarkdown.ts:53-63 | whatever rule matches, the text matched is its delimiters and its inner text, no more and no less |
| MessagePatterns.RuleIffFirst | manager-ui/app/utils/messageMarkdown.ts:53-63 | a rule applies exactly when it is that of the first of the nine patterns, in their order, that reads the text, and its address, if it is a link, is accepted; each pattern is given by the texts it reads, with the nearest closing delimiter |
| MessageInline.ParseInline | manager-ui/app/utils/messageMarkdown.ts:65-121 | the loop with its buffer, and its recursion, computes the tree of the text |
| MessagePatterns.RuleTree | manager-ui/app/utils/messageMarkdown.ts:65-121 | a text that begins with such a rule is drawn as its node, then the rest |
| MessagePatterns.StrongTree | manager-ui/app/utils/messageMarkdown.ts:53-107 | a text between two stars or underscores is bold |
| MessagePatterns.StrongEmTree | manager-ui/app/utils/messageMarkdown.ts:53-107 | between three it is bold and italic |
| MessagePatterns.EmTree | manager-ui/app/utils/messageMarkdown.ts:53-107 | between one it is italic, if no line ends in it |
| MessagePatterns.StrikeTree | manager-ui/app/utils/messageMarkdown.ts:53-107 | between two tildes it is struck through |
| MessagePatterns.CodeTree | manager-ui/app/utils/messageMarkdown.ts:53-107 | between backticks it is code, not read further |
| MessagePatterns.LinkTree | manager-ui/app/utils/messageMarkdown.ts:53-107 | a link is drawn when its address is accepted and stays text when it is refused |
| MessagePatterns.PlainTextStays | manager-ui/app/utils/messageMarkdown.ts:65-121 | a text without delimiters and line breaks is one text |
| MessagePatterns.BreakTree | manager-ui/app/utils/messageMarkdown.ts:65-121 | the end of a line is a break |
| MessageInline.InlineIsLossless | manager-ui/app/utils/messageMarkdown.ts:65-121 | writing the tree back gives the text exactly, refused links and unmatched delimiters included |
| MessageInline.InlineIsWellFormed | manager-ui/app/utils/messageMarkdown.ts:65-121 | at any depth every link has an accepted address, no text or code is empty and no two texts stand side by side |
| MessageBlocks.LinesOfWeight | manager-ui/app/utils/messageMarkdown.ts:135-142 | decoding entities and normalising line breaks never lengthen a message |
| MessageBlocks.JoinSplit | manager-ui/app/utils/messageMarkdown.ts:140-142 | the lines joined again are the text, and no line holds a line break |
| MessageBlocks.QuoteTextsShorter | manager-ui/app/utils/messageMarkdown.ts:179-187 | a quotation out of its marks is shorter than it was in them, which is why the recursion ends |
| MessageBlocks.ParseBlock | manager-ui/app/utils/messageMarkdown.ts:147-218 | one turn of the loop reads the first block and stops right after its lines |
| MessageBlocks.ParseBlocks | manager-ui/app/utils/messageMarkdown.ts:139-222 | the parser ends on every message and gives its blocks |
| MessageBlocks.BlockStandsAlone | manager-ui/app/utils/messageMarkdown.ts:147-218 | the lines a block takes make that block by themselves |
| MessageBlocks.SpansPartitionLines | manager-ui/app/utils/messageMarkdown.ts:139-222 | each block is made by a stretch of lines, the stretches are in order and disjoint, and every line that is not blank is in one |
| MessageBlocks.BlockKeepsText | manager-ui/app/utils/messageMarkdown.ts:147-218 | a paragraph writes back as its lines, a heading as what follows its hashes and space, each item line is space, a bullet or number, space and the item written back, a code block the very lines between its fences; each quoted line is its mark, at most one space and a text, and the quotation is the message these texts make when they are decoded once more |
| MessageBlocks.BlocksAreWellFormed | manager-ui/app/utils/messageMarkdown.ts:139-222 | every link of a parsed message has an accepted address, in paragraphs, headings and items, at any depth of quotations |
| MessageLines.BlankIff | manager-ui/app/utils/messageMarkdown.ts:161-164 | a line is blank exactly when it is all space |
| MessageLines.FenceIff | manager-ui/app/utils/messageMarkdown.ts:23-23 | a fence is three backticks after any space |
| MessageLines.RuleIff | manager-ui/app/utils/messageMarkdown.ts:28-28 | a rule is three or more hyphens, stars or underscores, all the same, with space around them |
| MessageLines.HeadingIff | manager-ui/app/utils/messageMarkdown.ts:24-24 | a heading is one to six hashes, space and the text |
| MessageLines.QuoteIff | manager-ui/app/utils/messageMarkdown.ts:25-25 | a quoted line is a closing angle bracket, at most one space and the text |
| MessageLines.ItemIff | manager-ui/app/utils/messageMarkdown.ts:26-27 | an item is space, a bullet or a number with a point or bracket, space and the text |
| MessageLines.BlankTree | manager-ui/app/utils/messageMarkdown.ts:161-164 | a blank line makes nothing |
| MessageLines.RuleBlock | manager-ui/app/utils/messageMarkdown.ts:166-170 | a rule makes a rule |
| MessageLines.HeadingBlock | manager-ui/app/utils/messageMarkdown.ts:172-177 | hashes make a heading of their number with the tree of the text |
| MessageLines.CodeBlockTree | manager-ui/app/utils/messageMarkdown.ts:149-159 | what stands between fences is one code block, as it is, also when no fence closes it |
| MessageLines.QuoteBlock | manager-ui/app/utils/messageMarkdown.ts:179-187 | quoted lines that follow one another make one quotation of their texts |
| MessageLines.ListBlock | manager-ui/app/utils/messageMarkdown.ts:189-199 | items of one kind that follow one another make one list of their trees |
| MessageLines.ParagraphBlock | manager-ui/app/utils/messageMarkdown.ts:201-218 | lines of no kind that follow one another make one paragraph |
| MessageEntities.EntitiesDecoded | manager-ui/app/utils/messageMarkdown.ts:126-137 | what each of the six entities stands for, before any text |
| MessageEntities.OthersStay | manager-ui/app/utils/messageMarkdown.ts:126-137 | any other character stays, an ampersand that begins no entity included |
| MessageEntities.DecodeShortens | manager-ui/app/utils/messageMarkdown.ts:135-137 | decoding makes every text it changes shorter |
| MessageEntities.LinesOfTexts | manager-ui/app/utils/messageMarkdown.ts:135-142 | lines joined and read as a message are those lines, each decoded on its own, and are left as they are exactly when the joined text is |
| MessageInk.DecodedInk | manager-ui/app/utils/messageMarkdown.ts:135-218 | decoding a line that is no fence and no quotation never gives it more text to show, and gives it less if it changes the line |
| MessageQuotations.InkOfLines | manager-ui/app/utils/messageMarkdown.ts:139-222 | without fences and quotations, the blocks hold as much text as their lines have besides their marks |
| MessageQuotations.CutAtFence | manager-ui/app/utils/messageMarkdown.ts:147-161 | the blocks are those of the lines before the first fence, then those of the lines from it on |
| MessageQuotations.QuotationIffSettled | manager-ui/app/utils/messageMarkdown.ts:139-187 | a quotation shows what its texts would show outside of it if decoding changes no line of them but the fences of code; unless it holds a quotation itself, only then |
| MessageQuotations.UndecodedIsSettled | manager-ui/app/utils/messageMarkdown.ts:135-142 | so it does when decoding leaves the joined texts as they are, such as when no text holds an ampersand |
| MessageQuotations.QuotationDecodesAgain | manager-ui/app/utils/messageMarkdown.ts:139-187 | the line `&amp;lt;` is drawn as `&lt;`, and as `<` when it is quoted |
| MessageQuotations.QuotedTwiceIsDecodedTwice | manager-ui/app/utils/messageMarkdown.ts:139-187 | around a quotation that holds an entity another shows what its texts do although decoding changes them |
| MetricCurve.MetricRuns | manager-ui/app/utils/metricChart.ts:43-59 | the runs are unbroken, a hole separates each from the next, and together they are the recorded points in order |
| MetricCurve.MetricCurve | manager-ui/app/utils/metricChart.ts:65-97 | a dot for a single point, otherwise one cubic segment between each two neighbours |
| MetricCurve.SegmentOrdered | manager-ui/app/utils/metricChart.ts:71-93 | the four control ordinates of a segment run one way, from one point to the next |
| MetricCurve.SlopeIsLargest | manager-ui/app/utils/metricChart.ts:71-83 | inside a run no larger tangent keeps a third of itself within half of both neighbouring steps, and this one does |
| MetricCurve.CurveIsSmooth | manager-ui/app/utils/metricChart.ts:80-97 | on the plot the control points on either side of a point lie a third of its tangent below and above it, so the curve has no corner |
| MetricCurve.EndsAreStraight | manager-ui/app/utils/metricChart.ts:75-77 | at either end the curve sets out straight for the neighbour |
| MetricCurve.TurnsAreFlat | manager-ui/app/utils/metricChart.ts:80-93 | at a peak or in a hollow the drawn curve lies flat on both sides: t of the way from the point it has moved by at most three times the square of t of the step |
| MetricCurve.YReverses | manager-ui/app/utils/metricChart.ts:29-38 | the clamping scale reverses order and stays inside the padding |
| MetricCurve.YEnds | manager-ui/app/utils/metricChart.ts:29-38 | nothing and less lie at the bottom of the plot, the span and more at its top |
| MetricCurve.YIsEven | manager-ui/app/utils/metricChart.ts:29-38 | a value that is a share of the span stands at that share of the way up |
| MetricCurve.YFallsEvenly | manager-ui/app/utils/metricChart.ts:29-38 | on the span more is drawn strictly higher, and the middle in the middle |
| MetricCurve.XIsEven | manager-ui/app/utils/metricChart.ts:29-38 | the first place is the left edge, the last one the right edge, and the steps between are equal |
| MetricCurve.OrderedBezier | manager-ui/app/utils/metricChart.ts:61-64 | a Bezier curve with ordered control points is monotone and stays between its ends |
| MetricCurve.EvenBezier | manager-ui/app/utils/metricChart.ts:88-93 | control points at thirds make the curve advance evenly along the axis |
| MetricCurve.DrawnCurveStaysInside | manager-ui/app/utils/metricChart.ts:61-97 | the drawn curve, clamping included, goes from point to point without turning back and never leaves their interval |
| MetricCurve.FlatStretchIsFlat | manager-ui/app/utils/metricChart.ts:65-97 | between two equal values the drawn curve is constant |
| AuthStore.AuthStore.StartRefresh | manager-ui/app/stores/auth.ts:139-152 | without a session it answers false, during a rotation it shares, otherwise it posts the session's token |
| AuthStore.AuthStore.StartRefreshIfNeeded | manager-ui/app/stores/auth.ts:168-181 | a token that is not near its expiry is left alone |
| AuthStore.AuthStore.FinishRefresh | manager-ui/app/stores/auth.ts:153-161 | the outcome opens or ends the session and the guard is free again |
| AuthStore.AuthStore.StartLogout | manager-ui/app/stores/auth.ts:126-134 | with a session open the server is asked and the session stays open; without one it is closed at once |
| AuthStore.AuthStore.FinishLogout | manager-ui/app/stores/auth.ts:126-134 | the answer, or its failure, closes whatever session is open by then and leaves a rotation in flight alone |
| AuthStore.StepKeepsInv | manager-ui/app/stores/auth.ts:84-181 | every call, answer, login and logout keeps at most one rotation out and never leaves a posted token to be posted again |
| AuthStore.CallersShareTheOutcome | manager-ui/app/stores/auth.ts:139-181 | over every run a call that needs a rotation waits for the next one to settle and is answered with its outcome, any other call is answered at once with whether a session is open, and no answer changes later |
| AuthStore.SharesIff | manager-ui/app/stores/auth.ts:139-181 | a call made during a rotation shares it if and only if a session is open and, for `refreshIfNeeded`, its expiry is unreadable, past, or at most two minutes away; outside of a rotation it posts one under the same condition |
| AuthStore.SharesUnlessLoggedOut | manager-ui/app/stores/auth.ts:139-164 | a later caller of `refresh` shares the rotation in flight if and only if the last login or answered logout since it was posted, if any, is a login |
| AuthStore.LogoutPartsCallers | manager-ui/app/stores/auth.ts:126-164 | the run in which two callers of one rotation are answered true and false, a logout having been answered between them, and the session is open again afterwards |
| AuthStore.LogoutLastsIff | manager-ui/app/stores/auth.ts:126-164 | a logout keeps the session closed until the next login, whatever happens in between, if and only if no rotation is out when it is answered |
| AuthStore.QuietLogoutLasts | manager-ui/app/stores/auth.ts:126-164 | in every run, a logout called with nothing in flight and answered before anything else is posted keeps the session closed until the next login |
| AuthStore.QuietCallIsNotEnough | manager-ui/app/stores/auth.ts:126-164 | the run in which nothing is in flight when the logout is called, a rotation is posted while it waits, and its pair opens the session again |
| AuthStore.LoginLastsIff | manager-ui/app/stores/auth.ts:84-164 | the session of a login stays until the next login, the next logout is answered or the next rotation is posted if and only if no older rotation is out |
| AuthStore.LoginIsOverwritten | manager-ui/app/stores/auth.ts:84-164 | the run in which a login made during a rotation loses its session to that rotation's pair |
| AuthStore.RotationIsSingleFlight | manager-ui/app/stores/auth.ts:3-9 | over every run at most one rotation is outstanding and no refresh token is posted twice |
| InvitePermissions.Editor.Toggle | manager-ui/app/composables/useInviteDomainGroup.ts:156-161 | the box, then the dependencies: the new set is the old one with the key and its needs, or without what is cleared and what needs it |
| InvitePermissions.Editor.CheckAllResource | manager-ui/app/composables/useInviteDomainGroup.ts:163-167 | the same for all actions of a resource |
| InvitePermissions.Editor.EnforceDependsOn | manager-ui/app/composables/useInviteDomainGroup.ts:136-147 | the loops add all needs, or clear every resource that needs a cleared action |
| InvitePermissions.CheckingIsLeast | manager-ui/app/composables/useInviteDomainGroup.ts:136-142 | with transitive needs, checking gives the least closed set that holds the old one and the keys |
| InvitePermissions.UncheckingIsGreatest | manager-ui/app/composables/useInviteDomainGroup.ts:143-146 | unchecking gives the greatest closed subset without the cleared keys |
| InvitePermissions.UncheckingKeepsClosedIff | manager-ui/app/composables/useInviteDomainGroup.ts:143-146 | it keeps a closed set closed if and only if every checked key that has to go is one the catalogue lists |
| InvitePermissions.CheckingKeepsClosedIff | manager-ui/app/composables/useInviteDomainGroup.ts:136-142 | checking keeps every closed set closed if and only if the key and its direct needs are closed by themselves |
| InvitePermissions.ToggleKeepsClosed | manager-ui/app/composables/useInviteDomainGroup.ts:120-161 | every toggle of a listed set keeps it closed, and is the least or the greatest such change; unchecking takes away the key, or all keys of the resource for `access`, and exactly what needs them, and leaves everything else; the set stays listed if and only if what is checked, with its needs, is listed |
| InvitePermissions.EditsKeepClosed | manager-ui/app/composables/useInviteDomainGroup.ts:156-167 | over any sequence of toggles and whole-resource edits of boxes the catalogue offers, a closed and listed set stays closed and listed |
| InvitePermissions.UnlistedKeyStays | manager-ui/app/composables/useInviteDomainGroup.ts:143-147 | with the catalogue in use, a closed set with any permission on quotas that is not listed, which unchecking the access to the domain leaves open |
| InvitePermissions.NeedsOfNeedsAreMissed | manager-ui/app/composables/useInviteDomainGroup.ts:136-142 | a catalogue whose needs have needs, with which checking leaves a closed set open |
| InvitePermissions.DomainCatalogIsTransitive | manager-api/src/core/custom-permission-guard/permission-catalog.ts:187-200 | the domain dependencies in use are transitive |
| InvitePermissions.DomainCatalogIsComplete | manager-api/src/core/custom-permission-guard/permission-catalog.ts:127-200 | every need of a domain resource is an action the catalogue lists |
| InvitePermissions.DomainEditsKeepClosed | manager-api/src/core/custom-permission-guard/permission-catalog.ts:127-200 | with the domain actions and dependencies in use, a closed set of listed permissions, such as none, is closed after any sequence of edits |
| InvitePermissions.ParseOfPermKey | manager-ui/app/composables/useInviteDomainGroup.ts:79-186 | a key splits back into resource and action if and only if the resource holds no colon |
| SemverTags.CompareTagsIsPrecedence | manager-ui/app/utils/semverTags.ts:27-49 | the comparison is negative or positive exactly when the precedence of the standard says so |
| SemverTags.CompareTagsIsTotalPreorder | manager-ui/app/utils/semverTags.ts:27-49 | it is reflexive, sign-antisymmetric, total and transitive |
| SemverParse.ParseTagIff | manager-ui/app/utils/semverTags.ts:11-20 | a name is read as a tag exactly when, trimmed, it is written from three numbers, a `v` before them or not, and identifiers after a hyphen; then these are what is read |
| SemverParse.WrittenTagIsRead | manager-ui/app/utils/semverTags.ts:11-20 | a name written from three numbers and a list of identifiers is read as exactly these |
| SemverTags.StableSortIsUnique | manager-ui/app/utils/semverTags.ts:58-63 | two descending rearrangements that keep the order of equals are the same list |
| SemverTags.SortIsStablySorted | manager-ui/app/utils/semverTags.ts:58-63 | such a rearrangement exists for every list |
| SemverTags.TagsOfMajorIsTheStableSort | manager-ui/app/utils/semverTags.ts:58-63 | whichever stable sort is used, the list names exactly the parsable tags of the major, newest first |
| SemverParse.ListedNames | manager-ui/app/utils/semverTags.ts:51-63 | the list holds each name that parses to the major as often as it was given, no other one, and none before a newer one |
| SemverTags.NewestMajorIsOfTheNewest | manager-ui/app/utils/semverTags.ts:67-70 | the major chosen is that of a tag no other is newer than, and none is chosen only when no tag parses |
| DkimTables.DnsNameIsInjective | images/opendkim/dkim-api.py:140-141 | accepted names give the same DNS name only when selector and domain are the same |
| DkimNames.SelectorAcceptedIff | images/opendkim/dkim-api.py:42-43 | a selector is accepted exactly when it is letters, digits and hyphens, the first no hyphen, or that with a newline after it |
| DkimNames.DomainAcceptedIff | images/opendkim/dkim-api.py:42-43 | a domain exactly when it is two labels or more with dots between them, no label with a hyphen at either end, or that with a newline after it |
| DkimNames.KeyLineFields | images/opendkim/dkim-api.py:139-139 | a line of the key table has two fields, the DNS name, and domain, selector and path of the private key in this order |
| DkimNames.SigningLineFields | images/opendkim/dkim-api.py:140-140 | a line of the signing table has two, all addresses of the domain and the DNS name |
| DkimTables.KeyMarkedOnly | images/opendkim/dkim-api.py:188-190 | the prefix test of a deletion marks the key line of its own pair and of no other |
| DkimTables.SigningMarkedOnly | images/opendkim/dkim-api.py:189-191 | so does the suffix test on the signing table |
| DkimTables.PathsAreDistinct | images/opendkim/dkim-api.py:125-127 | accepted pairs share no file: the paths of private keys and of records differ from pair to pair and from each other |
| DkimTables.Append | images/opendkim/dkim-api.py:90-98 | a line is appended exactly when it is not there yet |
| DkimTables.Remove | images/opendkim/dkim-api.py:101-116 | the unmarked lines are kept as they were, in order |
| DkimTables.Sidecar.GenerateKey | images/opendkim/dkim-api.py:119-148 | a refused name changes nothing, an accepted one has its files and its two lines |
| DkimTables.Sidecar.DeleteKey | images/opendkim/dkim-api.py:173-201 | a refused name changes nothing, an accepted one loses its files and the marked lines |
| DkimTables.GenerateHolds | images/opendkim/dkim-api.py:119-148 | generating keeps tables and disk in agreement and adds the pair last, once |
| DkimTables.DeleteHolds | images/opendkim/dkim-api.py:173-201 | deleting takes out the lines of the pair and leaves every other one as it was, in order |
| DkimTables.TablesAgreeIff | images/opendkim/dkim-api.py:42-201 | after any run of requests the two tables and the disk name the same pairs, once each, if and only if no key was made under a name that ends in a newline |
| DkimTables.GenerateTwiceIff | images/opendkim/dkim-api.py:90-148 | generating twice is generating once if and only if the names hold no newline |
| DkimTables.NewlineIsAccepted | images/opendkim/dkim-api.py:42-148 | the selector "s" followed by a newline is accepted, and one request for it leaves tables and disk without a common set of pairs and is not idempotent |

## Left out

- Text to UTF-8 and back: a QR message is a sequence of bytes, as it is after the source has encoded its text.
- `qrSvgPath`: it only writes the dark cells down as rectangles.
- `versionInfo` for a version that does not exist: the encoder only asks for versions 1 to 40; the error of `smallestVersion` is the missing result of `QrCodewords.SmallestVersion`.
- Rounding of JavaScript numbers: the penalty's ratio, the chart and its `toFixed` are exact reals, version numbers and byte offsets exact integers.
- QrEncoder.Decode: the reader does not correct errors; that damaged blocks stay recoverable is proved for the code itself.
- Files: handles, `stat`, short reads, rotation, truncation, gzip archives and downloads are not modelled; a log only grows, and a call reads it as it then is.
- Decoding a line as UTF-8 and ignoring case when searching: a line stays bytes and the search is one opaque predicate on it.
- LogView.WindowIsExact: the search term stays the same, the follower first looks when the file ends in a line break, and never falls more than its limit behind; the code promises nothing in the other cases, and `LogService.FrameExactIff` says what is missed in the last one.
- InvitePermissions.DomainEditsKeepClosed: the editor begins with a closed set of listed permissions; a stored set with keys the catalogue no longer lists is the case of `InvitePermissions.UnlistedKeyStays`.
- LogView.MailLogView.OnFrame: one service per view, so the service named in a frame is not compared; the time of the last update is not kept.
- UTF-16: a message is a sequence of characters, and a buffer grows by one of them; surrogate pairs are not told apart.
- MessageInline.ParseInline: `Strong` and `Em` also record the delimiter character they were written with, which the source throws away and without which the text could not be written back.
- MessageQuotations.QuotationIffSettled: no exact condition is given for a quotation that holds another, whose texts are decoded in any case; `MessageQuotations.QuotedTwiceIsDecodedTwice` is one that the condition would miss.
- `metricPaths`, `metricAreas` and the time axis of the chart: they map over runs or rest on the platform's calendar.
- AuthStore.RotationIsSingleFlight: the server is assumed never to give out a refresh token twice; the profile calls, the second factor, the reset of cached permissions and several tabs sharing one store are not modelled.
- Creating the invitation's group and saving it with a delay: the permissions of the editor are modelled, not the calls that store them.
- InvitePermissions.Editor.Toggle: keys are pairs of resource and action; that the text form splits back into the pair is `InvitePermissions.ParseOfPermKey`.
- SemverTags.TagsOfMajorIsTheStableSort: the library's sort is any stable sort, which is what the language standard promises of it.
- `majorOf` in the version tags: it only reads a field of a parsed tag.
- `opendkim-genkey` and its failures, file owners, the reload signal, listing keys, HTTP and concurrent requests of the DKIM sidecar: one request is handled at a time, over tables that are sequences of lines.
