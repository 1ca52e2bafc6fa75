# Verified model of vlr

vlr runs VPN nodes: each node keeps a small user store, a child node reports to a main server by
heartbeats, the main pulls detail when something moved, a portal and a webhook add and revoke users
automatically, and the portal shows a subscription link as a QR code that the program draws itself.
This project models that logic in Dafny and proves what it promises. Check it with
`dafny verify dfyconfig.toml`.

## What is proved

The QR encoder (`Arithmetic`, `Bits`, `GF256`, `Polynomials`, `ReedSolomonCode`, `MinimumDistance`, `ReedSolomon`,
`BitBuffer`, `Payload`, `Zigzag`, `Layout`, `Format`, `Figures`, `Penalty`, `QrCode`, `Encoder`):

- Field arithmetic is defined without tables, by shift and xor modulo 0x11D. The tables built by the
  loops are exactly discrete exponentials and logarithms (2 is shown to be primitive), and a lookup
  multiplies in the field.
- The in-place generator loop yields the product of (x + 2^i); the shifting division loop yields the only
  check words that make a codeword; codewords are exactly the words that vanish at the roots; two
  codewords of at most 255 words differ in more places than there are check words, so up to half as
  many wrong words leave the sent word the only nearby codeword. This holds for every version and text.
- The zigzag visits each free module once; the data modules of each version are counted; laying bits
  along the path changes no function module and can be read back.
- The mask search leaves the symbol under the first mask of least penalty, though every trial is undone
  in place and leaves its format bits behind.
- `Encode` draws, for every text of at most 106 bytes and no other, a symbol in the smallest version that
  decodes to exactly that text, and that looks as the figures of ISO/IEC 18004:2015 have it: the finder,
  timing and alignment patterns module by module, the format word of the mask, and each data bit flipped
  where the mask's tile says so. The data words, the path and the penalty are described without the loops too.

The user store and its clients (`Store`, `StoreRuns`, `Reconcile`, `Clients`, `Stats`): the list is rewritten
in place in a backing array; every method is tied to a transition function, and the invariants are proved
over all runs of that function. Four properties hold only under a condition, which is proved to be the exact
one, each beside an input where it fails:

- a revocation takes the user it looked up if and only if no call between its lookup and its removal removed
  that very user; `Clients.RevocationDisturbed` ends with a manual user removed;
- pruning drops exactly the deactivated portal users, and a second round changes nothing, if and only if no
  user who stays comes before a doomed user whose email also names the one who stays (as external id, UUID or
  Telegram id). Every run in which portal users are added only when their email names nobody meets the
  condition; `Reconcile.WrongUserExample` is a race from an empty store after which the wrong user goes;
- the outcome of a traffic poll does not depend on map order if and only if no two listed identities with
  different counters name the same user first; `Stats.CollisionExample` has one user's email equal to the
  other's UUID;
- a main server's silence limit is the product of interval and misses if and only if that fits 64 bits; beyond
  that it can turn negative, and then every tick marks every node down and pulls none
  (`System.WrappedLimitStopsPulls`).

The child/main protocol (`Protocol`, `MainServer`, `ChildDaemon`, `System`, `Convergence`): children, network,
scheduler and pulls as atomic steps in any order, heartbeats late, repeated, reordered or lost, users and
version read by a pull at two different moments. Proved over all runs: versions the main holds never go back
and never exceed the child's; the users it holds are the child's at some version no later than the reported
one; a node marked down is silent; and once a child's users stop changing, the main's detail becomes exact
within one reconcile interval, one tick and one pull list of the last old pull, or within one tick and one list
of a heartbeat that brings the final version, and stays exact.

Where the code and its own text differ, the model follows the code:

- `internal/protocol/protocol.go:120` and the package comment speak of a pull when a node recovers; there is
  no such trigger.
- `internal/protocol/protocol.go:28` calls the byte total monotonic; removing a user lowers it.
- `internal/protocol/protocol.go:22` calls the sequence number monotonic; the main stores it and never
  compares it, so heard values can go back.
- `internal/store/store.go:57` says the version counts every mutation; it counts additions and removals, not
  token rotations or counters.
- `internal/qr/qr.go:283` names the four rules of ISO/IEC 18004:2015; rule 3 looks for one of the two
  sequences and rule 4 rounds up, so the score is the code's own.

Assumptions: tokens drawn are non-empty and never repeat; one process uses a state file; clocks do not run
backwards; a registered pull address reaches the child of that name.

## Model

| member | source | states |
|---|---|---|
| GF256.Commute | internal/qr/reedsolomon.go:26-32 | multiplication by shift and xor modulo 0x11D is commutative |
| GF256.Associate | internal/qr/reedsolomon.go:26-32 | ... and associative |
| GF256.DistributeRight | internal/qr/reedsolomon.go:26-32 | ... and distributes over xor |
| GF256.NoZeroDivisors | internal/qr/reedsolomon.go:26-32 | a product is zero exactly when a factor is |
| GF256.ExpAdd | internal/qr/reedsolomon.go:26-32 | powers of 2 multiply by adding exponents |
| GF256.OrderFacts | internal/qr/reedsolomon.go:11-24 | 2^255 = 1, while 2^85, 2^51 and 2^15 are not 1 |
| GF256.Primitive | internal/qr/reedsolomon.go:11-24 | none of the first 254 powers of 2 is 1 |
| GF256.LogExists | internal/qr/reedsolomon.go:11-24 | every nonzero byte is one of the first 255 powers of 2 |
| Polynomials.EvalPlus | internal/qr/reedsolomon.go:26-32 | evaluation respects sums of polynomials of any length |
| Polynomials.EvalTimes | internal/qr/reedsolomon.go:26-32 | evaluation respects products of polynomials of any length |
| Polynomials.TimesLinear | internal/qr/reedsolomon.go:40-48 | the coefficients of p(x)(x + r), which one round of the generator loop computes |
| Polynomials.QuotientUnique | internal/qr/reedsolomon.go:52-65 | a multiple of a monic polynomial is fixed by its leading coefficients |
| ReedSolomonCode.GeneratorMonic | internal/qr/reedsolomon.go:34-50 | the generator has the leading 1 that the code leaves implicit |
| ReedSolomonCode.GeneratorRoots | internal/qr/reedsolomon.go:34-50 | the generator of degree d vanishes at 2^0, ..., 2^(d-1) |
| ReedSolomonCode.CheckWordsDivide | internal/qr/reedsolomon.go:52-65 | data followed by its check words is a multiple of the generator |
| ReedSolomonCode.CodewordIff | internal/qr/reedsolomon.go:52-65 | the check words are the only words of that length that do so |
| ReedSolomonCode.CodewordVanishes | internal/qr/reedsolomon.go:52-65 | every codeword vanishes at all the generator's roots |
| ReedSolomonCode.CheckWordsLinear | internal/qr/reedsolomon.go:52-65 | check words of a sum of blocks are the sum of the check words |
| MinimumDistance.Vandermonde | internal/qr/reedsolomon.go:36-65 | at most d nonzero places whose first d power sums vanish are all zero |
| MinimumDistance.SparseVanishing | internal/qr/reedsolomon.go:36-65 | a word of at most 255 places and weight at most d that vanishes at d roots is zero |
| MinimumDistance.CodewordDistance | internal/qr/reedsolomon.go:36-65 | distinct codewords of at most 255 words differ in at least d + 1 places |
| MinimumDistance.BlockDistance | internal/qr/reedsolomon.go:36-65 | distinct data blocks, each followed by its check words, differ in at least d + 1 places |
| MinimumDistance.UniqueNearest | internal/qr/reedsolomon.go:36-65 | up to d/2 damaged words leave every other codeword more than d/2 places away |
| MinimumDistance.CodewordIffVanishes | internal/qr/reedsolomon.go:36-65 | a word is a codeword exactly when it vanishes at 2^0, ..., 2^(d-1) |
| ReedSolomon.Tables.constructor | internal/qr/reedsolomon.go:8-24 | the tables are the powers of 2 and their inverse |
| ReedSolomon.FillFirstCycle | internal/qr/reedsolomon.go:12-20 | the first loop fills both tables for the exponents below 255 |
| ReedSolomon.FillRest | internal/qr/reedsolomon.go:21-23 | the second loop continues the powers of 2 to 512 entries |
| ReedSolomon.Tables.GfMul | internal/qr/reedsolomon.go:26-32 | the table lookup multiplies in the field |
| ReedSolomon.NextCoefficient | internal/qr/reedsolomon.go:40-46 | one in-place update of a coefficient multiplies by the next linear factor |
| ReedSolomon.Tables.RsGenerator | internal/qr/reedsolomon.go:34-50 | the in-place loops yield the generator without its leading 1, for every degree |
| ReedSolomon.CopyDown | internal/qr/reedsolomon.go:58 | the overlapping copy moves every element one place down |
| ReedSolomon.Tables.AddMultiple | internal/qr/reedsolomon.go:60-62 | the inner loop adds a multiple of the generator |
| ReedSolomon.Tables.ReedSolomon | internal/qr/reedsolomon.go:52-65 | the shifting loop returns the check words, for data of any length |
| BitBuffer.BitAt | internal/qr/qr.go:383-385 | a bit of the string is a shift and a mask of its number |
| BitBuffer.Buffer.Append | internal/qr/qr.go:382-386 | appends the low n bits, highest first |
| BitBuffer.Buffer.Bytes | internal/qr/qr.go:387-395 | packs the bits eight to a byte, the last one filled with clear bits |
| BitBuffer.PackUnpack | internal/qr/qr.go:387-395 | packing undoes unpacking |
| BitBuffer.UnpackPack | internal/qr/qr.go:387-395 | unpacking undoes packing, for whole bytes |
| BitBuffer.StreamAppend | internal/qr/qr.go:382-386 | the field stream grows by each append as the buffer does |
| BitBuffer.FieldsReadBack | internal/qr/qr.go:376-395 | any sequence of in-range appends is read back from the bytes, field by field |
| BitBuffer.UnpackBit | internal/qr/qr.go:192-193 | the placement loop's shift and mask extracts bit k of the stream |
| Payload.CapacityIff | internal/qr/qr.go:42-54 | some version holds a text exactly when it has at most 106 bytes |
| Payload.PickVersion | internal/qr/qr.go:44-54 | finds the smallest version that holds the text, the limits being 17, 32, 53, 78 and 106 bytes, or none |
| Payload.BuildData | internal/qr/qr.go:56-72 | the buffer fills the version's data words: mode, count, bytes, terminator, padding |
| Payload.PadToCapacity | internal/qr/qr.go:73-76 | pads with 0xEC and 0x11 in turn until the capacity is full |
| Payload.ParseDataStream | internal/qr/qr.go:56-76 | reading mode, count and bytes back returns the text |
| Payload.DataWord | internal/qr/qr.go:56-78 | word by word: mode 4, count and text joined from half bytes, then 0xEC and 0x11 in turn |
| Zigzag.VisitOfCellAt | internal/qr/qr.go:177-188 | the path visits no cell twice, stays in the grid and misses column 6, for every odd size from 7 |
| Zigzag.CellAtVisitOf | internal/qr/qr.go:177-188 | the path visits every cell outside column 6 |
| Zigzag.EveryFreeCellOnce | internal/qr/qr.go:171-199 | with column 6 covered, each module outside the mask is listed exactly once and no other is |
| Zigzag.PlacedStep | internal/qr/qr.go:189-195 | a cell of the path takes the next bit unless it is a function module or no bit is left |
| Zigzag.PlacedReadsBack | internal/qr/qr.go:171-199 | bits laid along the path are read back along it, and no function module changes |
| Zigzag.PlacedLeavesRest | internal/qr/qr.go:189-191 | free modules beyond the last bit keep what they had |
| Figures.PathStep | internal/qr/qr.go:177-188 | from one module of the path to the next: left, diagonally up or down in turn, over column 6 |
| Figures.MaskFigure | internal/qr/qr.go:225-243 | each mask flips the modules of a literal tile, repeated over the symbol |
| Figures.FormatFigure | internal/qr/qr.go:255-260 | the eight format words are the published ones of level L |
| Figures.FirstCopyFigure | internal/qr/qr.go:263-272 | the fifteen cells of the first copy, listed |
| Figures.SecondCopyFigure | internal/qr/qr.go:273-279 | the cells of the second copy as the code places it |
| Figures.FinderFigure | internal/qr/qr.go:128-139 | a finder with its separator is the literal 9 x 9 figure |
| Figures.AlignmentFigure | internal/qr/qr.go:141-148 | an alignment pattern is the literal 5 x 5 figure |
| Figures.PatternsShow | internal/qr/qr.go:107-126 | a grid that keeps the drawn patterns shows three finders, timing, alignment and dark module in place |
| Layout.FunctionUnion | internal/qr/qr.go:107-169 | the drawn patterns and the reserved cells cover exactly the function region |
| Layout.DataCellCount | internal/qr/qr.go:19-22 | each version has room for all its codewords, with 0 or 7 modules to spare |
| Format.BchInvariant | internal/qr/qr.go:255-259 | the division loop computes the remainder modulo 0x537 |
| Format.FormatWordIsCodeword | internal/qr/qr.go:255-260 | unmasked, the format word is level and mask followed by their BCH check |
| Format.CandidateModules | internal/qr/qr.go:205-206 | under a mask, data modules are flipped by the pattern, format cells show their bits, the rest is as it was |
| Format.UndoMask | internal/qr/qr.go:212 | applying the mask again leaves only the trial's format bits |
| Format.NextTrial | internal/qr/qr.go:204-213 | format bits left by one trial do not show in the next |
| Format.OverlayOnFunctions | internal/qr/qr.go:150-169 | format bits go to function modules only |
| Format.FormatReadsBack | internal/qr/qr.go:262-272 | the mask is read back from the first format copy |
| Penalty.ScoreBound | internal/qr/qr.go:203 | no symbol scores as much as the starting value of the search |
| Penalty.LongRun | internal/qr/qr.go:367-372 | a run of n modules costs nothing up to 4 and n - 2 from 5 on |
| Penalty.FinderLikeSpells | internal/qr/qr.go:351-365 | the third rule looks for dark-first #.###.#...., across or down |
| Penalty.MirrorNotFinder | internal/qr/qr.go:354 | the mirror image does not count |
| Penalty.ImbalanceCovers | internal/qr/qr.go:345-346 | the fourth rule counts steps of 5 percent from half, rounded up |
| Penalty.ScoreIs | internal/qr/qr.go:283-349 | runs, plus 3 for each block, 40 for each finder-like sequence and 10 for each step, counted as sets |
| QrCode.Code.constructor | internal/qr/qr.go:89-98 | a blank symbol of side 17 + 4v |
| QrCode.Code.Set | internal/qr/qr.go:100-105 | sets one module and, if asked, marks it; changes nothing else |
| QrCode.Code.DrawFinder | internal/qr/qr.go:128-139 | draws the rings around a centre as far as they lie in the grid, and nothing else |
| QrCode.Code.DrawAlignment | internal/qr/qr.go:141-148 | draws the 5 x 5 pattern, and nothing else |
| QrCode.Code.DrawTiming | internal/qr/qr.go:109-113 | row 6 and column 6 alternate, nothing else changes |
| QrCode.Code.DrawFinders | internal/qr/qr.go:114-117 | the three finders, each over what lies below |
| QrCode.Code.DrawPatterns | internal/qr/qr.go:109-123 | every pattern, with the order of drawing resolved |
| QrCode.Code.ReserveFormat | internal/qr/qr.go:150-169 | marks exactly the reserved cells |
| QrCode.Code.DrawFunctionPatterns | internal/qr/qr.go:107-126 | modules and mask equal the closed description of the version's function region |
| QrCode.Code.PlaceModule | internal/qr/qr.go:183-195 | one step of the placement loop advances the laid-out grid by one cell |
| QrCode.Code.PlacePair | internal/qr/qr.go:181-197 | one pass over a pair of columns advances it by two cells a row |
| QrCode.Code.PlaceData | internal/qr/qr.go:171-199 | the codeword bits are laid along the whole path |
| QrCode.Code.ApplyMask | internal/qr/qr.go:218-249 | flips exactly the data modules that the mask's literal tile selects |
| QrCode.Code.FirstCopy | internal/qr/qr.go:263-272 | writes the first format copy and nothing else |
| QrCode.Code.SecondCopy | internal/qr/qr.go:273-279 | writes the second copy as the code places it and nothing else |
| QrCode.Code.SetFormatBits | internal/qr/qr.go:251-281 | both copies of the mask's format word, then the dark module |
| QrCode.Code.HasFinderLike | internal/qr/qr.go:351-365 | true exactly when the 11 modules from a place match the pattern inside the grid |
| QrCode.RunStep | internal/qr/qr.go:291-299 | counting runs as they close equals scoring each module as it extends its run |
| QrCode.Code.RowRuns | internal/qr/qr.go:287-301 | the run score of the rows |
| QrCode.Code.ColumnRuns | internal/qr/qr.go:302-315 | the run score of the columns |
| QrCode.Code.BlockCount | internal/qr/qr.go:316-324 | three for every 2 x 2 block of one colour |
| QrCode.Code.FinderCount | internal/qr/qr.go:325-335 | forty for every finder-like sequence, across or down |
| QrCode.Code.DarkCount | internal/qr/qr.go:337-344 | the number of dark modules |
| QrCode.Code.Penalty | internal/qr/qr.go:283-349 | the four rules added up |
| QrCode.BestMaskIsFirstLeast | internal/qr/qr.go:201-213 | the chosen mask scores no more than any other, and less than every earlier one |
| QrCode.Code.ApplyBestMask | internal/qr/qr.go:201-216 | the symbol ends as the candidate of the first mask of least penalty |
| Encoder.Encode | internal/qr/qr.go:37-87 | fails exactly above 106 bytes; otherwise the code has the smallest side, shows patterns, format word and masked bits of the text as the figures have them, and decodes to it |
| Encoder.AllWords | internal/qr/qr.go:56-80 | the data words followed by their error-correction words |
| Encoder.Draw | internal/qr/qr.go:82-85 | patterns drawn, words laid in, best mask applied |
| Encoder.WordCounts | internal/qr/qr.go:19-22 | 19, 34, 55, 80 and 108 data words, 7, 10, 15, 20 and 26 check words |
| Encoder.SymbolDrawn | internal/qr/qr.go:82-85 | under any mask a symbol shows its patterns, the mask's word and the masked bits of its words |
| Encoder.ShownDrawn | internal/qr/qr.go:82-85 | so does whatever code shows the text |
| Encoder.MaskedSymbolShowsWords | internal/qr/qr.go:78-86 | under any mask, reading a symbol returns the codewords laid in |
| Encoder.AnyMaskDecodes | internal/qr/qr.go:39-87 | under any mask and in any version with room, the symbol decodes to the text |
| Encoder.RoundTrip | internal/qr/qr.go:39-87 | first format copy, unmasking, zigzag and parsing return the text from the symbol |
| Encoder.ShownDecodes | internal/qr/qr.go:39-87 | whatever code shows a text decodes to it |
| Encoder.SymbolsDistinct | internal/qr/qr.go:39-87 | distinct texts never share a symbol |
| Encoder.DamageIsCorrectable | internal/qr/qr.go:21-22 | in every version, up to half as many wrong words as check words leave the sent words the only candidate |
| Encoder.TextDistance | internal/qr/qr.go:21-22 | in every version, distinct texts give words that differ in more places than there are check words |
| Store.Store.Open | internal/store/store.go:70-109 | loads the file and gives each user without a token the one drawn for them, flushing only on change |
| Store.Store.Append | internal/store/store.go:147 | appends in place, moving to a larger backing array when full |
| Store.Store.AddUser | internal/store/store.go:123-150 | adds with time and token filled in, or changes nothing: email taken or no token |
| Store.Store.FindUser | internal/store/store.go:163-173 | the first user whose UUID, email, external id or Telegram numeral the text is; nobody for any other text |
| Store.Store.FindBySubToken | internal/store/store.go:175-189 | the first user with the token; nobody for the empty token |
| Store.Store.RotateSubToken | internal/store/store.go:191-211 | replaces the token of the first match and nothing else; the version stays |
| Store.Store.Compact | internal/store/store.go:217-225 | the in-place loop drops the first match, keeps the order of the rest, and moves nothing without a match |
| Store.Store.RemoveUser | internal/store/store.go:213-232 | deletes the first user so named and counts one version up, or changes nothing when nobody is |
| Store.Store.Users | internal/store/store.go:234-241 | a copy in fresh storage, out of reach of later calls |
| Store.Store.TotalBytes | internal/store/store.go:250-260 | the sum of both counters over all users |
| Store.Store.UpdateTraffic | internal/store/store.go:262-278 | sets the counters of the first user with that email or UUID and nothing else |
| Store.FindIs | internal/store/store.go:152-173 | what a lookup returns, over the set of names of each user |
| Store.FoundByName | internal/store/store.go:152-232 | any of the four names that is nobody's before finds and removes its user |
| Store.DecimalReads | internal/store/store.go:160 | the numeral of a Telegram id, read from the left, is the id |
| Store.CountersStored | internal/store/store.go:262-278 | received and sent go to the first user with that UUID or non-empty email |
| Store.TotalIsColumns | internal/store/store.go:250-260 | the total is the received column and the sent column, each added up on its own |
| StoreRuns.NextKeeps | internal/store/store.go:123-278 | each call keeps emails distinct, tokens distinct and non-empty, withdrawn tokens out, file equal to memory |
| StoreRuns.RunKeeps | internal/store/store.go:123-278 | so does every run, and the version grows by the successful additions and removals |
| StoreRuns.WithdrawnTokenIsDead | internal/store/store.go:191-211 | a rotated or removed token resolves to nobody for the rest of any run |
| StoreRuns.TokenNamesItsUser | internal/store/store.go:175-189 | in every reachable state a user's token leads to that user |
| StoreRuns.BackfillGivesTokens | internal/store/store.go:88-102 | after opening every user has a token of their own, exactly when the file had no duplicate |
| Reconcile.Prune | internal/daemon/reconcile.go:81-100 | the loop over a snapshot is a fold of removals on the live store; in a list with separate portal emails exactly those stay who are no portal user, have no email or have an active one in any case |
| Reconcile.ActiveOn | internal/daemon/reconcile.go:147-151 | the lowercased emails of the active users on a page |
| Reconcile.FetchActiveEmails | internal/daemon/reconcile.go:116-159 | for every server whose chain of pages is finite: returns exactly the active emails on the chain, or fails if a page does |
| Reconcile.ReturnsOnlyIfEnds | internal/daemon/reconcile.go:152-156 | a finite chain is all the loop needs: wherever a fetch returns, the chains are bounded |
| Reconcile.HonestEnds | internal/daemon/reconcile.go:152-156 | a server with a last page that reports the page asked for has finite chains |
| Reconcile.StuckServer | internal/daemon/reconcile.go:153 | a server that answers every request with page 1 of several has chains of every length |
| Reconcile.FetchDetermined | internal/daemon/reconcile.go:123-158 | the pages determine that chain and that result |
| Reconcile.ReconcileOnce | internal/daemon/reconcile.go:62-79 | a failed fetch or an empty set removes nobody |
| Reconcile.PrunePrefix | internal/daemon/reconcile.go:85-98 | midway, the store is the filtered prefix followed by the untouched rest |
| Reconcile.MisdirectedLeaves | internal/daemon/reconcile.go:92 | if a removal hits someone who should stay, someone deactivated is left behind |
| Reconcile.PruneIsFilter | internal/daemon/reconcile.go:81-100 | pruning is the order-preserving filter exactly when no staying user is named by a later doomed user's email |
| Reconcile.PruneIdempotent | internal/daemon/reconcile.go:81-100 | a second round changes nothing under exactly the same condition |
| Reconcile.ApartShields | internal/store/store.go:152-161 | portal emails that name nobody further up the list meet that condition for every active set |
| Reconcile.ApartInRuns | internal/daemon/portal.go:46-93 | every run that adds portal users only when their email names nobody keeps their emails so |
| Reconcile.PruneIsFilterInRuns | internal/daemon/reconcile.go:81-100 | in every state of such a run pruning is the filter |
| Reconcile.WrongUserExample | internal/daemon/reconcile.go:92 | from an empty store, a manual user added during a portal visit is removed in place of the portal's, with a non-empty active set |
| Reconcile.StaysIff | internal/daemon/reconcile.go:85-91 | who stays, in terms of source, email and lowercased active set |
| Reconcile.RoundKeeps | internal/daemon/reconcile.go:62-99 | who stays after a whole round, in terms of the accounts listed on the fetched pages |
| Clients.HandleEvent | internal/daemon/webhook.go:52-65 | which events revoke, and that nothing else changes the store |
| Clients.RevokeAuthentikUser | internal/daemon/webhook.go:69-87 | uninterrupted, revokes exactly when the user found is a portal user |
| Clients.RemoveTakesFound | internal/store/store.go:163-232 | removal takes exactly the user the lookup returns and keeps the others in order |
| Clients.FoundStays | internal/store/store.go:123-211 | additions, rotations and counters leave the user a reference leads to in place |
| Clients.FoundFollows | internal/daemon/webhook.go:74-78 | through any calls in between, a user whom none of them removes stays the one the reference leads to, with UUID and source |
| Clients.RevocationTakesFound | internal/daemon/webhook.go:74-78 | the user removed is the one looked up exactly when no call in between removed that very user |
| Clients.RevocationDisturbed | internal/daemon/webhook.go:74-78 | a removal and an addition in between make it take a manual user |
| Clients.PortalServesOne | internal/daemon/portal.go:46-105 | however visits for one email interleave, at most one user is created and all served get the same UUID |
| Clients.PortalStarts | internal/daemon/portal.go:46 | any crowd of arriving visits satisfies the invariant, in any store |
| Clients.LoserIsServed | internal/daemon/portal.go:93-97 | in every run, a visit whose addition failed with a token at hand is served from the second lookup exactly when that account is enabled |
| Clients.LoneVisit | internal/daemon/portal.go:46-105 | a lone visit under an unknown email adds one enabled portal user of that email and serves it |
| Clients.KnownVisit | internal/daemon/portal.go:46-60 | a visit under a known email changes nothing and serves the account if it is enabled |
| Stats.AggregateIs | internal/cascade/stats.go:56-79 | an identity has an entry when a number is listed for it, holding the last value of each direction |
| Stats.UpdateAll | internal/cascade/stats.go:81-87 | updates each identity once in some order; succeeds exactly when every identity names a user |
| Stats.Poll | internal/cascade/stats.go:37-88 | a failed query changes nothing; otherwise the aggregate is written back |
| Stats.PollStores | internal/cascade/stats.go:56-87 | a user ends with the last numbers listed as user>>>identity>>>traffic>>>downlink and uplink, in every order |
| Stats.UnlistedKeep | internal/cascade/stats.go:56-87 | a user listed under neither email nor UUID keeps their counters |
| Stats.OtherShapesIgnored | internal/cascade/stats.go:59-67 | an entry of any other shape, anywhere in the listing, changes nothing |
| Stats.WriteBackAt | internal/cascade/stats.go:81-86 | a user ends with the counters of the last identity that names them first, or unchanged |
| Stats.OrderIndependence | internal/cascade/stats.go:82-86 | the map's order never matters exactly when no two identities with different counters collide |
| Stats.CollisionExample | internal/cascade/stats.go:82-86 | two users the store accepts whose counters depend on the map's order |
| Stats.RenderedIs | internal/xray/config.go:95-112 | exactly the enabled users are rendered, each under UUID and StatID |
| Stats.RenderClients | internal/xray/config.go:95-112 | the rendered client list is the enabled users in order, under their StatIDs |
| Stats.StatIDNames | internal/xray/config.go:77-87 | a StatID names its own user first, and no two users share one |
| Stats.RenderedAreStatIDs | internal/xray/config.go:77-112 | an identity listed for a rendered configuration that matches a user is that user's StatID |
| Stats.PollAttributes | internal/cascade/stats.go:56-87 | each user receives exactly the counters listed under their StatID, in every order |
| Stats.RenderedPoll | internal/cascade/stats.go:56-87 | polling a rendered configuration gives each enabled user their own counters and leaves the others alone |
| Protocol.MarkDownMonotone | internal/protocol/protocol.go:145-158 | a silent node stays silent while nothing is heard |
| Protocol.DownIff | internal/protocol/protocol.go:145-158 | down means silent for longer than misses, 3 unless set, times interval, 20 s unless set |
| Protocol.PullIff | internal/protocol/protocol.go:105-143 | exactly when a pull is due, with the settings as given and 256 MiB and 10 minutes in place of unset ones |
| Protocol.LimitIsProduct | internal/protocol/protocol.go:157 | the silence limit is misses times interval exactly when that fits 64 bits |
| Protocol.LimitWraps | internal/protocol/protocol.go:157 | a number of misses for which the limit turns negative |
| MainServer.DueAgainIff | internal/protocol/protocol.go:115-143 | after a commit a pull is due exactly on a newer version, traffic over the threshold, or an elapsed interval |
| MainServer.TickIff | internal/daemon/mainserver.go:142-158 | what a tick marks and what is due, in plain numbers |
| MainServer.TickFlagsOnly | internal/daemon/mainserver.go:145-153 | a tick writes nothing but down flags |
| MainServer.Server.constructor | internal/daemon/mainserver.go:39-54 | no node heard from, nothing pulled, the given registrations |
| MainServer.Server.Register | internal/daemon/mainserver.go:216-221 | adds or replaces one registration |
| MainServer.Server.HandleHeartbeat | internal/daemon/mainserver.go:92-112 | replaces what was heard from the node, keeps what was pulled; ignores an empty name |
| MainServer.Server.Tick | internal/daemon/mainserver.go:142-159 | marks exactly the silent nodes down and lists each node that is heard and due once |
| MainServer.Server.Commit | internal/daemon/mainserver.go:200-211 | stores the reply, its version, its byte total and the time |
| MainServer.Server.Pull | internal/daemon/mainserver.go:168-214 | commits exactly when the node is registered and answers; the view then agrees with the stored reply, and otherwise nothing changes |
| ChildDaemon.TotalOfDetails | internal/daemon/mainserver.go:205-209 | the main's byte total of a reply is the child's total at the snapshot |
| ChildDaemon.Daemon.BuildHeartbeat | internal/daemon/child.go:100-109 | reports the next sequence number, the version and the byte total |
| ChildDaemon.Daemon.HandlePull | internal/daemon/child.go:148-162 | uninterrupted, replies with the users and the version they belong to |
| System.NextKeeps | internal/daemon/mainserver.go:81-214 | every step of children, network, scheduler and pulls keeps the invariant |
| System.RunKeeps | internal/daemon/mainserver.go:81-214 | so does every run |
| System.Starts | internal/daemon/mainserver.go:39-54 | any children and a fresh main satisfy the invariant |
| System.PulledNeverDecreasesInRuns | internal/daemon/mainserver.go:200-211 | the pulled version of a node never goes back in any run |
| System.MainLagsChild | internal/daemon/mainserver.go:200-211 | in every run, heard and pulled versions lie behind the child's; stored users are the child's at a version no later |
| System.WholePull | internal/daemon/child.go:143-163 | a pull stores the users of its first read, the version of its second; the pair is exact iff no call in between added or removed a user of the node |
| System.WholeBeat | internal/daemon/child.go:89-109 | a heartbeat carries the next number, the version of its first read and the traffic of its second |
| System.BeatThenTick | internal/daemon/mainserver.go:99-158 | whatever happens between a heartbeat and a tick within the time allowed, the node is up after it and listed exactly when a pull is due |
| System.NewsIsPulled | internal/daemon/mainserver.go:99-158 | a heartbeat ahead in version, or in bytes by the threshold, puts the node on the next tick's list |
| System.TickTellsTheTruth | internal/daemon/mainserver.go:145-158 | right after a tick down and silent mean the same, and no silent node is listed |
| System.WrappedLimitStopsPulls | internal/daemon/mainserver.go:145-158 | with a limit below zero every tick marks every node down and lists none |
| System.DownMeansSilent | internal/daemon/mainserver.go:145-153 | in every run a node marked down is over the heartbeat limit |
| Convergence.QuietKeepsExact | internal/daemon/mainserver.go:200-211 | with no user added or removed, an exact picture stays exact and a current reply makes it so |
| Convergence.QueueStep | internal/daemon/mainserver.go:161-163 | a listed, registered node is pulled unless its pull fails |
| Convergence.TickLists | internal/protocol/protocol.go:138-141 | a tick lists every node heard from whose last pull is a reconcile interval ago |
| Convergence.ExactStays | internal/daemon/mainserver.go:168-214 | once exact, with nothing stale under way, always exact |
| Convergence.TickConverges | internal/daemon/mainserver.go:128-166 | a tick one interval after the last old pull makes the picture exact once its list is done |
| Convergence.Converges | internal/daemon/mainserver.go:128-214 | from one interval, one tick and one list after the last old pull on, the picture is exact at every moment |
| Convergence.HeardConverges | internal/protocol/protocol.go:129-133 | one tick and one list after a heartbeat brings the final version, the picture is exact, whatever the reconcile interval |

## Left out

- Format.FormatReadsBack: first copy only; the second is transposed against ISO/IEC 18004:2015, section 7.9.1, its bit 7 is overwritten by the dark module, and cell [8][size-8] is reserved but never written (`internal/qr/qr.go:273-280`).
- QrCode.Code.Penalty: the code's own score, not the one of ISO/IEC 18004:2015, section 7.8.3.
- Store.Store.Open: a random source that fails while tokens are drawn is not modelled; the tokens are a parameter.
- Store.Store.AddUser: a failing flush (and in every other mutating call) is not modelled; the file is a ghost copy of memory, and one process owns it.
- Reconcile.FetchActiveEmails: requires a finite chain of pages, without which the source's loop does not end, and pages that do not change while they are fetched.
- Stats.PollStores: assumes distinct non-empty emails, distinct UUIDs, no email equal to another's UUID, and a user with an email not listed under the UUID as well; `OrderIndependence` and `CollisionExample` show why.
- Reconcile.Prune: the removals run without other calls in between; lowercasing is any function on strings.
- ChildDaemon.Daemon.BuildHeartbeat: runs without other calls in between (`System` interleaves them) and without the counter refresh before it, which appears in `System` as further store calls; the same holds for HandlePull.
- MainServer.DueAgainIff: byte totals, their difference and the version counter are unbounded integers; only durations saturate and wrap as 64-bit values.
- MainServer.Server.Pull: runs without other calls between lookup and commit; `System` interleaves them.
- Convergence.HeardConverges: leaves out deliveries that find a pull under way whose reading is out of date, or that an older heartbeat follows; there only `Converges` applies.
- Convergence.Converges: assumes that before every tick a heartbeat arrived within the time allowed, that the node stays registered, and that its pulls do not fail; without this the code promises nothing.
- HTTP, JSON, bearer checks, HTML and SVG text, logging: only the state change of each handler is kept.
- Message fields that no decision reads: user count, sending time, node id of a reply, entry parameters, Xray configuration.
- Cutting a statistic's name at ">>>" and parsing its number, and trimming an email: done before the modelled methods take over.
- `xray.Apply` and the order of reloads: it takes no lock, so nothing is claimed about which configuration is written last.
- Random UUIDs, their failure, and the choice of a short id in the portal: parameters.
- The rest of the Xray configuration, subscription links, WireGuard and AWG files, CLI, installer, ledger, SSH: plumbing or foreign calls.
