# HAR: a Dafny model of its cores

HAR compiles a configuration language into an indexed operation table and runs
large models on small hardware: it packs quantized weights, budgets memory, and
keeps a prefix graph of attention pages. This project models the parts of it
that carry the most state and proves what they keep. `dafny verify
dfyconfig.toml` checks everything.

| part | files |
|---|---|
| Dependency cycles: the operation table and two phase checkers | `Digraph`, `OperationTable`, `PhaseGraph` |
| Pinned host pool: first fit, splitting, coalescing, stale handles | `Intervals`, `MapSum`, `PoolState`, `PinnedPool` |
| Language: lexer, recovering parser, formatter, round trip | `Lexer`, `Ast`, `Grammar`, `Parser`, `Lexemes`, `Syntax`, `Diagnostics`, `Formatter`, `LexicalText`, `Relex`, `RoundTrip`, `Reprint` |
| Prefix graph, reference counts, leases, pages, store, controller | `LittleEndian`, `Digests`, `Identity`, `PageKey`, `PageRecord`, `GraphState`, `PrefixWalks`, `PrefixForest`, `RefCounts`, `PageLeases`, `GraphRuns`, `LookupRuns`, `GraphAnswers`, `PrefixGraph`, `PageStore`, `MemoryStore`, `FoldState`, `FoldAnswers`, `FoldTruth`, `FoldRuns`, `ContextFold` |
| Heterogeneous format allocation | `AsciiText`, `FormatSpecs`, `FormatOffers`, `MeasuredLosses`, `FormatUpgrades`, `UpgradeLaw`, `RoutedBytes`, `FormatAllocator`, `PlanLaws`, `FormatSupport` |
| Byte codecs | `BitOps`, `XorRleCodec`, `DeltaAddresses` |
| Package layout: writer, header, verifier | `PackageHeader`, `PackageLayout`, `ModelPackage` |
| Elastic VRAM budget | `ElasticBudget` |
| Shared | `Wrappers`, `Arithmetic`, `Bytes` |

Code that changes state is a class or a method with the source's loops. Each is
proved against a function or a step relation on values. What that function
decides is stated a second time without it: as a grammar over tokens and lexemes
over bytes (`Syntax`, `Lexemes`), as the best of all admissible choices
(`UpgradeLaw`, `PlanLaws`), as the nearest size of a window (`ElasticBudget`), or
as the answer and the change in each case (`GraphAnswers`, `FoldAnswers`). The
invariants, run theorems, round trips and exact conditions are lemmas beside it.

Machine integers are bounded where the source can reach the bound: the release
build wraps, so rounding in the pool, rung counts, address differences, shifted
varint groups and the package verifier's range ends wrap here too, and
alignment and store offsets saturate. Digests are a function parameter; no lemma
assumes it injective, and where two values could share a digest the lemma names
the two byte strings that would have to collide.

## What does not hold as stated

These follow from the code and have exact conditions among the lemmas below.

- A phase declared again without a dependency keeps its old parent in the
  pointer-chasing checker but not in the strict one, so the two can disagree
  (`PhaseGraph.CheckersAgreeIff`, `PhaseGraph.CheckersDisagree`).
- A pool request within one alignment unit of 2^64 rounds to zero and, while any
  block is free, is served; the pool no longer tiles its region
  (`PoolState.RoundedWraps`, `PinnedPool.WrappedRequestOverlaps`).
- The formatter's output loses non-ASCII strings and the last dot of a numeric
  range start (`RoundTrip.RoundTripsIff`, `RoundTrip.DotMovesToTheEnd`).
- Formatting again what was read back grows every non-ASCII string, so the
  formatter is stable only on ASCII strings (`Reprint.ReprintsIff`).
- `extend` does not compare a child with its parent off the tokens, and an
  unrelated child can overwrite another (`PrefixForest.ExtendKeepsForest`,
  `PrefixForest.DisagreeingChildIsOverwritten`).
- A release that fails above a node has already lowered the counts below
  (`RefCounts.FailedReleaseIsCleanIff`, `GraphRuns.ReleaseFailsPartWay`).
- Walks up the parents end in every graph built without a digest collision
  (`GraphRuns.RunWalksEnd`); where a child's id collides with its parent's a retain
  does not return (`GraphRuns.ExtendKeepsParentsAboveIff`, `GraphRuns.RootChildLoopsIff`).
- A lease repeated by one owner in one generation counts twice but is stored once
  (`PageLeases.AcquireKeepsLeased`, `PageLeases.RepeatedLeasePinsPage`,
  `GraphRuns.RunNeverEvicts`).
- Attaching over a leased page resets its counts (`PageLeases.AttachKeepsLeased`).
- One page has one store entry: persisting a second kind makes the first
  unloadable, and evicting the first then reports a store error after dropping
  the representation (`FoldState.PersistedIsLoaded`, `FoldRuns.SafeEvictSucceedsIff`,
  `FoldRuns.EvictAfterShadowingFails`).
- At a saturated offset two store locations can be equal
  (`FoldTruth.OtherKindLoadsIff`, `FoldRuns.StepKeepsTruthIff`,
  `FoldRuns.SaturatedPlacesAreConfused`).
- `feasible` searches the risk texts for "exceeds budget", which a tensor id may
  contain (`FormatAllocator.FeasibleIff`, `FormatAllocator.FeasibleMisreads`).
- The bits a weight of Q5_K_M do not agree with the size of its blocks
  (`FormatSpecs.BlocksHoldTheirBits`).
- Upgrades check neither support nor kernels, so a plan can select a format the
  hardware cannot run (`FormatSupport.PlansRunnableIff`, `FormatSupport.UnsupportedIsPlanned`).
- Rollback rungs are counted in a u32 (`ElasticBudget.RecordedRungs`, `ElasticBudget.RungsWrap`).
- A manifest place whose end wraps past 2^64 makes verification panic instead of
  refusing the file (`ModelPackage.VerifyPanicsIff`, `ModelPackage.WrappedPlacePanics`).
- The writer gives up on manifests that keep growing with the offset
  (`ModelPackage.WriteSucceedsIff`, `ModelPackage.GrowingManifestIsUnstable`).
- Unsorted address lists encode but do not decode (`DeltaAddresses.RoundTripsIff`).

## Model

| member | source | states |
|---|---|---|
| `OperationTable.Validate` | `har/crates/har-ir/src/lib.rs:108-158` | Accepts exactly the tables with dense indices, dependencies in range and an acyclic dependency relation; every error is explained by the table, a cycle error by a genuine dependency walk that ends on a node it already holds |
| `OperationTable.Visit` | `har/crates/har-ir/src/lib.rs:129-150` | The three-colour visitor: success blackens the node and leaves a topological order of the black nodes, failure carries a dependency walk that revisits its last node; it terminates because white nodes run out |
| `OperationTable.ExplainedIsInvalid` | `har/crates/har-ir/src/lib.rs:110-156` | No table that some rejection explains is valid, so rejections are never spurious |
| `Digraph.OrderedIsAcyclic` | `har/crates/har-ir/src/lib.rs:147-156` | A finishing order of the search proves that no cycle exists |
| `Digraph.RevisitIsCycle` | `har/crates/har-ir/src/lib.rs:137-139` | A walk that revisits its final node proves a cycle |
| `PhaseGraph.Visit` | `har/crates/har-lang-semantics/src/v0.rs:1393-1412` | The recursive phase search reports only real cycles, and otherwise extends a topological order |
| `PhaseGraph.CheckPhaseGraph` | `har/crates/har-lang-semantics/src/v0.rs:1367-1425` | Emits one S1047 for every missing dependency in source order, then S1048 exactly when the last-declaration-wins map has a cycle |
| `PhaseGraph.PhaseMapIs` | `har/crates/har-lang-semantics/src/v0.rs:1386-1392` | A name has the dependencies of its last declaration, and only declared names have any |
| `PhaseGraph.MissingOfOne` | `har/crates/har-lang-semantics/src/v0.rs:1367-1384` | A dependency is reported exactly when no phase of that name is declared |
| `PhaseGraph.MissingJoins` | `har/crates/har-lang-semantics/src/v0.rs:1367-1384` | The reports of the phases follow one another in source order |
| `PhaseGraph.MissingSplits` | `har/crates/har-lang-semantics/src/v0.rs:1367-1384` | So do those of one phase, in dependency order |
| `PhaseGraph.PointerWalk` | `har/crates/har-lang-compiler/src/lib.rs:412-421` | One pointer walk terminates on every map and says whether it runs into a cycle |
| `PhaseGraph.HasPhaseCycle` | `har/crates/har-lang-compiler/src/lib.rs:400-423` | The pointer-chasing checker answers true exactly when the parent map has a cycle |
| `PhaseGraph.ParentMapIs` | `har/crates/har-lang-compiler/src/lib.rs:401-411` | A phase has the parent of its last declaration that carries one |
| `PhaseGraph.CycleNeverEnds` | `har/crates/har-lang-compiler/src/lib.rs:413-420` | A walk that starts on a cycle stays on it |
| `PhaseGraph.MapsAgreeUnlessShadowed` | `har/crates/har-lang-compiler/src/lib.rs:401-411` | What the two checkers' maps hold for a name, read off the declarations: they differ exactly on names redeclared without a dependency |
| `PhaseGraph.StrictCycles` | `har/crates/har-lang-semantics/src/v0.rs:1386-1425` | The strict graph is cyclic exactly when some cycle of the parent map avoids shadowed names |
| `PhaseGraph.CheckersAgreeIff` | `har/crates/har-lang-semantics/src/v0.rs:1386-1425` | With at most one dependency a phase the two checkers agree exactly when a cyclic parent map has a cycle that avoids shadowed names |
| `PhaseGraph.CheckersAgreeUnlessShadowed` | `har/crates/har-lang-compiler/src/lib.rs:400-423` | They agree on every program in which no name is shadowed |
| `PhaseGraph.CheckersDisagree` | `har/crates/har-lang-compiler/src/lib.rs:401-411` | A phase declared twice, first depending on itself, is cyclic only for the pointer-chasing checker |
| `PinnedPool.PinnedHostPool.New` | `har/crates/har-memory/src/pinned_pool.rs:70-87` | Refuses exactly the invalid configurations; a new pool is valid with one free block over the whole region |
| `Arithmetic.PowerOfTwoIff` | `har/crates/har-memory/src/pinned_pool.rs:22-30` | The alignment test accepts exactly the powers of two |
| `PinnedPool.PinnedHostPool.Acquire` | `har/crates/har-memory/src/pinned_pool.rs:104-158` | In a valid pool a request up to the largest non-wrapping size is served exactly when a free run of the rounded size exists, at the lowest such offset, and the pool stays valid; a larger request that is served breaks the tiling |
| `PinnedPool.PinnedHostPool.FirstFit` | `har/crates/har-memory/src/pinned_pool.rs:113-125` | Finds the lowest block that holds the rounded size, or none |
| `PinnedPool.PinnedHostPool.Release` | `har/crates/har-memory/src/pinned_pool.rs:161-181` | Accepts exactly the live handles; their bytes, no more, become free, the pool stays valid, and a rejected handle changes nothing |
| `PinnedPool.PinnedHostPool.InsertFree` | `har/crates/har-memory/src/pinned_pool.rs:183-202` | Returns a range to the free map so that exactly its bytes are added and no two blocks touch |
| `PinnedPool.PinnedHostPool.InUseBytes` | `har/crates/har-memory/src/pinned_pool.rs:97-99` | The sum of the live requests |
| `PoolState.MisalignIsZero` | `har/crates/har-memory/src/pinned_pool.rs:114-117` | Free starts are multiples of the alignment, so the first fit never skips bytes |
| `PoolState.RoundedWraps` | `har/crates/har-memory/src/pinned_pool.rs:112` | The rounding is exact up to the largest request and wraps to zero exactly above it |
| `PinnedPool.WrappedRequestOverlaps` | `har/crates/har-memory/src/pinned_pool.rs:112` | A live handle whose rounding wrapped is never part of a valid pool |
| `PinnedPool.LowestFit` | `har/crates/har-memory/src/pinned_pool.rs:113-125` | The first block that fits starts the lowest free run that fits |
| `PoolState.FitsIffBlock` | `har/crates/har-memory/src/pinned_pool.rs:113-125` | A free run of a size exists exactly when one free block is that large: coalescing is maximal |
| `PinnedPool.AcquireKeepsValid` | `har/crates/har-memory/src/pinned_pool.rs:104-158` | An acquire keeps the tiling, alignment, separation and handle invariants |
| `PinnedPool.ReleaseKeepsValid` | `har/crates/har-memory/src/pinned_pool.rs:161-202` | A release keeps them too |
| `PinnedPool.LiveReservation` | `har/crates/har-memory/src/pinned_pool.rs:104-158` | A live reservation is aligned, inside the region and holds no free byte |
| `PoolState.FreeIsDeterminedByLive` | `har/crates/har-memory/src/pinned_pool.rs:183-202` | The free map is a function of the live handles: the order of releases leaves no trace |
| `PoolState.EmptyPoolIsOneBlock` | `har/crates/har-memory/src/pinned_pool.rs:183-202` | With nothing live the pool is the single block over the whole region |
| `PoolState.BytesAreConserved` | `har/crates/har-memory/src/pinned_pool.rs:104-202` | Free and reserved bytes add up to the capacity |
| `PoolState.InUseWithinCapacity` | `har/crates/har-memory/src/pinned_pool.rs:97-99` | Bytes in use never exceed the capacity |
| `PoolState.ReleaseUndoesAcquire` | `har/crates/har-memory/src/pinned_pool.rs:104-181` | Acquire then release gives back the same free map and live handles |
| `PoolState.AcquireIsDetermined` | `har/crates/har-memory/src/pinned_pool.rs:104-158` | State and request determine the handle and the whole free map |
| `PoolState.StaleHandleStaysStale` | `har/crates/har-memory/src/pinned_pool.rs:161-172` | A handle that is no longer live is never live again in any run |
| `PoolState.ReleasedHandleIsRefusedForever` | `har/crates/har-memory/src/pinned_pool.rs:161-172` | A released handle is refused for the rest of every run, even once its offset is reused |
| `Lexer.Lex` | `har/crates/har-lang-lexer/src/lib.rs:51-236` | The lexer loop computes the token and error lists of the scanner specification, spans included |
| `Lexer.LexOne` | `har/crates/har-lang-lexer/src/lib.rs:71-226` | One round of the loop: at least one byte consumed, and the tokens, errors and position of one scan |
| `Lexer.LexBody` | `har/crates/har-lang-lexer/src/lib.rs:100-139` | The string loop: escapes, newline errors and one character per byte |
| `Lexer.LexNumber` | `har/crates/har-lang-lexer/src/lib.rs:164-196` | Digits, a fraction unless the dot begins a range, and an exponent |
| `Lexer.Advance` | `har/crates/har-lang-lexer/src/lib.rs:59-69` | Advancing keeps line and column those of the byte offset |
| `Lexemes.EveryOffset` | `har/crates/har-lang-lexer/src/lib.rs:71-226` | At every offset of every input stands white space, a comment, a symbol, a word, a number, a string or a stray byte |
| `Lexemes.ReadsSpaceAt` | `har/crates/har-lang-lexer/src/lib.rs:73-76` | White space is passed over byte by byte |
| `Lexemes.ReadsCommentAt` | `har/crates/har-lang-lexer/src/lib.rs:77-82` | A comment runs from two slashes to the next newline or the end, and leaves no token and no error |
| `Lexemes.ReadsSymbolAt` | `har/crates/har-lang-lexer/src/lib.rs:86-98` | A symbol is one token over its one or two characters |
| `Lexemes.ReadsWordAt` | `har/crates/har-lang-lexer/src/lib.rs:197-214` | A word is one token over the longest run of letters, digits, underscores and hyphens that starts with a letter or underscore |
| `Lexemes.ReadsNumberAt` | `har/crates/har-lang-lexer/src/lib.rs:164-196` | A number is one token over digits, a fraction unless two dots follow, and an exponent, each digit run as long as it can be |
| `Lexemes.ReadsStringAt` | `har/crates/har-lang-lexer/src/lib.rs:99-163` | A string is one token of its unescaped text up to its closing quote, with an error for each newline; without a closing quote it is an error and no token |
| `Lexemes.BodyIs` | `har/crates/har-lang-lexer/src/lib.rs:103-139` | Where a string closes, what it holds and which newlines it reports, read off its pieces |
| `Lexemes.EscapesAre` | `har/crates/har-lang-lexer/src/lib.rs:112-117` | Three letters are escapes; any other byte behind a backslash is itself |
| `Lexemes.ReadsStrayAt` | `har/crates/har-lang-lexer/src/lib.rs:215-225` | Any other byte is an error of its own and is passed over |
| `Lexemes.PositionIs` | `har/crates/har-lang-lexer/src/lib.rs:59-69` | The line counts the newlines before an offset, the column the bytes since the last one |
| `Lexemes.LastIsEof` | `har/crates/har-lang-lexer/src/lib.rs:227-230` | The token list ends in one Eof at the end of the input |
| `LexicalText.NumberMoves` | `har/crates/har-lang-lexer/src/lib.rs:164-196` | The bytes of a number are the same number wherever they stand before a space, comma, semicolon, bracket or range dots |
| `LexicalText.DotDropped` | `har/crates/har-lang-lexer/src/lib.rs:171-176` | A number ending in a dot is still a number without it: the guard that makes range starts lose their dot |
| `Bytes.LatinOfEncode` | `har/crates/har-lang-lexer/src/lib.rs:134-136` | Reading text byte by byte gives it back exactly when it is ASCII |
| `Bytes.Utf8Is` | `har/crates/har-lang-lexer/src/lib.rs:52` | Text is UTF-8: the length of each character, its continuation bytes, and the value they hold |
| `Parser.Parse` | `har/crates/har-lang-parser/src/lib.rs:7-69` | The parser succeeds exactly when the grammar yields no errors, with its program, and otherwise reports the grammar's diagnostics in order; it terminates on every token list ending in Eof; which lists those are is Syntax.ParsesExactly |
| `Syntax.ParsesExactly` | `har/crates/har-lang-parser/src/lib.rs:53-222` | The parser answers with a program exactly when the tokens derive it in a declarative grammar: two words, braces and fields; a word, a value and a semicolon; comma-separated list items with an optional last comma; spans included |
| `Syntax.RefusesExactly` | `har/crates/har-lang-parser/src/lib.rs:53-222` | It refuses exactly the token lists that derive no program, and no list derives two |
| `Diagnostics.DiagnosticsAreExplained` | `har/crates/har-lang-parser/src/lib.rs:60-222` | Every diagnostic of a refused program names a token that cannot stand where it does, and they come in source order |
| `Parser.Parser.ParseProgram` | `har/crates/har-lang-parser/src/lib.rs:53-69` | The declaration loop moves forward every round, recovering at the top level after an error |
| `Parser.Parser.ParseBlock` | `har/crates/har-lang-parser/src/lib.rs:71-133` | A block and its errors, spans and end position, as the grammar has it |
| `Parser.Parser.ParseFields` | `har/crates/har-lang-parser/src/lib.rs:82-120` | The field loop moves forward every round, with field-level recovery |
| `Parser.Parser.ParseValue` | `har/crates/har-lang-parser/src/lib.rs:135-176` | Scalars, quantities, ranges and lists with their errors |
| `Parser.Parser.ParseItems` | `har/crates/har-lang-parser/src/lib.rs:178-222` | The list loop moves forward every round, with list-level recovery |
| `Parser.Parser.RecoverTopLevel` | `har/crates/har-lang-parser/src/lib.rs:257-262` | Skips to the next brace or the end and never past Eof |
| `Parser.Parser.RecoverFieldLevel` | `har/crates/har-lang-parser/src/lib.rs:264-272` | Skips to the next semicolon or closing brace |
| `Parser.Parser.RecoverListLevel` | `har/crates/har-lang-parser/src/lib.rs:274-282` | Skips to the next comma, bracket or brace |
| `Diagnostics.RecoverTopIs` | `har/crates/har-lang-parser/src/lib.rs:257-262` | After a bad declaration reading goes on just past the next closing brace, or ends |
| `Diagnostics.RecoverFieldIs` | `har/crates/har-lang-parser/src/lib.rs:264-272` | After a bad field, just past the next semicolon, or at the next closing brace or the end |
| `Diagnostics.RecoverListIs` | `har/crates/har-lang-parser/src/lib.rs:274-282` | After a bad item, just past the next comma, or at the next closing bracket or the end |
| `Formatter.FormatProgram` | `har/crates/har-lang-format/src/lib.rs:5-12` | Appends exactly the text of the tree |
| `Formatter.FormatBlock` | `har/crates/har-lang-format/src/lib.rs:14-24` | One block, field by field |
| `Formatter.FormatValue` | `har/crates/har-lang-format/src/lib.rs:26-54` | One value, with nested lists and their separators |
| `Formatter.FormatString` | `har/crates/har-lang-format/src/lib.rs:29-40` | Escapes quotes, newlines and backslashes, and nothing else |
| `Formatter.OneBlock` | `har/crates/har-lang-format/src/lib.rs:14-24` | A block is a header line, its fields, a closing line and a blank one |
| `Formatter.BlocksFollow` | `har/crates/har-lang-format/src/lib.rs:5-12` | Blocks are printed one after another |
| `Formatter.OneField` | `har/crates/har-lang-format/src/lib.rs:17-22` | A field is a line of its own, four spaces in |
| `Formatter.FieldsFollow` | `har/crates/har-lang-format/src/lib.rs:16-22` | Fields are printed one after another |
| `Formatter.ItemsFollow` | `har/crates/har-lang-format/src/lib.rs:43-52` | List items are separated by a comma and a space |
| `Formatter.EachValue` | `har/crates/har-lang-format/src/lib.rs:26-54` | How each kind of value is spelled, and which three characters are escaped how |
| `Relex.FormattedLexes` | `har/crates/har-lang-format/src/lib.rs:5-54` | Every printed tree of lexemes lexes without errors to exactly the kinds of its tree |
| `Relex.DotMoves` | `har/crates/har-lang-lexer/src/lib.rs:171-176` | The text of a range is unchanged when its start's last dot moves to its end |
| `Relex.ReadsFourDots` | `har/crates/har-lang-lexer/src/lib.rs:171-176` | Dots on both sides of a range read as two range symbols |
| `RoundTrip.FormattedReads` | `har/crates/har-lang-format/src/lib.rs:5-54` | Reading back any printable tree gives its reread form, and fails exactly when a range has dots on both sides |
| `RoundTrip.RoundTripsIff` | `har/crates/har-lang-format/src/lib.rs:5-54` | parse(lex(format(p))) is p up to spans exactly for trees of lexemes with flat lists, ASCII strings and no range start that is a number ending in a dot |
| `Reprint.ReprintsIff` | `har/crates/har-lang-format/src/lib.rs:5-54` | Formatting what was read back from the formatted text gives that text again exactly when every string is ASCII, moved range dots or not; otherwise the text grows |
| `RoundTrip.ParsedBlocksAreLexical` | `har/crates/har-lang-parser/src/lib.rs:53-222` | Whatever the parser builds from lexed tokens is a tree the formatter can spell |
| `RoundTrip.ParsedProgramRoundTrips` | `har/crates/har-lang-format/src/lib.rs:5-54` | For programs the parser built, only non-ASCII strings and range dots can break the round trip |
| `RoundTrip.DotMovesToTheEnd` | `har/crates/har-lang-lexer/src/lib.rs:171-176` | The range from 1. to 3 prints as 1...3 and reads back as the range from 1 to .3 |
| `Digests.BuildFrame` | `har/crates/har-kv/src/identity.rs:14-19` | The framing loop: each part after its length |
| `Digests.FrameInjective` | `har/crates/har-kv/src/identity.rs:14-19` | The length-prefixed framing loses nothing: equal frames mean equal part lists |
| `Digests.FrameJoins` | `har/crates/har-kv/src/identity.rs:14-19` | Frames of two part lists follow one another |
| `Digests.FrameOfOne` | `har/crates/har-kv/src/identity.rs:14-19` | One part is framed by its length in eight little-endian bytes |
| `Digests.PartsOrCollision` | `har/crates/har-kv/src/identity.rs:14-47` | Equal digests mean equal parts, or name the two byte strings on which the mixing collides |
| `Identity.TokenSequenceRoot` | `har/crates/har-kv/src/identity.rs:143-149` | The token root is the digest of the concatenated little-endian tokens |
| `Identity.TokenBytesInjective` | `har/crates/har-kv/src/identity.rs:143-149` | Distinct token sequences have distinct byte forms |
| `Identity.TokenBytesAt` | `har/crates/har-kv/src/identity.rs:143-149` | Which four bytes stand for the k-th token |
| `Identity.SameIdSameIdentity` | `har/crates/har-kv/src/graph.rs:13-29` | One node id belongs to one identity, in whatever graph generations, short of an explicit collision |
| `Identity.SameRootSameClosure` | `har/crates/har-kv/src/identity.rs:80-98` | Equal closure roots mean equal closures in every field, short of an explicit collision |
| `PrefixForest.IdIgnoresGeneration` | `har/crates/har-kv/src/graph.rs:13-29` | Node ids do not depend on the graph generation |
| `GraphAnswers.NodeIdHolds` | `har/crates/har-kv/src/graph.rs:13-29` | The parts of a node id, in order |
| `GraphAnswers.ClosureHolds` | `har/crates/har-kv/src/identity.rs:151-174` | What the closure of an identity says of it, field by field |
| `GraphAnswers.ClosureRootHolds` | `har/crates/har-kv/src/identity.rs:80-98` | The parts of a closure root, in order |
| `PageKey.KeyInjective` | `har/crates/har-kv/src/page.rs:77-90` | Distinct page ids have distinct keys |
| `PageKey.DigitsInjective` | `har/crates/har-kv/src/page.rs:77-90` | Distinct numbers have distinct decimal texts |
| `PageKey.DigitsSpell` | `har/crates/har-kv/src/page.rs:77-90` | Digits spell the number: no leading zero, and their decimal value is it |
| `PageKey.KeyIs` | `har/crates/har-kv/src/page.rs:77-90` | The fields of a key, in order, and what stands between them |
| `PageRecord.FindAdded` | `har/crates/har-kv/src/page.rs:206-211` | Adding replaces that kind and leaves every other kind as it was |
| `PageRecord.AddedKeepsOneEach` | `har/crates/har-kv/src/page.rs:206-211` | Adding keeps at most one representation of a kind |
| `PageRecord.FindRemoved` | `har/crates/har-kv/src/graph.rs:526-531` | Removing the one of a kind takes that kind away and no other |
| `PrefixGraph.PrefixGraph.InsertRoot` | `har/crates/har-kv/src/graph.rs:191-226` | The whole graph after inserting a root, and each error |
| `PrefixForest.InsertRootAnswers` | `har/crates/har-kv/src/graph.rs:191-226` | When a root is accepted and which error each other case gives |
| `GraphAnswers.InsertRootChanges` | `har/crates/har-kv/src/graph.rs:203-225` | An accepted root adds one root and one fresh node, and nothing else |
| `PrefixGraph.PrefixGraph.Extend` | `har/crates/har-kv/src/graph.rs:228-280` | The whole graph after an extension, the edge returned, and each error |
| `PrefixForest.ExtendAnswers` | `har/crates/har-kv/src/graph.rs:228-280` | In a forest an extension is accepted exactly when the parent is a node, the tokens are the parent's and the new one, and a lookup of them finds nothing; which error each other case gives |
| `PrefixForest.EdgeOfExtension` | `har/crates/har-kv/src/graph.rs:248-279` | The edge of an extension leads from the parent to the new id, at the place of the token |
| `PrefixForest.ExtendCases` | `har/crates/har-kv/src/graph.rs:228-248` | On any graph: which error each case gives, and that a refusal changes nothing |
| `GraphAnswers.ExtendChanges` | `har/crates/har-kv/src/graph.rs:248-279` | An accepted child adds that node and the parent's link to it, and nothing else |
| `PrefixGraph.PrefixGraph.Lookup` | `har/crates/har-kv/src/graph.rs:282-303` | The node reached along the tokens, or none, or an unknown root |
| `PrefixGraph.PrefixGraph.RetainPrefix` | `har/crates/har-kv/src/graph.rs:305-316` | Adds one for each node met on the way up, and stops with an error at a missing one; its precondition is that the walk ends, without which the code does not return |
| `PrefixGraph.PrefixGraph.ReleasePrefix` | `har/crates/har-kv/src/graph.rs:318-332` | On every graph, looping or not: takes one from each node met, up to a root or up to the first zero count or missing node, which is the error; it always terminates |
| `PrefixWalks.RetainIs` | `har/crates/har-kv/src/graph.rs:305-316` | Where parents lie above their children a retain ends and adds one to the node and all above it, and to nothing else |
| `PrefixForest.UpwardArePrefixes` | `har/crates/har-kv/src/graph.rs:305-316` | In a forest a node and those above it are exactly the nodes of its tree whose tokens begin its own |
| `GraphAnswers.RetainCountsPrefixes` | `har/crates/har-kv/src/graph.rs:305-316` | In a forest a retain succeeds and counts once more exactly the nodes that stand for a beginning of the node's tokens |
| `PrefixWalks.ReleaseIs` | `har/crates/har-kv/src/graph.rs:318-332` | There a release takes one from each node up to the first zero count, once |
| `PrefixWalks.EndsIff` | `har/crates/har-kv/src/graph.rs:305-316` | A walk up ends exactly if it does so within as many links as there are nodes |
| `PrefixWalks.LoopedReleaseFails` | `har/crates/har-kv/src/graph.rs:318-332` | Where the walk up would go round for ever, a release still returns, with the zero-count error |
| `PrefixGraph.PrefixGraph.AttachPage` | `har/crates/har-kv/src/graph.rs:334-353` | The whole graph after attaching a page, and each error in order |
| `GraphAnswers.AttachAnswers` | `har/crates/har-kv/src/graph.rs:334-353` | When a page is attached and which error each other case gives |
| `GraphAnswers.AttachChanges` | `har/crates/har-kv/src/graph.rs:345-352` | An attached page changes its record and its node's list, and nothing else |
| `PrefixGraph.PrefixGraph.AddRepresentation` | `har/crates/har-kv/src/graph.rs:355-373` | Replaces that kind on that page, under the current generation only |
| `GraphAnswers.AddAnswers` | `har/crates/har-kv/src/graph.rs:355-373` | When a representation is added, which error each other case gives, and what changes |
| `PrefixGraph.PrefixGraph.Lease` | `har/crates/har-kv/src/graph.rs:447-485` | Both counts and the lease map after a lease, and each error |
| `GraphAnswers.AcquireAnswers` | `har/crates/har-kv/src/graph.rs:447-485` | When a lease is given and which error each other case gives |
| `GraphAnswers.AcquireChanges` | `har/crates/har-kv/src/graph.rs:467-484` | A lease is filed under its id with its owner, page and generation, both counts of its page rise, and nothing else changes |
| `PrefixGraph.PrefixGraph.ReleaseLease` | `har/crates/har-kv/src/graph.rs:487-502` | The lease is removed first; then both counts go down or an error says why not |
| `GraphAnswers.ReleaseLeaseAnswers` | `har/crates/har-kv/src/graph.rs:487-502` | Each answer of a release, and what is left of the lease and the counts in each |
| `PrefixGraph.PrefixGraph.Evict` | `har/crates/har-kv/src/graph.rs:504-532` | The removed representation and the page without it, and each error in order |
| `GraphAnswers.EvictAnswers` | `har/crates/har-kv/src/graph.rs:504-532` | When a kind is evicted and which error each other case gives |
| `PrefixGraph.PrefixGraph.AdvanceGeneration` | `har/crates/har-kv/src/graph.rs:559-562` | The next generation, in wrapping u64 arithmetic |
| `GraphAnswers.ValidateAnswers` | `har/crates/har-kv/src/graph.rs:534-555` | When the closure check passes a page and which error each other case gives |
| `GraphAnswers.AdvanceChanges` | `har/crates/har-kv/src/graph.rs:559-562` | The generation goes up by one, from the last back to zero, and nothing else changes |
| `PrefixForest.InsertRootKeepsForest` | `har/crates/har-kv/src/graph.rs:191-226` | A new root keeps parent links and child maps inverse exactly when no node has its id yet |
| `PrefixForest.ExtendKeepsForest` | `har/crates/har-kv/src/graph.rs:228-280` | A child keeps them inverse exactly when no node has its id yet, whatever its identity |
| `PrefixForest.AgreeingChildIsNew` | `har/crates/har-kv/src/graph.rs:239-248` | A child that agrees with its parent off the tokens always gets a new id |
| `PrefixForest.NewRootIsNew` | `har/crates/har-kv/src/graph.rs:195-201` | A root not among the roots is not among the nodes |
| `PrefixForest.DisagreeingChildIsOverwritten` | `har/crates/har-kv/src/graph.rs:239-273` | Without agreement two extensions can share an id, and the second unlinks the first |
| `PrefixForest.LookupFindsExactly` | `har/crates/har-kv/src/graph.rs:282-303` | Lookup returns a node exactly when that node lies under that root with exactly those tokens |
| `PrefixForest.LookupAfterExtend` | `har/crates/har-kv/src/graph.rs:228-303` | After an extension exactly one more path is found, and it leads to the new node |
| `LookupRuns.LookupAfterInsertRoot` | `har/crates/har-kv/src/graph.rs:191-303` | A new root is found by its empty path alone, and every other lookup is as before |
| `LookupRuns.LookupAfterStep` | `har/crates/har-kv/src/graph.rs:191-562` | Any operation on a forest that inserts nothing, or under a new id, finds exactly the paths found before and the one it inserts |
| `LookupRuns.RunFindsInserted` | `har/crates/har-kv/src/graph.rs:191-562` | In every run of new ids a lookup finds a node exactly when an earlier operation of the run inserted it on that path |
| `LookupRuns.RunExtendsIff` | `har/crates/har-kv/src/graph.rs:191-303` | In every such run an extension of a node is accepted exactly when its tokens fit and no earlier operation inserted that path |
| `GraphRuns.ExtendKeepsParentsAbove` | `har/crates/har-kv/src/graph.rs:228-280` | An extension, agreeing or not, onto a new id or over an old node, keeps every parent above its child, short of a digest collision |
| `GraphRuns.InsertRootKeepsParentsAbove` | `har/crates/har-kv/src/graph.rs:191-226` | So does a root insertion |
| `GraphRuns.RunWalksEnd` | `har/crates/har-kv/src/graph.rs:305-332` | In every run without a digest collision, whatever was inserted, retained, released or leased before, the next retain or release returns |
| `GraphRuns.WithChildKeepsParentsAboveIff` | `har/crates/har-kv/src/graph.rs:251-278` | On any graph whose parents lie above their children, storing a child keeps them so exactly when its id is not its parent's and no child of an overwritten node lies as high as the new one |
| `GraphRuns.ExtendKeepsParentsAboveIff` | `har/crates/har-kv/src/graph.rs:228-280` | The same for every successful extension, whatever the digests |
| `GraphRuns.RootChildLoopsIff` | `har/crates/har-kv/src/graph.rs:191-316` | For a root and its first child: walks from them end exactly when the two ids differ; where they collide the child is its own parent and its release fails |
| `GraphRuns.StepKeepsForestIff` | `har/crates/har-kv/src/graph.rs:191-562` | Any operation keeps parent links, child maps, ids and roots consistent exactly when it inserts nothing or inserts under a new id |
| `GraphRuns.RunIsForest` | `har/crates/har-kv/src/graph.rs:191-562` | In every run of new ids, whatever it does to counts, pages and leases, the graph is a forest and every attached page validates against its causal closure |
| `GraphRuns.AgreedRunHasNewIds` | `har/crates/har-kv/src/graph.rs:191-280` | In every run whose children agree with their parents off the tokens every insertion gives a new id, short of a collision |
| `RefCounts.ReleaseSucceedsIff` | `har/crates/har-kv/src/graph.rs:318-332` | A release succeeds exactly when every count from the node to its root is positive |
| `RefCounts.FailedReleaseIsCleanIff` | `har/crates/har-kv/src/graph.rs:318-332` | On any graph, a failed release leaves it as it was exactly when the node itself has no count; otherwise it has already taken counts down |
| `GraphRuns.ReleaseFailsPartWay` | `har/crates/har-kv/src/graph.rs:318-332` | Insert a root, extend it, retain the child, release the root, release the child: the last release fails at the root and has taken the child's count |
| `RefCounts.ReleaseUndoesRetain` | `har/crates/har-kv/src/graph.rs:305-332` | A release right after a retain restores the whole graph |
| `RefCounts.RetainKeepsBalance` | `har/crates/har-kv/src/graph.rs:305-316` | After a retain every count is still the number of outstanding retains in its subtree |
| `RefCounts.MatchedReleaseSucceeds` | `har/crates/har-kv/src/graph.rs:318-332` | A matched release never fails part-way up, and every count stays exact |
| `PageLeases.IdTakenIff` | `har/crates/har-kv/src/graph.rs:470-475` | A lease id is taken exactly when a live lease has the same page, owner and generation |
| `PageLeases.AcquireKeepsLeased` | `har/crates/har-kv/src/graph.rs:447-485` | A lease keeps counts equal to live leases exactly when its id was not live |
| `PageLeases.ReleaseKeepsLeased` | `har/crates/har-kv/src/graph.rs:487-502` | Exactly the live leases can be released, and counts stay exact |
| `PageLeases.ReleaseUndoesAcquire` | `har/crates/har-kv/src/graph.rs:447-502` | Releasing a newly taken lease restores the graph |
| `PageLeases.EvictSucceedsIff` | `har/crates/har-kv/src/graph.rs:504-532` | Eviction succeeds exactly with the current generation, no live lease on the page, and the kind present |
| `PageLeases.EvictRemovesKind` | `har/crates/har-kv/src/graph.rs:526-531` | What eviction returns and removes: the first of that kind on that page, nothing else; the kind is gone exactly if the page had one of it |
| `PageLeases.EvictKeepsLeased` | `har/crates/har-kv/src/graph.rs:504-532` | Eviction keeps counts exact and every leased kind present |
| `PageLeases.AddKeepsLeased` | `har/crates/har-kv/src/graph.rs:355-373` | So does adding a representation |
| `PageLeases.AttachKeepsLeased` | `har/crates/har-kv/src/graph.rs:334-353` | Attaching keeps counts exact precisely when the record counts the live leases of that page and has their kinds |
| `PageLeases.RepeatedLeasePinsPage` | `har/crates/har-kv/src/graph.rs:467-483` | A lease repeated by one owner in one generation leaves a page that cannot be evicted after any sequence of releases |
| `GraphRuns.RunNeverEvicts` | `har/crates/har-kv/src/graph.rs:191-562` | A page that counts more leases than are live is never evicted in the rest of the run, whatever is done short of attaching it again |
| `GraphRuns.StepKeepsOneEachIff` | `har/crates/har-kv/src/graph.rs:334-373` | Any operation keeps at most one representation of a kind on every page exactly when an attached record has it so |
| `GraphRuns.RunHasOneEach` | `har/crates/har-kv/src/graph.rs:191-562` | In every run whose attached records have at most one representation of a kind, every page has |
| `GraphRuns.RunIsBalanced` | `har/crates/har-kv/src/graph.rs:191-562` | In every run of new ids and matched releases, whatever it does to pages and leases, each count is the number of outstanding retains in the subtree, and every release succeeds |
| `GraphRuns.AllReleasedMeansZero` | `har/crates/har-kv/src/graph.rs:305-332` | Once such a run has released all it retained, every count is zero |
| `GraphRuns.PageStepKeepsBalance` | `har/crates/har-kv/src/graph.rs:334-562` | No page or lease operation, on any graph, touches a reference count of a node |
| `GraphRuns.StepKeepsLeasedIff` | `har/crates/har-kv/src/graph.rs:191-562` | Any operation on any graph keeps lease counts exact and leased kinds present precisely when an attached record counts the live leases of its page and has their kinds, or a new lease has an id not yet live |
| `GraphRuns.RunIsLeased` | `har/crates/har-kv/src/graph.rs:191-562` | Every run of such operations, with prefix operations in any order, keeps them so |
| `GraphRuns.NewPageIsLeaseSafe` | `har/crates/har-kv/src/graph.rs:334-353` | A page attached for the first time with zero counts satisfies that condition |
| `GraphRuns.NewHolderIsLeaseSafe` | `har/crates/har-kv/src/graph.rs:447-485` | So does a lease its owner does not hold yet in this generation, short of a collision |
| `GraphRuns.LeaseSurvives` | `har/crates/har-kv/src/graph.rs:447-502` | A live lease outlives every such operation but its own release |
| `GraphRuns.LeasedKindStays` | `har/crates/har-kv/src/graph.rs:504-532` | Along any further run that does not release it, the leased kind stays on its page and eviction is refused |
| `MemoryStore.MemoryPageStore.Put` | `har/crates/har-contextfold/src/store.rs:77-96` | The entry, the offset (saturating) and the location after a put; empty payloads are refused |
| `FoldAnswers.PutIs` | `har/crates/har-contextfold/src/store.rs:77-96` | A put is refused for no bytes alone; else the page has one entry, at the next offset, which moves on by the length up to the last u64 |
| `MemoryStore.MemoryPageStore.Get` | `har/crates/har-contextfold/src/store.rs:97-112` | The payload of the page's entry, only for its exact location |
| `FoldAnswers.GetIs` | `har/crates/har-contextfold/src/store.rs:97-112` | A get gives the payload of exactly the entry at that place, and each other case its error |
| `MemoryStore.MemoryPageStore.Remove` | `har/crates/har-contextfold/src/store.rs:113-129` | Removes that entry, only for its exact location |
| `FoldAnswers.RemoveIs` | `har/crates/har-contextfold/src/store.rs:113-129` | A remove takes exactly that entry, and each other case changes nothing |
| `FoldState.PutThenGet` | `har/crates/har-contextfold/src/store.rs:77-112` | A put is read back, other pages read as before, and older locations of that page no longer read |
| `ContextFold.ContextFoldController.RegisterReferencePage` | `har/crates/har-contextfold/src/orchestrator.rs:114-149` | Attach, then the exact and the archive representation, stopping at the first error |
| `FoldAnswers.RegisterIs` | `har/crates/har-contextfold/src/orchestrator.rs:114-149` | A registered page is hot and has the exact and the archive representation with their sizes and no place; every other kind is as in the record |
| `ContextFold.ContextFoldController.PersistLatentPage` | `har/crates/har-contextfold/src/orchestrator.rs:151-191` | Store, then record the place; on a graph error take the payload back out |
| `FoldAnswers.PersistIs` | `har/crates/har-contextfold/src/orchestrator.rs:151-215` | What a persist records of each form, of the payload's length, at the place just written, and what each failure leaves |
| `ContextFold.ContextFoldController.PersistLosslessPage` | `har/crates/har-contextfold/src/orchestrator.rs:193-212` | The same for lossless payloads |
| `ContextFold.ContextFoldController.LoadRepresentationPayload` | `har/crates/har-contextfold/src/orchestrator.rs:418-438` | The stored bytes of a representation, or which part of the way failed |
| `FoldAnswers.LoadIs` | `har/crates/har-contextfold/src/orchestrator.rs:418-438` | A load gives the bytes at the recorded place, or names the first of page, kind, place and store entry that is missing |
| `ContextFold.ContextFoldController.SafeEvict` | `har/crates/har-contextfold/src/orchestrator.rs:440-463` | Evict from the graph first, then remove the stored bytes |
| `FoldAnswers.SafeEvictIs` | `har/crates/har-contextfold/src/orchestrator.rs:440-463` | An eviction answers as the graph does, and then as the store does for the recorded place |
| `ContextFold.ContextFoldController.AcquireLease` | `har/crates/har-contextfold/src/orchestrator.rs:396-404` | A lease under the current generation |
| `ContextFold.ContextFoldController.ReleaseLease` | `har/crates/har-contextfold/src/orchestrator.rs:406-416` | Releases by lease id |
| `ContextFold.ContextFoldController.PromoteWarm` | `har/crates/har-contextfold/src/orchestrator.rs:258-282` | Adds a warm representation without a place |
| `FoldAnswers.PromoteIs` | `har/crates/har-contextfold/src/orchestrator.rs:258-282` | A warm representation of that size and codec is added to a known page, without a place |
| `ContextFold.ContextFoldController.SetRecentHot` | `har/crates/har-contextfold/src/orchestrator.rs:217-240` | Refuses an empty window; otherwise marks every attached page hot or cold by its end and its exact representation |
| `FoldAnswers.RecentIs` | `har/crates/har-contextfold/src/orchestrator.rs:217-240` | Recent pages end less than the window before the current token and have an exact representation |
| `FoldAnswers.MarksAre` | `har/crates/har-contextfold/src/orchestrator.rs:242-256` | A mark needs a known page and changes that page alone |
| `ContextFold.ContextFoldController.MarkPageHot` | `har/crates/har-contextfold/src/orchestrator.rs:242-248` | Marks one attached page hot and no other |
| `ContextFold.ContextFoldController.MarkPageCold` | `har/crates/har-contextfold/src/orchestrator.rs:250-256` | Marks one attached page cold and no other |
| `FoldState.PersistedIsLoaded` | `har/crates/har-contextfold/src/orchestrator.rs:151-212` | After a persist a load of that kind gives that payload, loads of other pages are unchanged, and every other kind of that page fails to load |
| `FoldTruth.LoadsLatestOrFails` | `har/crates/har-contextfold/src/orchestrator.rs:418-438` | Where all that the store still reads is the latest payload, a load gives the latest persisted bytes of that page and kind or an error |
| `FoldTruth.OtherKindLoadsIff` | `har/crates/har-contextfold/src/orchestrator.rs:151-212` | In any world, after a persist another kind of that page loads exactly if its place is the one just written, and then it gives the payload just persisted |
| `FoldTruth.PersistKeepsTruthIff` | `har/crates/har-contextfold/src/orchestrator.rs:151-212` | In any world a persist, successful or not, keeps loads to the latest bytes exactly when no other kind of the page has the place about to be written, short of the same latest payload |
| `FoldTruth.RegisterKeepsTruthIff` | `har/crates/har-contextfold/src/orchestrator.rs:114-149` | Registering keeps them so exactly when what the record's own places read is the latest payload |
| `FoldTruth.EvictKeepsTruth` | `har/crates/har-contextfold/src/orchestrator.rs:440-463` | Evicting always keeps them so |
| `FoldState.FailedPersistIffNew` | `har/crates/har-contextfold/src/orchestrator.rs:169-175` | A persist on an unknown page leaves the entries as they were exactly when the page's key had none |
| `FoldState.FailedPersistLeavesEntries` | `har/crates/har-contextfold/src/orchestrator.rs:161-175` | With entries for attached pages only, a failed persist changes no entry and no page |
| `FoldState.PersistKeepsStored` | `har/crates/har-contextfold/src/orchestrator.rs:151-212` | A persist keeps every place below the next offset and every matching entry the latest payload |
| `FoldState.EvictKeepsStored` | `har/crates/har-contextfold/src/orchestrator.rs:440-463` | So does an eviction |
| `FoldRuns.StepKeepsTruthIff` | `har/crates/har-contextfold/src/orchestrator.rs:114-463` | Any operation in any world keeps every load to the latest bytes exactly under a condition on what it attaches, adds or overwrites |
| `FoldRuns.OnlyPlacesIsEnough` | `har/crates/har-contextfold/src/orchestrator.rs:114-463` | Callers who leave places to the persists, short of a saturated offset, always meet that condition |
| `FoldRuns.StepKeepsStored` | `har/crates/har-contextfold/src/orchestrator.rs:114-463` | With such callers every operation also keeps places below the next offset and entries with attached pages |
| `FoldRuns.RunLoadsLatestOrFails` | `har/crates/har-contextfold/src/orchestrator.rs:151-463` | In every run whose operations meet the exact condition, foreign places and saturated offsets included, a load gives exactly the latest successfully persisted bytes of that page and kind, or an error |
| `FoldRuns.RunFailedPersistIsClean` | `har/crates/har-contextfold/src/orchestrator.rs:161-211` | In every run whatsoever a persist fails exactly for an empty payload or an unknown page, and then changes no page and no entry |
| `FoldRuns.SafeEvictSucceedsIff` | `har/crates/har-contextfold/src/orchestrator.rs:440-463` | An eviction succeeds exactly with no live lease on the page, the kind present, and bytes that load or were never stored |
| `FoldRuns.SafeEvictDrops` | `har/crates/har-contextfold/src/orchestrator.rs:440-463` | Whenever the graph allows the eviction the first representation of the kind goes, also where the store then refuses and keeps its entries; a load finds none exactly if there was one |
| `FoldRuns.RunHasOneEach` | `har/crates/har-contextfold/src/orchestrator.rs:114-463` | In every run that attaches no record with two representations of a kind, no page has two |
| `FoldRuns.RunHotAreAttached` | `har/crates/har-contextfold/src/orchestrator.rs:217-257` | In every run the hot pages are attached pages |
| `FoldRuns.RecentAreHot` | `har/crates/har-contextfold/src/orchestrator.rs:217-240` | After the recent-window policy the hot pages are exactly the recent ones with an exact representation |
| `FoldRuns.SaturatedPlacesAreConfused` | `har/crates/har-contextfold/src/store.rs:86-95` | The input: at a saturated offset two persists of one length get one place, and the first kind loads the second's bytes |
| `FoldRuns.EvictAfterShadowingFails` | `har/crates/har-contextfold/src/orchestrator.rs:440-463` | Evicting a kind whose entry another kind has replaced drops the representation and still reports a store error |
| `FormatSpecs.SpecFacts` | `har/crates/har-model-compiler/src/lib.rs:424-464` | Every alias names a canonical format, and only Q8_K_XL has the most bits |
| `FormatSpecs.BlocksFollowBits` | `har/crates/har-model-compiler/src/lib.rs:424-464` | More bits a weight always means larger blocks |
| `FormatSpecs.BlocksHoldTheirBits` | `har/crates/har-model-compiler/src/lib.rs:424-464` | Blocks hold exactly the bits a weight of their format, save for Q5_K_M, whose blocks hold a quarter of a bit less |
| `FormatSpecs.QuantizedIs` | `har/crates/har-model-compiler/src/lib.rs:466-469` | Exact bytes are whole blocks, rounded up |
| `FormatSpecs.KernelNames` | `har/crates/har-model-compiler/src/lib.rs:471-477` | Which kernel runs which format on which backend |
| `FormatSpecs.NamesAndAliases` | `har/crates/har-model-compiler/src/lib.rs:424-464` | Every spelling that names a format, in any case |
| `AsciiText.CaseOfChar` | `har/crates/har-model-compiler/src/lib.rs:425` | Upper and lower case change the 26 letters and nothing else |
| `AsciiText.SameButCaseIff` | `har/crates/har-model-compiler/src/lib.rs:835` | Two texts are the same but for case exactly if they are character by character |
| `FormatOffers.MeasuredLossIsNonNegative` | `har/crates/har-model-compiler/src/lib.rs:503-531` | A loss averaged from metrics is never negative |
| `MeasuredLosses.MeasuredLossIs` | `har/crates/har-model-compiler/src/lib.rs:503-531` | A row without behavioral evidence has no loss; a stated loss is taken as it is; otherwise it is the mean of what the metrics present contribute, each once |
| `MeasuredLosses.LossIsLastMeasured` | `har/crates/har-model-compiler/src/lib.rs:662-674` | What is known of a tensor in a format is what the last row about both measures |
| `FormatOffers.ByGroupFormat` | `har/crates/har-model-compiler/src/lib.rs:662-674` | One row a tensor and format, the last one counting |
| `FormatOffers.CollectOffers` | `har/crates/har-model-compiler/src/lib.rs:820-857` | The permitted formats of a tensor, in candidate order |
| `FormatOffers.BaseIsLeast` | `har/crates/har-model-compiler/src/lib.rs:820-870` | The base choice is permitted and no permitted format takes fewer bytes; there is one exactly when some format is permitted |
| `FormatOffers.ProtectedOffersAreTop` | `har/crates/har-model-compiler/src/lib.rs:817-828` | A protected tensor is offered Q8_K_XL or nothing |
| `FormatUpgrades.UpgradeImproves` | `har/crates/har-model-compiler/src/lib.rs:915-961` | An upgrade keeps the tensor, raises its bits, fits the remaining bytes and strictly lowers the loss, an absent loss counting as 1 |
| `FormatUpgrades.FindBestUpgrade` | `har/crates/har-model-compiler/src/lib.rs:902-970` | The nested loops find the specified best pick |
| `FormatUpgrades.BestUpgradeIs` | `har/crates/har-model-compiler/src/lib.rs:902-970` | It is the first with the highest loss reduction a byte, and there is none exactly when nothing fits |
| `UpgradeLaw.RoundTakesBest` | `har/crates/har-model-compiler/src/lib.rs:899-975` | Over choices defined by their own facts (more bits, exact bytes that fit, the measured loss of a candidate, lower than the current one): a round takes one whose loss reduction a byte no other exceeds and no earlier tensor equals, and there is no round exactly when none is admissible |
| `UpgradeLaw.UpgradeIsMeasured` | `har/crates/har-model-compiler/src/lib.rs:915-961` | An offered upgrade has the candidate's measured loss, and its score is the loss reduction a byte |
| `UpgradeLaw.AdmissibleIsOffered` | `har/crates/har-model-compiler/src/lib.rs:915-961` | Every admissible choice is offered for some candidate |
| `UpgradeLaw.UpgradedByRounds` | `har/crates/har-model-compiler/src/lib.rs:899-975` | The loop's result is where such rounds end |
| `FormatUpgrades.RoundProgress` | `har/crates/har-model-compiler/src/lib.rs:971-975` | Every round brings the bits below the top down, so the loop terminates, and stays within the budget |
| `FormatUpgrades.SpendSpareBytes` | `har/crates/har-model-compiler/src/lib.rs:899-975` | The loop computes the specified sequence of rounds |
| `FormatUpgrades.UpgradesKeepBudget` | `har/crates/har-model-compiler/src/lib.rs:899-975` | A plan within budget stays within it; one over budget is not touched |
| `FormatUpgrades.UpgradesExhaust` | `har/crates/har-model-compiler/src/lib.rs:899-975` | The loop stops only when no measured, loss-lowering upgrade fits |
| `FormatUpgrades.UpgradesImprove` | `har/crates/har-model-compiler/src/lib.rs:899-975` | Every changed choice has more bits, more bytes, exact bytes for its format and strictly less loss |
| `FormatAllocator.AllocateFormats` | `har/crates/har-model-compiler/src/lib.rs:797-1032` | The whole plan: choices, totals, kernels, risks and feasibility as specified |
| `PlanLaws.PlanIs` | `har/crates/har-model-compiler/src/lib.rs:797-1032` | A plan: the upgraded base choices, their totals and kernels, the budget, the routed bytes, what is unresolved, and whether anything was measured |
| `PlanLaws.BaseChoiceIs` | `har/crates/har-model-compiler/src/lib.rs:816-896` | A tensor has a base choice exactly when some candidate is allowed to it, and it is the first least of those, with its measured loss |
| `PlanLaws.RisksAre` | `har/crates/har-model-compiler/src/lib.rs:863-876` | Exactly the tensors without a choice or without a measurement are unresolved, and the budget exactly when it is exceeded |
| `PlanLaws.RisksInOrder` | `har/crates/har-model-compiler/src/lib.rs:863-876` | The risks come in the order of the tensors, at most one for each, and the budget last |
| `PlanLaws.CandidatesAre` | `har/crates/har-model-compiler/src/lib.rs:803-812` | The candidates of a policy, or without any the four default ones in order |
| `PlanLaws.TotalJoins` | `har/crates/har-model-compiler/src/lib.rs:976-979` | The totals of two lists of choices add up |
| `PlanLaws.TotalOfOne` | `har/crates/har-model-compiler/src/lib.rs:976-979` | One choice counts its bytes |
| `PlanLaws.SourceTotalOfOne` | `har/crates/har-model-compiler/src/lib.rs:1021` | One tensor counts its source bytes |
| `PlanLaws.RoutedTotalIs` | `har/crates/har-model-compiler/src/lib.rs:980-1001` | Routed bytes a token: the sum over the layers of the largest expert, as often as experts are active |
| `FormatAllocator.NumberSpells` | `har/crates/har-model-compiler/src/lib.rs:1008-1012` | The numbers in the risk texts are decimal |
| `FormatAllocator.BaseIsLeastTotal` | `har/crates/har-model-compiler/src/lib.rs:816-896` | The base choices are an assignment of permitted formats, and none takes fewer bytes |
| `FormatAllocator.PlanFitsIffSomeAssignmentFits` | `har/crates/har-model-compiler/src/lib.rs:816-1018` | The plan covers every tensor within budget exactly when some permitted assignment fits |
| `FormatAllocator.FeasibleIff` | `har/crates/har-model-compiler/src/lib.rs:1008-1018` | Feasible exactly when some permitted assignment fits and no tensor without behavioral evidence has "exceeds budget" in its id |
| `FormatAllocator.FeasibleMisreads` | `har/crates/har-model-compiler/src/lib.rs:1015-1018` | A tensor with that id makes a plan without any limit infeasible |
| `FormatAllocator.BaseChoicesAre` | `har/crates/har-model-compiler/src/lib.rs:863-895` | The tensors with a base choice, each once and in order, are those with a permitted format; a tensor without one is skipped |
| `FormatAllocator.SelectedFacts` | `har/crates/har-model-compiler/src/lib.rs:816-975` | With distinct ids, whichever tensors have no permitted format, the j-th selected choice belongs to the j-th tensor that has one, has exactly the bytes of its format, improves on its base, is Q8_K_XL if protected, and nothing more fits |
| `FormatAllocator.BaseChoiceFacts` | `har/crates/har-model-compiler/src/lib.rs:870-895` | A base choice belongs to its tensor, with that tensor's bytes |
| `FormatUpgrades.UpgradesAreMeasured` | `har/crates/har-model-compiler/src/lib.rs:915-961` | Every changed choice takes the format of a candidate and its measured loss |
| `FormatSupport.SelectedIsRunnable` | `har/crates/har-model-compiler/src/lib.rs:830-961` | Where no candidate that fits the budget has more bits than a runnable one without being runnable itself, or every role is protected, every selected format of every plan is supported and has a kernel |
| `FormatSupport.TrapIsTaken` | `har/crates/har-model-compiler/src/lib.rs:915-961` | Otherwise some tensor and some measurements give a plan that selects a format the hardware cannot run |
| `FormatSupport.PlansRunnableIff` | `har/crates/har-model-compiler/src/lib.rs:830-961` | So the plans of a policy keep to runnable formats exactly under that condition on the policy |
| `FormatSupport.UnsupportedIsPlanned` | `har/crates/har-model-compiler/src/lib.rs:915-961` | A concrete setting whose plan selects an unsupported format |
| `RoutedBytes.GroupedIs` | `har/crates/har-model-compiler/src/lib.rs:980-994` | The two-level map holds, for a layer and an expert, the sum of the routed bytes of their choices, and only for those that route any |
| `RoutedBytes.LargestCovers` | `har/crates/har-model-compiler/src/lib.rs:995-999` | No expert of any layer routes more bytes a token than its layer is counted for |
| `RoutedBytes.RoutedPerToken` | `har/crates/har-model-compiler/src/lib.rs:980-1001` | The loops sum, over the layers, the largest expert times the active experts, at least one |
| `RoutedBytes.LargestOf` | `har/crates/har-model-compiler/src/lib.rs:998` | The largest of a layer's expert sums |
| `XorRleCodec.Encode` | `har/crates/har-kv/src/codec.rs:144-156` | Every byte string encodes to a payload that decodes to it |
| `XorRleCodec.Decode` | `har/crates/har-kv/src/codec.rs:157-166` | Decoding checks codec, version, records and length |
| `XorRleCodec.DeltaEncode` | `har/crates/har-kv/src/codec.rs:52-60` | The XOR of each byte with the one before |
| `XorRleCodec.DeltaAt` | `har/crates/har-kv/src/codec.rs:52-60` | Each byte of the delta is that byte xor the one before, the first as it is |
| `XorRleCodec.DeltaDecode` | `har/crates/har-kv/src/codec.rs:62-71` | Its running inverse |
| `XorRleCodec.UndeltaDelta` | `har/crates/har-kv/src/codec.rs:52-71` | Decoding undoes encoding |
| `XorRleCodec.RleEncode` | `har/crates/har-kv/src/codec.rs:73-103` | The records of the whole string, written one after another |
| `XorRleCodec.RleRecord` | `har/crates/har-kv/src/codec.rs:78-100` | One record: where it ends and its bytes |
| `XorRleCodec.WrittenIs` | `har/crates/har-kv/src/codec.rs:84-99` | A record is a tag, its length in two little-endian bytes, and the literal bytes |
| `XorRleCodec.RecordsAreWellChosen` | `har/crates/har-kv/src/codec.rs:73-103` | Records have lengths 1 to 65535 and cover the input; zero runs are longest, literals start non-zero and never hold two adjacent zeros |
| `XorRleCodec.RleDecode` | `har/crates/har-kv/src/codec.rs:105-134` | Reads records or reports an invalid payload |
| `XorRleCodec.ReadWritten` | `har/crates/har-kv/src/codec.rs:105-134` | Every list of writable records reads back as its expansion |
| `XorRleCodec.DecodesExactlyRecords` | `har/crates/har-kv/src/codec.rs:105-134` | The decoder succeeds exactly on written records |
| `DeltaAddresses.PutVarint` | `tools/repro-harness/src/main.rs:372-378` | Appends the seven-bit groups of section 7.6 of DWARF 5 |
| `DeltaAddresses.VarintIs` | `tools/repro-harness/src/main.rs:372-378` | The low seven bits of each byte are the groups of the number, lowest first, and the top bit says that more follow |
| `DeltaAddresses.GetVarint` | `tools/repro-harness/src/main.rs:396-409` | Reads up to ten groups, dropping bits shifted past 64 |
| `DeltaAddresses.GetIs` | `tools/repro-harness/src/main.rs:396-409` | A number is read exactly when one of the first ten bytes has no top bit, and is then the value of the groups up to that byte, modulo 2^64 |
| `DeltaAddresses.U64TakesTenBytes` | `tools/repro-harness/src/main.rs:372-378` | Every u64 takes one to ten bytes |
| `DeltaAddresses.GetOfPut` | `tools/repro-harness/src/main.rs:372-409` | Reading what was written gives the value and its length, whatever follows |
| `DeltaAddresses.EncodeDeltaAddresses` | `tools/repro-harness/src/main.rs:352-361` | Wrapping address differences and values, as integers |
| `DeltaAddresses.DecodeDeltaAddresses` | `tools/repro-harness/src/main.rs:380-394` | Entries of checked sums, all bytes consumed, or none |
| `DeltaAddresses.DecodesEncoded` | `tools/repro-harness/src/main.rs:352-394` | Decoding an encoding gives the entries for sorted addresses and the right count, and nothing otherwise |
| `DeltaAddresses.RoundTripsIff` | `tools/repro-harness/src/main.rs:352-394` | The round trip holds exactly for address-sorted lists decoded with their own length |
| `BitOps.XorCancels` | `har/crates/har-kv/src/codec.rs:56` | XOR with the same byte twice gives the byte back |
| `BitOps.OrDisjoint` | `tools/repro-harness/src/main.rs:403` | Or of bits at disjoint places is their sum |
| `BitOps.BitsAre` | `tools/repro-harness/src/main.rs:403` | And, or and xor of 64-bit numbers, bit by bit |
| `PackageLayout.AlignUpIs` | `har/crates/har-model-package/src/lib.rs:55-58` | Alignment is the least multiple not below the value; saturated, it falls below exactly when value plus alignment passes 2^64 |
| `PackageHeader.Encode` | `har/crates/har-model-package/src/lib.rs:365-378` | The header bytes, field by field |
| `PackageHeader.HeaderLayout` | `har/crates/har-model-package/src/lib.rs:365-378` | Which bytes of the header hold which field |
| `PackageHeader.HeaderConstants` | `har/crates/har-model-package/src/lib.rs:366-370` | Every header begins with the magic, and its reserved bytes are zero |
| `PackageHeader.DecodeAnswers` | `har/crates/har-model-package/src/lib.rs:380-410` | Which error each bad header gives, in the order of the checks |
| `PackageHeader.DecodeOfLaid` | `har/crates/har-model-package/src/lib.rs:380-410` | Decoding gives back the header whatever stands in the reserved bytes |
| `PackageHeader.DecodesExactlyLaid` | `har/crates/har-model-package/src/lib.rs:365-410` | 128 bytes decode to a header exactly when they are that header laid out with some reserved bytes |
| `ModelPackage.HeaderReads` | `har/crates/har-model-package/src/lib.rs:365-410` | Encode and decode are inverse |
| `PackageLayout.Locate` | `har/crates/har-model-package/src/lib.rs:426-438` | The cursor loop places every payload, without wrapping |
| `PackageLayout.FillRegion` | `har/crates/har-model-package/src/lib.rs:476-481` | The zeroed buffer with every payload copied to its place |
| `PackageLayout.PlacesAreOk` | `har/crates/har-model-package/src/lib.rs:453-464` | Places are aligned, inside the region, in order and pairwise apart |
| `PackageLayout.RegionHoldsPayload` | `har/crates/har-model-package/src/lib.rs:476-481` | The region holds each payload at its place |
| `ModelPackage.Write` | `har/crates/har-model-package/src/lib.rs:416-517` | Up to four attempts at a stable offset, a final pass, and the file or the error |
| `ModelPackage.WrittenClaims` | `har/crates/har-model-package/src/lib.rs:510-515` | The returned package files the root digest under the root claim and the manifest digest under the manifest claim; every other claim, the body and the locations are those of the verified manifest |
| `ModelPackage.ClaimNames` | `har/crates/har-model-package/src/lib.rs:510-515` | The two claims have different names |
| `ModelPackage.WrittenFile` | `har/crates/har-model-package/src/lib.rs:476-508` | What a written file holds at every byte: header, manifest, zeros up to the payload offset, region |
| `PackageLayout.PlacesAreTight` | `har/crates/har-model-package/src/lib.rs:426-438` | Payloads are placed from the start with less than one alignment unit between them |
| `PackageLayout.RegionIsZeroElsewhere` | `har/crates/har-model-package/src/lib.rs:476-481` | Every byte of the region that no payload covers is zero |
| `ModelPackage.WriteSucceedsIff` | `har/crates/har-model-package/src/lib.rs:425-475` | The writer succeeds exactly when the fifth attempt confirms the fourth |
| `ModelPackage.PlainSerializerFits` | `har/crates/har-model-package/src/lib.rs:416-475` | Every serializer that never refuses and writes a bounded text for each location meets the size assumption, if the payloads and their ids are small enough |
| `ModelPackage.SteadyWriterSucceeds` | `har/crates/har-model-package/src/lib.rs:425-475` | Where larger offsets never shorten the manifest, and all manifests differ by at most three alignment units, four attempts are enough and the writer succeeds |
| `ModelPackage.GrowingManifestIsUnstable` | `har/crates/har-model-package/src/lib.rs:466-475` | With four units it can be refused as unstable |
| `ModelPackage.Verify` | `har/crates/har-model-package/src/lib.rs:574-641` | The reader's checks, in order |
| `ModelPackage.RefusedBeforePlaces` | `har/crates/har-model-package/src/lib.rs:574-611` | Each refusal before the places, exactly when it is given |
| `ModelPackage.PlacesRefuse` | `har/crates/har-model-package/src/lib.rs:612-636` | Which place the reader refuses and with which error |
| `ModelPackage.OnePlaceRefused` | `har/crates/har-model-package/src/lib.rs:612-636` | The same for one place: its range, its alignment and its digest |
| `ModelPackage.VerifiesExactlyGenuine` | `har/crates/har-model-package/src/lib.rs:574-641` | Verification accepts exactly the files whose ranges, checksums and places are all right, and says what they hold |
| `ModelPackage.VerifyPanicsIff` | `har/crates/har-model-package/src/lib.rs:612-641` | Verification panics exactly on files that are right up to their manifest's places and list, after places that hold, one whose end wraps past 2^64 |
| `ModelPackage.WrappedPlacePanics` | `har/crates/har-model-package/src/lib.rs:612-625` | Such a file: no payload, and a manifest that lists a place ending at 2^64 |
| `ModelPackage.WrittenVerifies` | `har/crates/har-model-package/src/lib.rs:416-641` | Whatever the writer writes, verification accepts, recovering the manifest on disk and both checksums |
| `ModelPackage.WrittenHoldsPayloads` | `har/crates/har-model-package/src/lib.rs:476-508` | Every payload stands whole at its location, aligned, behind the manifest, inside the file and apart from the others |
| `ElasticBudget.ElasticVramBudget.New` | `har/crates/har-memory/src/elastic_budget.rs:80-99` | Refuses invalid policies and sizes outside the window; a new budget is valid |
| `ElasticBudget.ElasticVramBudget.Request` | `har/crates/har-memory/src/elastic_budget.rs:133-157` | Queues the clamped target once, or does nothing for an equal one |
| `ElasticBudget.RequestIs` | `har/crates/har-memory/src/elastic_budget.rs:133-157` | The queued size is the one in the window nearest the requested one; a request is a no-op, refused as pending, a grow or a shrink in exactly these cases |
| `ElasticBudget.NearestIsUnique` | `har/crates/har-memory/src/elastic_budget.rs:134` | One size of the window is nearest |
| `ElasticBudget.ElasticVramBudget.SetPhase` | `har/crates/har-memory/src/elastic_budget.rs:105-107` | Changes the phase and nothing else |
| `ElasticBudget.ElasticVramBudget.CancelPending` | `har/crates/har-memory/src/elastic_budget.rs:111-113` | Drops the pending adjustment and nothing else |
| `ElasticBudget.ElasticVramBudget.WalkLadder` | `har/crates/har-memory/src/elastic_budget.rs:177-191` | The first rung that fits, or that none does |
| `ElasticBudget.ElasticVramBudget.CommitIdle` | `har/crates/har-memory/src/elastic_budget.rs:161-208` | Commits a shrink, or the first fitting rung of a grow, only while idle; the budget stays valid |
| `ElasticBudget.FirstRungIsLargest` | `har/crates/har-memory/src/elastic_budget.rs:177-191` | Every fitting rung is at most the committed one |
| `ElasticBudget.GrowTakesLargestSafe` | `har/crates/har-memory/src/elastic_budget.rs:161-208` | A commit of a grow takes the largest size reached by whole steps down from the target that leaves the headroom free, and fails exactly when there is none |
| `ElasticBudget.HeadroomIsPreserved` | `har/crates/har-memory/src/elastic_budget.rs:173-191` | A committed grow leaves the headroom unused |
| `ElasticBudget.RecordedRungs` | `har/crates/har-memory/src/elastic_budget.rs:177-191` | The recorded rung count is exact precisely when the target exceeds the current budget and the usable bytes by at most 2^32 - 1 steps |
| `ElasticBudget.RungsWrap` | `har/crates/har-memory/src/elastic_budget.rs:177-191` | A grow of 2^32 + 1 bytes in steps of one, with one byte free, goes down 2^32 rungs and records none |
| `ElasticBudget.CommitIsDetermined` | `har/crates/har-memory/src/elastic_budget.rs:161-208` | State and measurement determine a commit |
| `ElasticBudget.RunKeepsValid` | `har/crates/har-memory/src/elastic_budget.rs:133-208` | In every run the budget stays in its window, the epoch counts the log, the last entry is the current budget, and the log only grows |

## Left out

- Input and output: files, sysfs, environment, clocks and command lines; the package writer returns its bytes and the verifier takes them.
- `FilePageStore`: file-backed, and its locations reuse offset zero.
- The digest mixing and SHA-256: a function parameter with outputs of the right length; hexadecimal text of a digest is identified with the digest.
- JSON text: an abstract serializer with a left-inverse parser, so a manifest that does not survive its own JSON (a NaN loss) is outside the package theorems.
- ModelPackage.Write: sizes are assumed to fit in memory (the payloads, and each manifest with them placed from some offset on, are below 2^62 bytes; ModelPackage.PlainSerializerFits), so no cursor wraps.
- Counters: reference, lease and epoch counts, pool handle ids and pool statistics are unbounded naturals; 2^64 live retains are not modelled.
- FormatAllocator.AllocateFormats: byte totals are unbounded naturals (plans beyond 2^64 bytes are not modelled), losses and scores are real numbers instead of floating point, and bits a weight are scaled by ten thousand. Justification texts and the schema name are not part of the plan.
- FormatOffers.CollectOffers: the source sorts the offers and takes the first; the model takes the earliest least offer directly.
- PrefixGraph.PrefixGraph.RetainPrefix: says nothing of a walk that does not end, because the call then does not return; so a run has no step for it either.
- ContextFold: policy admission, telemetry and selection among representations; `last_access_epoch` is not stored, and a quality certificate is carried as an opaque value.
- Diagnostics and error texts: plain tags with the source's codes; only the allocator's risk texts are modelled, because `feasible` reads them.
- Text: the lexer works on bytes; Rust strings of the graph and the store are their UTF-8 bytes.
- `CodecError::SizeOverflow`: unreachable for vectors that fit in memory.
- The other semantic checks of the analyzers, lowering, bundle emitters, GGUF readers, sidecars, packed entries read from a source file, execution metrics, energy, metabolism and scheduling: independent checks, templates, plumbing or floating point.
