# Verification of the table generators, the shard planner and the wire formats

The HTTP client embeds tables that Python generators compute, splits its tests over compiles with a
greedy planner, and is compared with other implementations by scripts that speak and read wire formats.
This project models that code in Dafny and proves what it is relied on for. Where a generated table has
a reader in the library (`httpx/_proto/h2/huffman.mojo`, `httpx/_util/_unicode.mojo`), writer and reader
are proved against each other.

`dafny verify dfyconfig.toml` checks everything.

## What is modelled

**The HPACK Huffman compiler** (`Huffman*.dfy`, `StandardCode.dfy`). A table of 257 codes is checked, turned
into a tree of linked nodes in place, compiled by a worklist into a machine that reads four bits at a time,
and printed as fixed width hexadecimal. The encoder and the decoder read the printed tables. A code is seen as
a path in the tree (`Word`); a walk (`Run`) reads bit by bit, starts again at the root after a symbol, and fails
at EOS. The chain of results:

- counting: in a checked table without shared codes the subtree at every position is full, so every interior
  position has both children, there are 256 of them, and every string of thirty bits starts with exactly one
  codeword;
- refinement: the compiled machine, read from its text two nibbles a byte, does what the walk does, limit and
  failures included;
- inverse: the walk accepts exactly the codewords of a string followed by fewer than eight ones, so encoding and
  decoding are inverse to each other on both sides;
- the hypotheses are discharged for the table of appendix B of RFC 7541, ending in `StandardCode.EncodeThenDecode`,
  which supposes nothing.

**The shard planner** (`ListScheduling.dfy`, `ShardPlan.dfy`). Whole modules go, heaviest first, to the shard that
is lightest so far. Proved: Graham's bound of 4/3 - 1/(3m) against every assignment of whole modules, and that it is
attained; how many shards there are; conservation of the tests; that no module is split; that the plan does not
depend on the order the modules come in; that no shard is empty when every file has some bytes.

**The Unicode tables** (`Ranges.dfy`, `UnicodeTables.dfy`, `Decomposition.dfy`, `Literal.dfy`, `Utf8.dfy`). Merging of
neighbouring ranges, a pool of targets with deduplication, records of one width, and the readers that search them;
full decomposition in one pass against rewriting one character at a time.

**The suffix list** (`SuffixList.dfy`), **HPACK integers** (`HpackInteger.dfy`), **percent escapes**
(`PercentEscape.dfy`), **chunked framing** (`Chunked.dfy`), **the SOCKS5 proxy** (`Socks5.dfy`) and **the comparison of
recorded requests** (`Wire.dfy`, `Digests.dfy`, `Patterns.dfy`, `Text.dfy`): each a writer and a reader, or a procedure
and what it is to decide.

Code that works step by step is modelled by methods with loops and by classes with fields (`Node`, `Stream`,
`Socket`), proved against functions; the laws are lemmas about those functions.

## Where the code and its documentation part

- `validate` says it refuses any table that is not a complete prefix code. It never compares codes of one length,
  and Kraft's equality does not notice a repeated code either. `HuffmanCodec.SharedTablePasses` gives a table that
  passes every check and is neither complete nor decodable; `HuffmanPositions.CheckedIsCompleteIffDistinct` and
  `HuffmanCodec.RoundTripsIffDistinct` say that a table that passes is as promised exactly when its codewords are
  pairwise distinct. The table in the file is (`StandardCode.StandardIsPrefixCode`).
- `build_states` says its branch for a missing child is reachable through EOS. In a table that passes the checks the
  branch is taken on the way of some bits exactly when two symbols share a codeword
  (`HuffmanCodec.MissesNoChildIffDistinct`), as they do in the table of `SharedTablePasses`; so for the table in the file
  it is never taken, at EOS or elsewhere.
- The suffix list is printed without escaping. What is printed reads back exactly when no rule has a quote, a
  backslash or a control character in it (`SuffixList.LinesReadIffRulesStand`); `SuffixList.FailingRules` has a rule of
  each kind.
- `integer` writes every value, the library's reader stops at 0x7FFFFFFF: `HpackInteger.BoundedReadsBack` says that is
  exactly where they part. `integer` also takes a mask with a bit set where the value goes. Then it does not even give
  zero back: it writes what a decoder reads exactly when the mask leaves those bits clear
  (`HpackInteger.ReadsBackIffMask`).
- The comparison says that a digest without a client nonce is compared byte for byte. Its response is, but a count in
  it is masked all the same: `Wire.ResponseIsKept` gives the normal form exactly.

## Model

| member | source | states |
|---|---|---|
| `HuffmanCode.Validate` | tools/gen_huffman.py:117-152 | accepts exactly the tables with 257 codes of 5 to 30 bits that fit their length, fill the space and have no proper prefix among them; a refusal names a real fault |
| `HuffmanCode.CheckSizes` | tools/gen_huffman.py:122-128 | accepts exactly when every code is sized, and names the first that is not |
| `HuffmanCode.KraftTotal` | tools/gen_huffman.py:130-138 | the sum of the shares of all the codes |
| `HuffmanCode.FindPrefix` | tools/gen_huffman.py:140-152 | the dictionary search finds a proper prefix if and only if there is one |
| `HuffmanCode.PrefixByShift` | tools/gen_huffman.py:146-148 | shifting down and comparing numbers is the prefix relation on codewords |
| `HuffmanPositions.MassBound` | tools/gen_huffman.py:130-138 | Kraft's inequality in every subtree of a prefix free code with distinct codewords |
| `HuffmanPositions.PositionsAreFull` | tools/gen_huffman.py:130-142 | with equality at the root no space is left over below any position |
| `HuffmanPositions.InteriorIsBinary` | tools/gen_huffman.py:165-177 | every interior node of the tree has both children, and its leaves are those of its children |
| `HuffmanPositions.OneCodewordStarts` | tools/gen_huffman.py:117-118 | every string of thirty bits or more starts with exactly one codeword |
| `HuffmanPositions.CheckedIsCompleteIffDistinct` | tools/gen_huffman.py:117-152 | a table that passes the checks is a complete code if and only if no two symbols share a codeword |
| `HuffmanPositions.BinaryIffDistinct` | tools/gen_huffman.py:165-177 | in a table that passes the checks every interior node has both children if and only if no two symbols share a codeword |
| `HuffmanPositions.InteriorCount` | tools/gen_huffman.py:165-177 | below every position there is one interior node fewer than there are leaves |
| `HuffmanPositions.InteriorTotal` | tools/gen_huffman.py:180-195 | the tree has 256 interior nodes, which bounds the number of states |
| `HuffmanTree.BuildTree` | tools/gen_huffman.py:165-177 | linked in place: one node for every prefix of a codeword and no other, each linked to its children, a symbol at the end of every codeword and nowhere else |
| `HuffmanTree.Insert` | tools/gen_huffman.py:167-176 | one code more keeps the tree, its positions and its labels |
| `HuffmanTree.Descend` | tools/gen_huffman.py:169-175 | one step down adds at most the child, and changes no other node |
| `HuffmanTree.AddChild` | tools/gen_huffman.py:172-175 | a node without a child gets one, and nothing else of the tree changes |
| `HuffmanTree.SetSymbol` | tools/gen_huffman.py:176 | the last node of a codeword takes its symbol |
| `HuffmanMachine.WalkNibble` | tools/gen_huffman.py:201-228 | four steps through the linked nodes do what the walk does with the four bits: same end, same symbol, same failure |
| `HuffmanMachine.NumberOf` | tools/gen_huffman.py:229-233 | a node is numbered when it is first met, with the next number, and the numbering stays injective |
| `HuffmanMachine.BuildRow` | tools/gen_huffman.py:198-233 | sixteen entries, each the end of the walk from this node with that nibble, new states numbered as they are reached |
| `HuffmanMachine.BuildTable` | tools/gen_huffman.py:192-235 | the worklist ends with one row for every state found, the states in the order they are first reached |
| `HuffmanMachine.NumberedIsFinite` | tools/gen_huffman.py:196-235 | numbered states stand for different positions, so there are no more than nodes |
| `HuffmanMachine.Accepting` | tools/gen_huffman.py:249-272 | the states found by walking ones from the root are exactly those where a string may end |
| `HuffmanMachine.MarkTable` | tools/gen_huffman.py:237-246 | every entry that leads to such a state is marked, and no other |
| `HuffmanMachine.BuildStates` | tools/gen_huffman.py:180-246 | the machine of the code: distinct positions, the root first, the others in the order they are first reached, every entry in range and equal to the walk it stands for |
| `HuffmanMachine.EntryMeans` | tools/gen_huffman.py:180-246 | each entry for each end of its walk: failure, symbol and the mark of where a string may end, flag by flag |
| `HuffmanMachine.MachineIsUnique` | tools/gen_huffman.py:183-186 | there is one such machine, numbers and flags included |
| `HuffmanMachine.RunConcat` | tools/gen_huffman.py:201-228 | reading two strings of bits in turn is reading their concatenation |
| `HuffmanCodec.RunIsEncoding` | tools/gen_huffman.py:201-235 | whatever has been read is the codewords of what came out and the path the walk stands at |
| `HuffmanCodec.RunSpells` | tools/gen_huffman.py:201-235 | a walk has brought out s and stands at p if and only if its bits are the codewords of s and the path to p |
| `HuffmanCodec.RunEncoding` | tools/gen_huffman.py:201-235 | the codewords of a string bring out the string and end at the root |
| `HuffmanCodec.AcceptsExactlyEncodings` | tools/gen_huffman.py:249-272 | bits are accepted with output s if and only if they are the codewords of s and fewer than eight ones |
| `HuffmanCodec.AtMostOneSymbol` | tools/gen_huffman.py:188-190 | no nibble completes two symbols |
| `HuffmanCodec.FailsOnlyAtEos` | tools/gen_huffman.py:208-220 | a step fails exactly where the child is missing and at EOS, and in a prefix code no child is missing |
| `HuffmanCodec.FailsIffEos` | tools/gen_huffman.py:208-220 | in a prefix code a walk fails if and only if its bits hold the codeword of EOS after some other codewords |
| `HuffmanCodec.MissesNoChildIffDistinct` | tools/gen_huffman.py:208-213 | in a table that passes the checks no bits lead to a missing child if and only if no two symbols share a codeword |
| `HuffmanCodec.OnesArePadding` | tools/gen_huffman.py:258-261 | no codeword is on the first seven steps of the chain of ones, so the chain is never cut short |
| `HuffmanCodec.EncodingIsLong` | tools/gen_huffman.py:122-124 | five to thirty bits for every symbol |
| `HuffmanCodec.RoundTripsIffDistinct` | tools/gen_huffman.py:140-152 | a table that passes the checks round trips if and only if no two symbols share a codeword |
| `HuffmanCodec.SharedTablePasses` | tools/gen_huffman.py:117-152 | a table with a repeated code that passes every check, neither round trips nor is complete, and has a missing child on the way of some bits |
| `HuffmanTables.RenderCodes` | tools/gen_huffman.py:291 | the text of the codes is their records one after the other |
| `HuffmanTables.RenderStates` | tools/gen_huffman.py:292-296 | the text of the machine is the records of all entries, row by row |
| `HuffmanTables.CompiledFits` | tools/gen_huffman.py:278-296 | at most 256 states, no symbol is EOS, so two digits hold every field |
| `HuffmanTables.EntryRecordReads` | tools/gen_huffman.py:292-296 | the three fields of an entry read back from their fixed places |
| `HuffmanTables.CodeRecordReads` | tools/gen_huffman.py:291 | a code and its length read back from their fixed places |
| `HuffmanTables.RecordsAreUpper` | tools/gen_huffman.py:291-296 | the digits of both texts are capital |
| `HuffmanTables.StateRecordAt` | tools/gen_huffman.py:278-296 | the record of state s and nibble n is number 16 s + n |
| `Hex.Field` | tools/gen_idna.py:306-307 | digits of which the value is the number, at least as many as asked for |
| `Hex.FieldWidth` | tools/gen_idna.py:306-307 | a field keeps its width if and only if the value fits |
| `Hex.FieldIsCanonical` | tools/gen_idna.py:306-307 | digits of one case, with no zero before a number that is not padded |
| `Hex.At` | httpx/_proto/h2/huffman.mojo:45-50 | the value of the digits at a place of the text |
| `Hex.RecordAt` | tools/gen_idna.py:326-336 | the record at position n of a table starts at n times the width |
| `HuffmanString.Decode` | httpx/_proto/h2/huffman.mojo:99-151 | read from the text of the machine, the result is that of the walk: output, EOS, limit and padding alike |
| `HuffmanString.Turn` | httpx/_proto/h2/huffman.mojo:116-143 | one nibble stops where the walk stops or keeps state, output and acceptance in step with it |
| `HuffmanString.NibbleStep` | tools/gen_huffman.py:201-246 | one entry of the machine does what the tree does with its four bits, from any state |
| `HuffmanString.RecordsRead` | httpx/_proto/h2/huffman.mojo:116-117 | the entry of a state and a nibble is read back from the text of the machine |
| `HuffmanString.DecodesExactly` | httpx/_proto/h2/huffman.mojo:99-151 | the decoder gives s if and only if the bytes are an encoding of s and s is within the limit |
| `HuffmanString.ErrorsMean` | httpx/_proto/h2/huffman.mojo:116-149 | each error, exactly: too long when some first part of the bits spells more than the limit; else EOS when its codeword stands after others; else bad padding when what is left is no padding |
| `HuffmanString.EncodingIsUnique` | httpx/_proto/h2/huffman.mojo:74-77 | a string has one encoding in bytes |
| `HuffmanString.DecodingIsInjective` | httpx/_proto/h2/huffman.mojo:145-149 | two inputs accepted with the same output are the same |
| `HuffmanString.ExpansionBound` | httpx/_proto/h2/huffman.mojo:99-107 | five times the output is at most eight times the input |
| `HuffmanEncoder.Encode` | httpx/_proto/h2/huffman.mojo:71-96 | through a 64 bit accumulator, the codewords of the data and ones up to the next byte |
| `HuffmanEncoder.CodeAt` | httpx/_proto/h2/huffman.mojo:82-84 | the code and the length of a symbol, read from the text of the codes |
| `HuffmanEncoder.PushSymbol` | httpx/_proto/h2/huffman.mojo:81-91 | a codeword is appended to what is written or held, and fewer than eight bits stay held |
| `HuffmanEncoder.PushCode` | httpx/_proto/h2/huffman.mojo:85-88 | nothing that is still held is lost from the accumulator |
| `HuffmanEncoder.PadByte` | httpx/_proto/h2/huffman.mojo:93-95 | the last byte is the held bits and ones |
| `HuffmanEncoder.EncodedLength` | httpx/_proto/h2/huffman.mojo:57-68 | the number of bytes of any encoding of the data |
| `HuffmanEncoder.RoundTrip` | httpx/_proto/h2/huffman.mojo:71-151 | an encoding decodes to what was encoded, or is too long for the limit, and nothing else decodes to it |
| `StandardCode.StandardIsPrefixCode` | tools/gen_huffman.py:36-102 | the table meets all that is checked, shares no codeword, and EOS is thirty ones |
| `StandardCode.SymbolFinds` | tools/gen_huffman.py:36-102 | every symbol has its own place in the run of codes of its length |
| `StandardCode.SpaceIsFilled` | tools/gen_huffman.py:130-138 | the shares of the table add up to the whole space |
| `StandardCode.Generate` | tools/gen_huffman.py:350-361 | the generator accepts its own table, and what it prints are the tables of that code and of its machine |
| `StandardCode.EncodeThenDecode` | httpx/_proto/h2/huffman.mojo:71-151 | with the generated tables every string within the limit comes back, with no hypothesis left |
| `ListScheduling.LongestFirstBound` | tools/mojotest/run.py:152-159 | 3 m times any load is at most (4 m - 1) times the largest load of any assignment to m machines |
| `ListScheduling.HeavyJobsFit` | tools/mojotest/run.py:155-159 | a job heavier than a third of the best makespan never goes over it |
| `ListScheduling.HeavyPrefixFits` | tools/mojotest/run.py:155-159 | while all jobs are that heavy the greedy schedule is as good as any |
| `ListScheduling.LastJobBound` | tools/mojotest/run.py:156-158 | m times a load is at most the total and m - 1 times the last job placed there |
| `ListScheduling.BoundIsAttained` | tools/mojotest/run.py:152-159 | five jobs on two machines for which the bound is an equality |
| `ListScheduling.GreedyIsUnique` | tools/mojotest/run.py:155-158 | the weights determine where every job goes |
| `ListScheduling.EveryMachineIsUsed` | tools/mojotest/run.py:152-159 | with positive weights and enough jobs every machine gets one |
| `ListScheduling.LoadsAreTotal` | tools/mojotest/run.py:154-158 | the loads add up to the weights |
| `ShardPlan.Group` | tools/mojotest/run.py:145-150 | the tests of every module in their order, and its weight from its last file |
| `ShardPlan.SortModules` | tools/mojotest/run.py:155 | all the modules, heavier first and by name among equals |
| `ShardPlan.OrderIsUnique` | tools/mojotest/run.py:155 | there is one such order |
| `ShardPlan.IndexOfMin` | tools/mojotest/run.py:156 | the first shard of least load |
| `ShardPlan.PlanShards` | tools/mojotest/run.py:133-159 | the plan is greedy over that order, each shard holds what was placed on it, empty shards are dropped, and the shards together hold every module with all its tests, in their order |
| `ShardPlan.ShardsAreCounted` | tools/mojotest/run.py:152-153 | as many shards as were asked for, or as there are modules if those are fewer, and one where none was asked for or there is no test |
| `ShardPlan.LastFileCounts` | tools/mojotest/run.py:147-150 | a module weighs as much as the file of its last test |
| `ShardPlan.OrderMeans` | tools/mojotest/run.py:155 | of two modules the one planned first is not the lighter, and if they weigh the same its name comes first |
| `ShardPlan.ShardsAreInOrder` | tools/mojotest/run.py:155-158 | the tests of a shard stand in the order in which their modules are planned |
| `ShardPlan.PlanIsNearBest` | tools/mojotest/run.py:139-143 | where m is the number asked for, or that of the modules if there are fewer, there are m shards, and none weighs more than 4/3 - 1/(3m) of the heaviest shard of any plan of whole modules on m shards |
| `ShardPlan.ModulesAreConserved` | tools/mojotest/run.py:145-159 | the shards together hold every module with all its tests, in their order |
| `ShardPlan.TestsAreConserved` | tools/mojotest/run.py:145-159 | so they hold every test as often as it was given: no test is lost or run twice |
| `ShardPlan.ModulesStayWhole` | tools/mojotest/run.py:134-137 | all the tests of a module are on one shard, in their order |
| `ShardPlan.PlanIsDetermined` | tools/mojotest/run.py:141-143 | inputs that agree module by module get the same plan |
| `ShardPlan.NoShardIsEmpty` | tools/mojotest/run.py:152-159 | with no empty file no shard is dropped, so there are as many as were asked for, or as there are modules |
| `Ranges.MergeRanges` | tools/gen_idna.py:255-264 | rewriting the last row in place is the merge |
| `Ranges.MergeIsFaithful` | tools/gen_idna.py:255-264 | merging ordered rows keeps them ordered, keeps the value of every point, and leaves nothing to merge |
| `Ranges.MergeIsCanonical` | tools/gen_idna.py:255-270 | rows that give every point the same value merge into the same table |
| `Ranges.MaximalIsUnique` | tools/gen_idna.py:255-270 | there is one maximal table for given values |
| `Decomposition.FullDecomposition` | tools/gen_idna.py:288-303 | the recursion ends by rank and decomposes every part all the way |
| `Decomposition.OnePassIsEnough` | tools/gen_idna.py:288-296 | runs of single replacements that leave nothing to replace are exactly those that end in the one pass result, all after the same number of steps |
| `Decomposition.SomeRunEnds` | tools/gen_idna.py:288-296 | such a run exists, and its end has nothing left to decompose |
| `Decomposition.RewriteIsProgress` | tools/gen_idna.py:288-303 | one replacement anywhere keeps the end and is one step nearer to it |
| `UnicodeTables.IdnaMapping` | tools/gen_idna.py:144-186 | the merge of the lines in which mapped runs stay apart, and only mapped rows have a target |
| `UnicodeTables.LinesAreMeant` | tools/gen_idna.py:144-169 | the letter of each of the five statuses, and the target of a mapped line, at every point of a line |
| `UnicodeTables.OthersAreDisallowed` | httpx/_util/_unicode.mojo:96-106 | a point of no line is disallowed |
| `UnicodeTables.MappedRowsStay` | tools/gen_idna.py:170-186 | merging leaves every mapped row as it is |
| `UnicodeTables.RunsAreMerged` | tools/gen_idna.py:170-186 | adjacent rows of one kind are left only where they are mapped |
| `UnicodeTables.Intern` | tools/gen_idna.py:360-364 | a text is added to the pool once, and every text stays where it was |
| `UnicodeTables.MapOne` | tools/gen_idna.py:356-371 | the record of a row names the place and the length of its target |
| `UnicodeTables.MapRecords` | tools/gen_idna.py:353-371 | as the pool grows every record goes on naming its own target, and the pool holds each target once, where it first occurs |
| `UnicodeTables.PoolHasEachOnce` | tools/gen_idna.py:360-364 | the pool is the targets of the mapped rows, each once, and no other text |
| `UnicodeTables.Table` | tools/gen_idna.py:326-336 | a table is made if and only if every record has the width |
| `UnicodeTables.RecordReads` | tools/gen_idna.py:328-329 | the width of the whole forces every field to its own, so each reads back from its place |
| `UnicodeTables.RecordFits` | tools/gen_idna.py:306-307 | a record has its width if and only if both points, the offset and the length fit their fields |
| `UnicodeTables.BuildMap` | tools/gen_idna.py:349-371 | a table is printed if and only if every field of every row of the merge fits its place; then every row is at its place, and its target in the pool |
| `UnicodeTables.FindRange` | httpx/_util/_unicode.mojo:69-93 | binary search in the text agrees with a scan of the rows, found or not |
| `UnicodeTables.IdnaStatus` | httpx/_util/_unicode.mojo:96-106 | the status found is the one the source file gives the point, and disallowed where it gives none |
| `UnicodeTables.IdnaTarget` | httpx/_util/_unicode.mojo:109-122 | the bytes found are those of the target the source file gives the point |
| `Utf8.EncodeConcat` | tools/gen_idna.py:361-362 | the bytes of a pool are the bytes of its parts, so an offset in bytes stays right |
| `Utf8.EncodeIsInjective` | tools/gen_idna.py:339-346 | a slice of bytes is the target and no other text |
| `Utf8.CharIsWellFormed` | tools/gen_idna.py:360-364 | as many bytes as the ranges of RFC 3629 have: a lead that says how many, then bytes from 0x80 to 0xBF |
| `Utf8.FormIsShortest` | tools/gen_idna.py:360-364 | every other well formed sequence for the character is longer |
| `Utf8.Examples` | tools/gen_idna.py:360-364 | the bytes of U+00E4, U+20AC and U+1F600 |
| `Literal.MojoString` | tools/mojogen.py:16-44 | the literal of a text, which reads as exactly that text |
| `Literal.LiteralReads` | tools/mojogen.py:16-18 | reading undoes printing, for every text |
| `Literal.LettersAreRead` | tools/mojogen.py:27-44 | the five escapes that have a letter of their own, and what they are read as |
| `Literal.EscapeIsShortest` | tools/mojogen.py:27-44 | nothing shorter reads as the character |
| `Literal.EscapeMeans` | tools/mojogen.py:38-42 | exactly the control characters are written by number, and all others stand for themselves |
| `Literal.UnescapedEscaped` | tools/mojogen.py:27-44 | no escape runs into what follows it |
| `Literal.NoRawControl` | tools/mojogen.py:21-22 | a literal that reads holds no raw control character |
| `Literal.Lines` | tools/gen_idna.py:315-323 | the lines together read as the text, each as at most sixty characters of it, one empty line for no text |
| `SuffixList.MakeTokens` | tools/gen_psl.py:76-80 | the characters of the rules, with an escaped newline between any two rules |
| `SuffixList.Chunks` | tools/gen_psl.py:103-111 | lines of whole tokens, none over the limit, none ending where the next token would have fitted, all tokens in order |
| `SuffixList.Render` | tools/gen_psl.py:72-111 | so cut, the lines read as the rules if and only if no rule has a quote, a backslash or a control character |
| `SuffixList.LinesReadIffRulesStand` | tools/gen_psl.py:73-80 | the same of every way of cutting the tokens into lines |
| `SuffixList.FailingRules` | tools/gen_psl.py:73-80 | a rule with a quote, one with a backslash and one with a control character that do not read back |
| `SuffixList.TokensAreBlob` | tools/gen_psl.py:76-80 | the tokens of such rules read as the rules, one to a line |
| `SuffixList.BlobSplits` | tools/gen_psl.py:76-80 | split at the newlines, the text of the rules gives them back in order |
| `HpackInteger.Integer` | tools/fuzz/hpack_diff.py:90-101 | the encoding of section 5.1 of RFC 7541 under any mask, and the loop ends |
| `HpackInteger.EncodingReads` | tools/fuzz/hpack_diff.py:90-101 | the decoder of section 5.1 gives the value back and leaves exactly what follows |
| `HpackInteger.MaskIsKept` | tools/fuzz/hpack_diff.py:90-95 | the bits of the first byte above the prefix are those of the mask |
| `HpackInteger.Examples` | tools/fuzz/hpack_diff.py:90-101 | the three examples of section C.1 of RFC 7541 |
| `HpackInteger.ReadsBackIffMask` | tools/fuzz/hpack_diff.py:90-95 | every value reads back under a mask if and only if the mask leaves the bits of the prefix clear |
| `HpackInteger.EncodingsArePrefixFree` | tools/fuzz/hpack_diff.py:90-101 | no encoding is a prefix of another |
| `HpackInteger.EncodingIsShortest` | tools/fuzz/hpack_diff.py:94-100 | no other bytes that decode to the value are fewer |
| `HpackInteger.DecodeInteger` | httpx/_proto/h2/primitives.mojo:115-161 | succeeds exactly on values up to 0x7FFFFFFF in at most five octets after the prefix, with the value and the place after it; every error names the octet where the reader stops |
| `HpackInteger.DecodeOctets` | httpx/_proto/h2/primitives.mojo:140-161 | the same of the octets after a full prefix |
| `HpackInteger.BoundedReadsBack` | httpx/_proto/h2/primitives.mojo:149-157 | the bounded reader takes an encoding if and only if the value has 31 bits |
| `PercentEscape.PercentDecoded` | tools/gen_url_cases.py:170-181 | every escape becomes its character, and a percent sign that starts none stays |
| `PercentEscape.EscapeDecodes` | tools/gen_url_cases.py:170-181 | the escape of any byte, in letters of either case, decodes to it whatever follows |
| `PercentEscape.OthersStay` | tools/gen_url_cases.py:170-181 | any other character stays, and so does a percent sign without two digits |
| `PercentEscape.HasARewrittenEscape` | tools/gen_url_cases.py:184-193 | true if and only if normalizing would change or reject the text |
| `PercentEscape.UnreservedMeans` | tools/gen_url_cases.py:184-193 | the unreserved set of section 2.3 of RFC 3986 |
| `PercentEscape.RewrittenIffNotNormal` | tools/gen_url_cases.py:241-246 | a text is its own normal form if and only if none of its escapes would be rewritten |
| `PercentEscape.NormalIsStable` | tools/gen_url_cases.py:241-246 | normalizing twice is normalizing once, and does not change what the text decodes to |
| `PercentEscape.NormalMeans` | tools/gen_url_cases.py:184-193 | in a normal form every percent sign starts an escape, none has a small letter, and none is of an unreserved character |
| `Chunked.ReplyTail` | tools/parity/cases.py:45-53 | the body framed in chunks of four bytes |
| `Chunked.StreamBytes` | tests/server/server.py:322-333 | the payload framed in chunks of a kilobyte is appended to what was written |
| `Chunked.ReadBody` | tools/interop/origin.py:114-126 | the body, the bytes left on the stream, and an error exactly where a size is no number, with the signs, underscores and base marks that the conversion takes |
| `Chunked.ReadChunked` | tests/server/server.py:267-278 | the same of the reader that strips its lines |
| `Chunked.SkipTrailers` | tools/interop/origin.py:121-125 | trailers are read up to and with the line that ends them |
| `Chunked.ChunkReads` | tools/interop/origin.py:115-120 | one chunk is read by its size alone, whatever it holds and whatever follows |
| `Chunked.FramedReads` | tests/server/server.py:267-278 | for every body, every step and every continuation, both readers give the body and leave the continuation unread |
| `Chunked.FramedIsInGrammar` | tests/server/server.py:322-333 | a reader that demands every line break of section 7.1 of RFC 9112 reads what is framed as pieces that make up the body, all of the step but the last, and leaves the continuation |
| `Chunked.ChunkReadsStrictly` | tools/parity/cases.py:51-53 | the same of one chunk, whatever follows |
| `Chunked.SizeIsCanonical` | tools/parity/cases.py:51-52 | a size in small letters with no zero before it, and the line breaks where the grammar has them |
| `Chunked.TrailersAreSkipped` | tools/interop/origin.py:121-125 | both readers read past any trailers and no further |
| `Chunked.BareLineEnds` | tools/interop/origin.py:124 | a bare newline ends the trailers, and a line of space does so for the reader that strips its lines and for it only |
| `Chunked.ExtensionIsIgnored` | tools/interop/origin.py:116 | what follows a semicolon does not change the size |
| `Chunked.NumberReads` | tools/interop/origin.py:116 | signs, base marks and single underscores, after the mark too, are taken; an empty size, a doubled underscore and a size below zero are not |
| `Socks5.RecvExactly` | tests/server/socks5.py:56-71 | however the bytes are cut into segments, exactly as many are taken, or all of them when they are too few |
| `Socks5.AuthenticateClient` | tests/server/socks5.py:157-174 | verdict, reply and bytes left are those of the bytes alone |
| `Socks5.GreetClient` | tests/server/socks5.py:136-155 | the same of the choice of a method |
| `Socks5.ReadAddressFrom` | tests/server/socks5.py:187-202 | the same of an address of any of the three kinds |
| `Socks5.ReadRequestFrom` | tests/server/socks5.py:176-205 | the same of the request |
| `Socks5.ServeClient` | tests/server/socks5.py:108-134 | the same of the whole handshake: segmentation changes nothing |
| `Socks5.HandshakeOpensTunnel` | tests/server/socks5.py:108-134 | a client that follows RFC 1928 and RFC 1929 gets its tunnel, and what it sends after the request belongs to the tunnel |
| `Socks5.TunnelNeedsHandshake` | tests/server/socks5.py:108-134 | there is no tunnel without an offered method, a matching login where one is demanded, an allowed target and exactly one success reply |
| `Socks5.ForbiddenIsRefused` | tests/server/socks5.py:116-118 | after a good opening a request for a forbidden target is answered with code 2, for every client and every continuation, and there is no tunnel |
| `Socks5.UnreachedIsRefused` | tests/server/socks5.py:120-128 | one for a target that is not reached is answered with code 4 |
| `Socks5.BadRequestIsRefused` | tests/server/socks5.py:176-199 | another command is answered with code 7, another kind of address with code 8, another version not at all, and nothing more is read |
| `Socks5.NoMethodIsRefused` | tests/server/socks5.py:144-153 | a greeting without the method that is demanded is answered 05 FF |
| `Socks5.WrongLoginIsRefused` | tests/server/socks5.py:170-173 | any other credential is answered 01 01 after the choice of the method |
| `Socks5.RefusalsAreKnown` | tests/server/socks5.py:108-174 | whatever is received, where there is no tunnel what was sent is one of the known refusals, or stops before one |
| `Socks5.NoSuccessWithoutTunnel` | tests/server/socks5.py:108-130 | no client is told that it has a tunnel when it has none |
| `Socks5.ReplyLayout` | tests/server/socks5.py:207-223 | the bytes of a reply for the three kinds of bound address, as section 6 of RFC 1928 has them |
| `Socks5.MessagesAreWritten` | tests/server/socks5.py:136-205 | the bytes of greeting, login and request, with their counts and the high byte of the port first |
| `Socks5.PortMeans` | tests/server/socks5.py:201-205 | the port is 256 times the first byte and the second |
| `Socks5.GreetingWasSent` | tests/server/socks5.py:136-174 | a greeting that succeeds was sent in full, and was answered with the method chosen |
| `Socks5.RequestWasSent` | tests/server/socks5.py:176-205 | a request that is accepted is one of a well formed target, and is not answered yet |
| `Wire.Parse` | tools/parity/wire.py:87-100 | line, headers with trimmed and lowered names, and everything after the first empty line |
| `Wire.ParseReads` | tools/parity/wire.py:87-100 | a written request is taken apart as it was put together, whatever is in its body |
| `Wire.HeaderAsSent` | tools/parity/wire.py:91-99 | a header with its name in any case, and space where it may stand, gives the lowered name and the value |
| `Wire.ColonlessIsIgnored` | tools/parity/wire.py:92-93 | a line without a colon is no header, wherever it stands |
| `Wire.Normalize` | tools/parity/wire.py:103-129 | the normal form of the request: product, boundary and digest masked by the four patterns, and the boundary in the body |
| `Wire.NormalTouchesLittle` | tools/parity/wire.py:104 | nothing else is rewritten: line, names, their order, other values, length of the body |
| `Wire.ProductDoesNotMatter` | tools/parity/wire.py:108-109 | requests that differ in nothing but the values of user-agent headers have the same normal form |
| `Wire.MaskedValues` | tools/parity/wire.py:108-115 | what stands for a product, and for a boundary as many letters b |
| `Wire.NonceDoesNotMatter` | tools/parity/wire.py:116-123 | so do requests that differ in nothing but client nonce, count and response of one digest credential with a client nonce |
| `Wire.ResponseIsKept` | tools/parity/wire.py:116-123 | without a client nonce the response stays, and so does all but the count |
| `Digests.CredentialsAreMasked` | tools/parity/wire.py:43-45 | in credentials with these fields in any number and order, and other text between them, exactly the nonce, the count and, beside a nonce, the response are masked |
| `Digests.FieldsAreWritten` | tools/parity/wire.py:43-45 | how the three fields are written and which characters their values have |
| `Digests.ThreeAreMasked` | tools/parity/wire.py:116-123 | the text of credentials before and after, for every nonce, count and response |
| `Digests.MatchIsField` | tools/parity/wire.py:43-45 | only what is written as a field is taken for one |
| `Digests.NoCountInWord` | tools/parity/wire.py:44 | a count that ends a longer word is not one |
| `Wire.BoundaryDoesNotMatter` | tools/parity/wire.py:111-127 | multipart requests that differ in nothing but boundaries of one length have the same normal form |
| `Patterns.FirstBoundary` | tools/parity/wire.py:42 | what is found is not empty and made of the characters of a boundary |
| `Patterns.BoundaryChars` | tools/parity/wire.py:42 | the characters that a boundary has |
| `Patterns.BoundaryAfter` | tools/parity/wire.py:111-115 | a boundary after a text in which none begins is found whole, and it alone is replaced |
| `Text.ReplaceIsGlue` | tools/parity/wire.py:125-127 | replacing a boundary is putting the mask between the pieces that the boundary separates |
| `Text.PartitionMeans` | tools/parity/wire.py:88-94 | a text is parted at its first mark, and not at all where it has none |
| `Text.StripPads` | tools/parity/wire.py:99 | the space at both ends is taken off and nothing else |
| `Text.SpaceMeans` | tools/parity/wire.py:99 | the six characters that are taken off |
| `Text.LowerMeans` | tools/parity/wire.py:99 | capital letters are lowered and nothing else |
| `Wire.Compare` | tools/parity/wire.py:132-174 | every aspect in which the two normalized requests differ is reported once with both sides, and no other |
| `Wire.CompareNormal` | tools/parity/wire.py:138-174 | the same of two requests |
| `Wire.DifferMeans` | tools/parity/wire.py:138-172 | which aspects differ, and what is reported of each |
| `Wire.OrderMeans` | tools/parity/wire.py:165-169 | requests that send the same names differ in order if and only if the sequences of their names do |
| `Wire.OneSidedIsNoOrder` | tools/parity/wire.py:161-164 | a header that only one side sends is reported as such and never as a difference in order |
| `Wire.SilentIffSame` | tools/parity/wire.py:132-133 | nothing is reported if and only if the normalized requests are equal, with all headers in order |
| `Wire.OnlyOrderMeansPermuted` | tools/parity/wire.py:161-169 | order is all that is reported if and only if the requests agree but for it, and then the lists are permutations that keep each name's values in order |
| `Wire.ListFromValues` | tools/parity/wire.py:143-169 | the order of the names and the values of each name are the whole list |
| `Text.Sorted` | tools/parity/wire.py:143 | the members of a set, ascending |
| `Text.LessMeans` | tools/parity/wire.py:143 | ascending is by the first character that differs, a prefix first |

## Left out

- Files, digests, command lines, subprocesses, formatting and the headers of generated files: tables, rows, rules and sizes are inputs.
- The Unicode and suffix list data: rows are supposed ordered and disjoint, decompositions acyclic. Only the Huffman table is there in full.
- The tables of combining classes, marks, bidirectional classes, joining types, decompositions and compositions: they are built and read by the mechanism that is modelled for the mapping. `ranges_of` is the merge of rows of one point each.
- The cutting of the two Huffman texts into lines of sixty digits, which have nothing to escape.
- The built-in sort: insertion stands for it, and the order it ends in is proved unique.
- Error messages. A raised error is a value of a result type.
- Sockets, threads, selection, encryption and time: a connection is a sequence of segments none of which is empty, whether a target is forbidden or reached is a function of the target, and splicing after the handshake is not modelled.
- The names and the text form of SOCKS addresses: an address is its bytes, and an empty name is no host, as in the code.
- How a difference between requests is printed: values joined, or a note that none was sent.
- Setting bits with a bitwise or is modelled as addition in the Huffman encoder and in the flags of a state, where the bits are clear.
- HpackInteger.Integer: prefixes have one to eight bits, as section 5.1 of RFC 7541 has them; `integer` does not look at that.
- Socks5.RecvExactly: an error in receiving lasts; one after which more bytes arrive is not modelled.
- Overflow of the library's 64 bit integers, except in the encoder's accumulator, where it is modelled: the other values stay far below it.
- What the library documents outside these files: pools, cookies, the URL parser, the HTTP/2 driver.
