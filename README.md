# flashtext keyword processor, modelled in Dafny

This project models the core of the Go `flashtext` package: an Aho-Corasick keyword
processor. Keywords are added to a trie over Unicode code points (folded to lower case
unless the processor is case sensitive). `Build` then sets every node's failure link
and merges the keyword lengths it reports. `ExtractKeywords` scans a text and returns
every occurrence of every keyword, overlapping ones included. Each occurrence is
returned as a `Match`: a byte span and the bytes in it.

Modules, in dependency order:

- `Utf8` (utf8.dfy): the decoding that Go's `[]rune(s)` performs. Each ill-formed
  byte becomes U+FFFD and the decoder moves on one byte. The module also has
  `utf8.RuneLen`, the encoding, and the byte offset of the i-th decoded code point.
- `Trie` (trie.dfy): the `Node` and `Match` records of trie.go.
  - Go's `*Node` pointers become indices into an arena `seq<Node>`, with the root at
    index 0.
  - A missing `failure` pointer becomes `None`.
- `AhoCorasick` (automaton.dfy): the meaning of the arena.
  - The ghost `words[n]` is the string of code points spelled by the path to node `n`.
  - `TrieValid` is the invariant the arena keeps at all times.
  - `Linked` is what `Build` establishes: each failure link goes to the node of the
    longest proper suffix in the trie. Each `exist` holds, once each, the lengths of
    the keywords that end that node's word.
  - The module also defines the failure-chain search and what reporting `exist`
    means.
- `BreadthFirst` (bfs.dfy), `Insertion` (insert.dfy) and `Linking` (linking.dfy): the
  invariants of Build's queue, of keyword insertion, and of linking one node at a time.
- `Scanning` (scan.dfy): the scan's invariants. `Occurrences` is the reference
  definition of what a scan must find.
- `Extraction` (extract.dfy): the table from code-point positions to byte offsets,
  and the match built for each reported span.
- `Flashtext` (keywordprocessor.dfy): the class `KeywordProcessor` with the package's
  operations as methods.
- `Examples` (examples.dfy): the package's own test cases, as occurrence sets.
  - The sentences covered are those of the Chinese test, the case-insensitive and
    case-sensitive apple tests, every row of the edge-case table, and "hello world
    hello".
  - For the Chinese test the module also gives the byte span [12,21) of the match.
  - The hershey case is also run end to end through the processor's methods.

The arena is the class field `nodes: seq<Node>`, which the methods update the way the
Go code updates the nodes it points to. Two ghost fields give the arena its meaning:

- `words` holds each node's path word;
- `keywords` holds the set of folded keywords inserted so far.

The callback of `walk` is a pure function `wf` from a span to a boolean.

Two consequences of the code are worth stating:

- `Build` may run any number of times, also after more keywords are inserted. The
  set-based de-duplication at keywordprocessor.go:93-102 keeps every `exist` free of
  repeats, so the contract of `Build` only requires a well-formed trie.
- On "hershey", with the keywords "he", "she" and "hers", the code reports the
  code-point spans [0,2), [0,4), [3,6) and [4,6) (`Examples.Hershey`).

## Model

| member | source | states |
|---|---|---|
| Utf8.RuneLen | keywordprocessor.go:160 | `utf8.RuneLen`: 1 to 4 for a scalar value, -1 otherwise, and 1 exactly for ASCII |
| Utf8.Decode | keywordprocessor.go:151 | `[]rune(s)`: never more code points than bytes, empty exactly for empty text, every result a scalar value (ill-formed bytes become U+FFFD) |
| Utf8.DecodeEncode | keywordprocessor.go:151 | decoding the UTF-8 encoding of any scalar sequence gives it back, and that encoding is well formed |
| Utf8.EncodeDecode | keywordprocessor.go:151 | a well-formed text is the encoding of its decoded code points |
| Utf8.EncodeLength | keywordprocessor.go:158-161 | the encoding of a code-point sequence is as long as the sum of their RuneLen |
| Utf8.OffsetEnd | keywordprocessor.go:158-161 | the byte offset after the last decoded code point is the length of the text |
| Utf8.OffsetStep | keywordprocessor.go:158-161 | each offset is inside the text, and the next one is this one plus the width the decoder consumed there |
| Utf8.OffsetMonotone | keywordprocessor.go:163-164 | byte offsets strictly increase with the code-point position |
| Utf8.DecodeSlice | keywordprocessor.go:168 | the bytes between the offsets of positions s and e decode to exactly code points s..e of the text |
| Utf8.OffsetWidth | keywordprocessor.go:158-161 | on well-formed text the decoder's offsets equal the RuneLen prefix sums |
| Trie.NewNode | trie.go:16-21 | a fresh node has no transitions, no keyword lengths and no failure link |
| Trie.Match.MatchString | trie.go:29-31 | returns the matched bytes |
| Trie.Match.Start | trie.go:33-35 | returns the start byte offset |
| Trie.Match.End | trie.go:37-39 | returns the end byte offset |
| AhoCorasick.FoldSlice | keywordprocessor.go:57-59 | folding code point by code point commutes with slicing |
| AhoCorasick.NoDupCard | keywordprocessor.go:93-97 | a list has fewer distinct lengths than entries exactly when it repeats one (the test at line 97) |
| AhoCorasick.LongestSuffixLenIs | keywordprocessor.go:82-90 | the longest suffix in the trie is the one that is in it with no longer one in it |
| AhoCorasick.SuffixLensSplit | keywordprocessor.go:92 | the keywords ending a word are the word itself (if a keyword) plus those ending its failure target's word |
| AhoCorasick.RootExist | keywordprocessor.go:50-53 | no keyword ends at the root: its `exist` stays empty |
| AhoCorasick.ChainFound | keywordprocessor.go:88-89 | when the failure chain reaches a node with a transition on the code point, that transition gives the longest suffix in the trie |
| AhoCorasick.ChainRoot | keywordprocessor.go:87 | when the chain ends at the root without a transition, the longest suffix in the trie is empty |
| AhoCorasick.ChainStep | keywordprocessor.go:84-86 | following one failure link keeps the search invariant and goes to a strictly shallower node (so the chain terminates) |
| AhoCorasick.ChainStartBuild | keywordprocessor.go:82 | starting the search at the parent's failure target satisfies the search invariant |
| AhoCorasick.ReportedLens | keywordprocessor.go:139-143 | at the node of the longest suffix of the folded text read so far, the reported lengths are exactly the keyword suffixes of that text |
| AhoCorasick.ReportedSound | keywordprocessor.go:139-140 | every reported length at a suffix node is a keyword ending the text |
| AhoCorasick.ReportedComplete | keywordprocessor.go:139-140 | every keyword ending the text is among the lengths at the node of its longest suffix in the trie |
| BreadthFirst.WaitingInit | keywordprocessor.go:73-74 | the queue holding only the root is a valid start of the traversal |
| BreadthFirst.Pop | keywordprocessor.go:76-78 | taking the head off the queue keeps the queue level-ordered, and none of the head's children has been visited yet |
| BreadthFirst.Visit | keywordprocessor.go:80-81 | appending a child to the queue keeps it level-ordered and duplicate-free |
| BreadthFirst.Finish | keywordprocessor.go:80-103 | once all children of the current node are visited, the queue invariant holds again |
| BreadthFirst.AllDone | keywordprocessor.go:76 | a visited set holding the root and closed under children holds every node: the traversal reaches all nodes |
| BreadthFirst.Fewer | keywordprocessor.go:76 | visiting a node shrinks the set of unvisited nodes, so the traversal ends |
| Insertion.WithChildValid | keywordprocessor.go:60-62 | adding a fresh node for a missing transition keeps the trie valid and changes no existing transition or failure link |
| Insertion.WithLengthValid | keywordprocessor.go:66 | recording a keyword's length at the end of its path keeps the trie valid with the keyword added |
| Insertion.OnPathGrow | keywordprocessor.go:60-62 | adding the missing transition keeps the insertion invariant and makes the transition exist |
| Insertion.OnPathDescend | keywordprocessor.go:63 | following the transition advances the insertion by one code point |
| Insertion.OnPathEnd | keywordprocessor.go:66 | at the end of the path, recording the length gives a valid trie holding the new keyword, extending the old one |
| Insertion.KeywordEnd | keywordprocessor.go:56-66 | every inserted keyword is a path of the trie whose end records the keyword's length |
| Linking.ChildFailure | keywordprocessor.go:82-90 | the failure target chosen for a child (a transition found on the chain, or the root) is the node of the child word's longest proper suffix in the trie |
| Linking.ChildExist | keywordprocessor.go:92 | the child's own lengths plus its failure target's merged lengths are exactly the keywords ending the child's word |
| Linking.ChildDepth | keywordprocessor.go:88-89 | a failure target is never deeper than the child's parent, so it was linked earlier in the traversal |
| Linking.SiblingsApart | keywordprocessor.go:80 | distinct transitions out of a node lead to distinct children |
| Linking.ProgressVisit | keywordprocessor.go:87-102 | linking one more child keeps the invariant that every visited node is linked |
| Linking.ProgressDone | keywordprocessor.go:76-104 | once every node is visited, the whole automaton is linked |
| Scanning.ExistOf | keywordprocessor.go:139 | after Build, each node's `exist` lists, once each, the lengths of the keywords ending its word |
| Scanning.FailureOf | keywordprocessor.go:87-90 | after Build, each non-root node's failure link is the node of its longest proper suffix in the trie |
| Scanning.RootChildFailure | keywordprocessor.go:87 | after Build, every child of the root fails to the root |
| Scanning.FailureShallower | keywordprocessor.go:131-133 | after Build, a failure link goes to a strictly shorter suffix of the node's word |
| Scanning.ExistSplit | keywordprocessor.go:92 | after Build, a node's lengths are its own keyword's length plus its failure target's lengths |
| Scanning.Advance | keywordprocessor.go:131-137 | one scan step (fall back, then take the transition if any) lands on the node of the longest suffix, in the trie, of the folded text read so far |
| Scanning.WalkFall | keywordprocessor.go:131-133 | falling back from a node without the transition keeps the search invariant and moves strictly closer to the root |
| Scanning.ReportedAt | keywordprocessor.go:139 | at the scan's current node, `exist` lists, once each, exactly the lengths of the keywords ending at this text position |
| Scanning.SuffixFold | keywordprocessor.go:128-130 | a suffix of the folded prefix is the folding of the corresponding slice of the text |
| Scanning.ReportAll | keywordprocessor.go:139-143 | reporting every listed length at position i+1 extends a complete, ordered report up to i to one up to i+1 |
| Scanning.ReportPrefix | keywordprocessor.go:139-142 | reporting only some of the lengths (the callback stopped) still gives sound, ordered pairs |
| Scanning.WalkEnd | keywordprocessor.go:127-145 | a scan that reached the end with every callback returning true has reported every occurrence |
| Scanning.DistinctCard | keywordprocessor.go:162-171 | a report without repeats has as many pairs as distinct pairs |
| Scanning.SpansCount | keywordprocessor.go:162-171 | a sound, repeat-free and complete report has exactly as many pairs as the text has occurrences |
| Extraction.ByteOffsetsAsWritten | keywordprocessor.go:158-161 | the offsets table as written: entry k is the sum of RuneLen over the first k code points |
| Extraction.OffsetsOverrun | keywordprocessor.go:158-168 | on bytes FF 61 62 63 with keyword "abc", the occurrence (1,4) gets byte offsets 3 and 6 in the table as written, past the end of the 4-byte text, while the decoder's offsets are 1 and 4 |
| Extraction.ByteOffsets | keywordprocessor.go:158-161 | entry k of the table is the byte offset where the decoder started code point k |
| Extraction.MatchAt | keywordprocessor.go:163-169 | the match of code-point span [s,e) lies within the text, holds the bytes between its offsets, and those bytes decode to code points s..e; it is non-empty when the span is |
| Extraction.Collect | keywordprocessor.go:162-171 | the matches are, in order, the matches of the reported spans |
| Extraction.Extracted | keywordprocessor.go:162-173 | the matches of a complete report are folded keywords sliced out of the text, cover every occurrence, come in order of end byte with no repeats, and number as many as the occurrences |
| Extraction.SpansOrdered | keywordprocessor.go:163-164 | distinct spans ordered by end give distinct matches ordered by end byte |
| Flashtext.Dedup | keywordprocessor.go:93-102 | the result has the same lengths without repeats, and a list without repeats is left as it is |
| Flashtext.Report | keywordprocessor.go:139-143 | the pairs (e-l, e) for the listed lengths are handed to the callback in order, stopping at the first false |
| Flashtext.KeywordProcessor.constructor | keywordprocessor.go:37-48 | a processor with the requested case sensitivity and a trie of only the root, with no keywords |
| Flashtext.KeywordProcessor.Path | keywordprocessor.go:55-64 | follows the folded code points from the root, adding missing transitions; ends on the node of the folded keyword, extending the old trie |
| Flashtext.KeywordProcessor.SetItem | keywordprocessor.go:50-67 | the empty keyword changes nothing. Otherwise the folded keyword joins the set and the trie stays valid with no existing transition or link changed. The keyword's length is appended to the `exist` of the node whose word is the keyword, and no other node's `exist` changes. Every new node lies on the keyword's path with an empty `exist` |
| Flashtext.KeywordProcessor.Insert | keywordprocessor.go:55-66 | the same as SetItem, for a non-empty keyword given as code points |
| Insertion.PathFrameGrow | keywordprocessor.go:60-62 | adding a missing transition on the keyword's path leaves every old `exist` as it was; the new node lies on the path and has an empty `exist` |
| Insertion.InsertedEnd | keywordprocessor.go:66 | appending the length at the end of the path changes that node's `exist` alone, by exactly the keyword's length |
| Insertion.InsertDone | keywordprocessor.go:55-66 | the completed insertion gives a valid trie holding the new keyword, extends the old one, and changes the `exist` lists exactly as InsertedEnd states |
| Insertion.InsertedGrown | keywordprocessor.go:66 | one insertion is a growth by that one keyword: old lists are only appended to, each appended length is its node's word length, and that word is the keyword |
| Insertion.GrownTrans | keywordprocessor.go:117-119 | two growths in a row are one growth by the union of their keywords |
| Flashtext.KeywordProcessor.FailureTarget | keywordprocessor.go:82-90 | the failure target found for a child is the node of its longest proper suffix in the trie |
| Flashtext.KeywordProcessor.LinkChild | keywordprocessor.go:81-102 | links one child (failure link, merged and de-duplicated `exist`) and changes no other node |
| Flashtext.KeywordProcessor.LinkChildren | keywordprocessor.go:80-103 | links every child of the current node and queues them, keeping the queue and linking invariants |
| Flashtext.KeywordProcessor.Build | keywordprocessor.go:71-105 | from any valid trie (even one already built) gives the linked automaton with the same transitions, words and keywords |
| Flashtext.KeywordProcessor.Next | keywordprocessor.go:131-137 | from the node of the longest suffix of the text read so far, one code point leads to the node of the longest suffix of the extended text |
| Flashtext.KeywordProcessor.Step | keywordprocessor.go:127-144 | one position of the scan keeps the automaton on the longest suffix; it extends the complete report by the occurrences ending there, or stops as the callback asked |
| Flashtext.KeywordProcessor.Walk | keywordprocessor.go:124-145 | every reported pair is an occurrence, with no repeats and ordered by end; the callback accepted all but the last; if it accepted every pair, every occurrence was reported |
| Flashtext.KeywordProcessor.ExtractKeywords | keywordprocessor.go:149-174 | no matches for empty text; each match is a byte slice of the text whose code points fold to a keyword; every occurrence has its match; ordered by end, with no repeats; as many matches as occurrences |
| Flashtext.KeywordProcessor.ExtractKeywordsFromBytes | keywordprocessor.go:178-181 | the same as ExtractKeywords on the same bytes |
| Flashtext.KeywordProcessor.AddKeyWord | keywordprocessor.go:109-112 | returns the processor itself and states all of SetItem's contract: the empty keyword changes nothing, and otherwise the length is appended at the keyword's node alone |
| Flashtext.KeywordProcessor.AddKeywordsFromList | keywordprocessor.go:116-121 | returns the processor itself and adds the folded non-empty keywords of the list to the set. A list of empty keywords changes nothing. Old `exist` lists are only appended to. Each appended length is its node's word length, and that word is one of the added keywords. Every new node lies on the path of an added keyword. Each node's `exist` grows by exactly one entry per list entry whose folded keyword is the node's word, so re-adding a keyword appends again (`Counted`) |
| Flashtext.KeywordProcessor.LoadNext | keywordprocessor.go:117-119 | one turn of the loop: the loop invariant `Loading` for the first i list entries (keyword set, growth, per-node entry count) becomes the one for the first i+1 |
| Flashtext.LoadStep | keywordprocessor.go:117-119 | a `setItem` of entry i, taken after the first i entries, turns `Loading` for i into `Loading` for i+1 |
| Flashtext.GrowStep | keywordprocessor.go:117-119 | `Grew` for the first i entries followed by the growth of inserting entry i is `Grew` for the first i+1: the keyword set gains entry i's keyword, growth composes, and an all-empty prefix still leaves the trie as it was |
| Flashtext.CountValidStep | keywordprocessor.go:117-119 | between two valid tries, the earlier holding the keywords of the first i entries, inserting entry i carries `Counted` from i entries to i+1 |
| Flashtext.LoadInit | keywordprocessor.go:116-117 | before the loop, `Loading` holds for no entries with the trie unchanged |
| Flashtext.HitsAdded | keywordprocessor.go:117-119 | a word is hit by some list entry exactly when it is among the keywords the list adds |
| Flashtext.HitsSnoc | keywordprocessor.go:117-119 | entry i hits a word once more exactly when it adds that word |
| Flashtext.NewNodesUnhit | keywordprocessor.go:60-62 | no entry inserted so far hits the word of a node the next insertion creates |
| Flashtext.CountStep | keywordprocessor.go:66 | inserting entry i adds one `exist` entry at its node and none elsewhere, so every node's entry count is its old count plus its hits among the first i+1 entries |
| Insertion.NewWordUnseen | keywordprocessor.go:60-62 | a node created by an insertion spells a word that was not a keyword before |
| Insertion.WordsApartOfValid | keywordprocessor.go:60-63 | in a valid trie no two nodes spell the same word |
| Examples.Hershey | keywordprocessor_test.go:138 | "he", "she" and "hers" occur in "hershey" exactly at [0,2), [0,4), [3,6) and [4,6): four matches |
| Examples.HersheyMatches | keywordprocessor_test.go:138-146 | a case-insensitive processor loaded with "he", "she" and "hers", built and run on "hershey", returns four matches |
| Examples.AppleAnyCase | keywordprocessor_test.go:79-89 | case-insensitive "apple" occurs once, at [10,15), in "I have an " followed by any spelling of "apple" ("apple", "Apple", "APPLE" and "aPpLe" among them) |
| Examples.AppleMixedCase | keywordprocessor_test.go:89 | case-insensitive "apple" occurs once in "I have an aPpLe" |
| Examples.NoFruit | keywordprocessor_test.go:90 | case-insensitive "apple" does not occur in "no fruit here" |
| Examples.AppleExactCase | keywordprocessor_test.go:104-113 | case-sensitive "Apple" occurs once in "I have an Apple" and not at all in "I have an apple" or "I have an APPLE" |
| Examples.NoCapitalA | keywordprocessor_test.go:112-113 | case-sensitive "Apple" does not occur in a text where every capital A is followed by a capital P, as in "I have an apple" and "I have an APPLE" |
| Examples.Hello | keywordprocessor_test.go:136-137 | "hello" occurs once in "hello" and never in "world" |
| Examples.Repeated | keywordprocessor_test.go:139 | "a" occurs twice in "a b c a" |
| Examples.EmptyKeyword | keywordprocessor_test.go:135 | the empty keyword adds nothing, so it is never found |
| Examples.Chinese | keywordprocessor_test.go:55-69 | 毛泽东 occurs in "ahisHershare毛泽东dsadsa" exactly once, at code points [12,15) |
| Examples.ChineseBytes | keywordprocessor_test.go:71-74 | in the UTF-8 sentence the match for code points [12,15) starts at byte 12, ends at byte 21, and its bytes decode to 毛泽东 |
| Examples.MatchSpan | keywordprocessor.go:158-168 | in the encoding of a + k + c, the match for the code points of k spans the encoded widths of a and k and decodes to k |
| Examples.HelloWorld | keywordprocessor_test.go:155-164 | "hello" and "world" occur in "hello world hello" exactly at [0,5), [6,11) and [12,17): three matches |
| Examples.NothingToFind | keywordprocessor_test.go:133-134 | a keyword never occurs in the empty text, and an empty list adds no keyword, so nothing occurs in "test text" |

## Left out

- stats.go is not part of this model. The processor's `stats` module, `density` and
  the capacity estimate (keywordprocessor.go:22, 24, 42, 155-157, 172) only size an
  allocation and gather statistics in a goroutine, so matching does not depend on them.
- `Close` and the `cancel` context (keywordprocessor.go:20, 38, 183-187) stop that
  goroutine; they are concurrency and are left out.
- Options are reduced to a boolean. `WithCaseSensitive` (keywordprocessor.go:29-33)
  becomes the constructor's `caseSensitive` argument.
- `unicode.ToLower` is modelled on ASCII letters only (`AhoCorasick.ToLower`). Unicode's
  case tables are not part of this model, so non-ASCII code points are never folded.
- Go's map iteration order, both over children in `Build` and over the set in the
  de-duplication, is modelled as an arbitrary choice. The contracts hold for every
  order.
- Flashtext.KeywordProcessor.Walk: the callback is a pure function of the span. A
  callback with side effects, such as the one ExtractKeywords passes, is modelled by
  collecting the reported spans first and building the matches afterwards (`Collect`).
- Flashtext.KeywordProcessor.Walk and ExtractKeywords require `Built()`. The source asks
  that `Build` be called after the keywords are added and before matching
  (keywordprocessor.go:70). Scanning an unbuilt trie (nil failure links) is not modelled.
- Flashtext.KeywordProcessor.ExtractKeywords returns `[]` for empty text where Go
  returns `nil`. Both have length zero.
- Go's `int` is 64 bits wide; the model's integers are unbounded. Offsets and lengths
  never exceed the length of the text, so no wrap-around can occur.
- Strings are byte sequences. `string(sentence)` in ExtractKeywordsFromBytes is the
  identity on bytes.

## Findings

| source | as written | input that shows it | evidently intended | confidence | as-written member | corrected member |
|---|---|---|---|---|---|---|
| keywordprocessor.go:158-168 | the byte offsets table adds `utf8.RuneLen(r)` per decoded code point. An ill-formed byte decodes to U+FFFD after consuming 1 byte, but RuneLen(U+FFFD) is 3 | text bytes FF 61 62 63 with keyword "abc": the occurrence at code points [1,4) gets byte offsets 3 and 6 in a 4-byte text, so the slice at line 168 is out of range | each offset is where the decoder started that code point, i.e. the bytes it consumed | not executed | Extraction.ByteOffsetsAsWritten (counterexample: Extraction.OffsetsOverrun) | Extraction.ByteOffsets (used by Flashtext.KeywordProcessor.ExtractKeywords; it agrees with the table as written on well-formed text, by Utf8.OffsetWidth) |
