# Huffman coder, modelled in Dafny

This project models the static Huffman coder in `src/main.rs`. The coder
counts how often each character occurs in a text and builds a Huffman tree
by repeatedly merging the two lightest nodes of a priority queue. It derives
a code table by walking the tree, writes the text as a string of `'0'` and
`'1'` characters, and decodes such a string by walking the tree again.

The modules follow the program's functions:

| module | file | source |
|---|---|---|
| `HuffmanTree` | tree.dfy | the `Node` struct and the facts shared about trees |
| `FrequencyCounter` | frequency.dfy | `calculate_frecuency` |
| `TreeBuilder` | builder.dfy | `build_huffman_tree`, with the `BinaryHeap` as a sequence |
| `CodeTable` | codes.dfy | `_encode` |
| `Decoder` | decoder.dfy | `_decode` and `decode` |
| `Encoder` | encoder.dfy | `encode`, the round trip and the two findings |

The model makes these choices:

- `Node` has two shapes, `Leaf(ch, freq)` and `Internal(freq, left, right)`.
  These are the only shapes the program builds.
- The two reachable `unwrap` panics (src/main.rs lines 98 and 129) become
  a `Result`. The errors are `EmptyText`,
  from `peek()` on an empty heap, and `Truncated`, from reading a bit past
  the end.
- `Node`'s `PartialOrd` reverses the frequency order, so `BinaryHeap::pop`
  returns a node of least frequency.
  - `PopMin` may return any of several equally light nodes.
  - `LoadLeaves` may load the map's entries in any order.
  - Every result is therefore proved for every tie-break.
- `_encode` threads a mutable map through a depth-first walk. The map starts
  empty and only receives inserts, so it is modelled as a function that
  returns the union of the two subtrees' tables, the right one winning.
- `_decode` prints the character it reaches. Here it returns that character,
  and `decode` returns the printed characters in order.
- The loop of `decode` compares the position with the UTF-8 byte length of
  the input (`str::len`). `_decode` indexes characters. `Utf8Len` models
  that difference. For strings of `'0'` and `'1'` the two lengths agree.

Where the code and the program's evident intent disagree, the model
follows the code. Each such disagreement is listed under "Findings"
or "Left out":

- The code gives "1" to every leaf whose path is shorter than two, not only
  to a single-leaf root.
- A single-leaf tree never advances the decoder.
- Failures are panics, not typed errors.

## Model

| member | source | states |
|---|---|---|
| `HuffmanTree.LeafCharsOfLeaves` | src/main.rs:3-9 | the characters on the leaves are exactly the first components of the (character, frequency) leaf pairs |
| `HuffmanTree.InternalsCount` | src/main.rs:3-9 | a tree built from leaves and two-child nodes has one internal node fewer than it has leaves |
| `HuffmanTree.WeightsBoundedByRoot` | src/main.rs:56-61 | in a tree whose internal nodes hold the sum of their children, no node outweighs the root, so a root frequency within 255 keeps every `u8` count and sum within 255 |
| `FrequencyCounter.HistogramCounts` | src/main.rs:23-34 | the counted map has a key for a character exactly when it occurs in the text, and the value is its number of occurrences |
| `FrequencyCounter.CalculateFrequency` | src/main.rs:23-34 | the counting loop returns the occurrence map of the text; each key occurs in the text and maps to its count, which stays within `u8` |
| `FrequencyCounter.HistogramTotal` | src/main.rs:23-34 | the counts of a text add up to its length |
| `TreeBuilder.PopMin` | src/main.rs:53-54 | `pop().unwrap()` on a non-empty heap removes a node of least frequency; the rest is the heap minus that node, and weight and leaves are conserved |
| `TreeBuilder.LoadLeaves` | src/main.rs:37-49 | one leaf per map entry is queued, in any order; the queue's leaves are the map's items and its weight is the map's total |
| `TreeBuilder.MergeStep` | src/main.rs:52-62 | pushing the parent of the two popped nodes keeps the merge invariant: queue size plus merges, conserved weight and leaves, every queued tree well-formed, left-lighter and no lighter than the last right child |
| `TreeBuilder.MergeKeepsOrder` | src/main.rs:52-62 | the frequencies of successive merged nodes never decrease and never exceed the total |
| `TreeBuilder.MergeTwoLightest` | src/main.rs:53-61 | one pass pops as the left child a node no heavier than any queued node, and as the right child a node no heavier than any node still queued; the nodes left plus the two popped are exactly the queue before; their parent, holding the sum, is pushed behind the nodes left, and the merge invariant is kept |
| `TreeBuilder.MergeFinish` | src/main.rs:52-64 | when the loop stops, one tree is left, holding every leaf and the total weight, or none for an empty map |
| `TreeBuilder.InternalsPerEntry` | src/main.rs:52-62 | a tree whose leaves are the map's entries has one internal node fewer than the map has entries, as many as the merge loop records sums |
| `TreeBuilder.BuildHuffmanTree` | src/main.rs:36-65 | for a map with total at most 255, the result is empty for an empty map; otherwise it is one well-formed tree whose left children are never heavier than their right siblings, whose leaves are the map's items and whose root holds the total; the loop makes one merge per entry but one, with non-decreasing sums |
| `CodeTable.PathsExtend` | src/main.rs:88-89 | every leaf path extends the path so far, strictly below an internal node, and uses only '0' and '1' |
| `CodeTable.Codes` | src/main.rs:67-90 | `_encode` from an empty map gives an entry for exactly the tree's leaf characters, each a non-empty string of '0' and '1' |
| `CodeTable.CodesFollowPaths` | src/main.rs:77-89 | each leaf's entry is its root-to-leaf path, or "1" when that path is shorter than two |
| `CodeTable.PathsPrefixFree` | src/main.rs:88-89 | the root-to-leaf paths of two different characters are never prefixes of each other |
| `CodeTable.IntendedCodes` | src/main.rs:77-89 | the intended table has an entry for every leaf character, each a non-empty bit string: the path, or "1" for a single-leaf root |
| `CodeTable.IntendedPrefixFree` | src/main.rs:77-89 | the intended table is a prefix code |
| `CodeTable.AsWrittenMatchesIntended` | src/main.rs:78-82 | when the root is a leaf or its left child is internal, the table as written equals the intended one |
| `CodeTable.PathsLongEnough` | src/main.rs:78-82 | below an internal left child of the root, every path already passes the length test of line 78 or is "1" |
| `CodeTable.LeftLeafCodeIsPrefix` | src/main.rs:78-82 | when the root's left child is a leaf with a character of its own, that character gets "1" instead of its path "0", "1" is a prefix of every code, and the table is not a prefix code |
| `Decoder.Utf8Len` | src/main.rs:135 | the byte length is at least the character count and equals it for a bit string |
| `Decoder.DecodeStep` | src/main.rs:114-131 | one walk yields a leaf character of the tree; a leaf returns the position unchanged; an internal node advances to a position within the string or fails when it would read past the end |
| `Decoder.DecodeFrom` | src/main.rs:133-138 | the decode loop yields only leaf characters of the tree, at most one per bit left, and nothing once the position reaches the byte length minus one |
| `Decoder.Decode` | src/main.rs:133-138 | the loop with its `i64` index starting at -1 returns exactly what `DecodeFrom` gives from -1, or the failure |
| `Decoder.LeafRootStalls` | src/main.rs:123-137 | with a single-leaf tree and non-empty input, every pass leaves the position at -1 while the loop test stays true, so `decode` never returns |
| `Decoder.PathDescends` | src/main.rs:128-130 | the first remaining bit of a leaf's path selects the child, left on '0', that the leaf lies under |
| `Decoder.WalkPath` | src/main.rs:119-130 | a walk that reads the rest of a leaf's path reaches that leaf, having read exactly that rest, whatever follows |
| `Decoder.WalkFromRoot` | src/main.rs:114-131 | from an internal root, reading a character's whole path yields that character and stops on its last bit |
| `Decoder.IntendedStep` | src/main.rs:114-131 | the intended step yields a leaf character and always advances, a single-leaf root consuming one bit per character |
| `Decoder.DecodeIntendedFrom` | src/main.rs:133-138 | the intended loop yields only leaf characters, at most one per bit |
| `Decoder.IntendedAgrees` | src/main.rs:114-138 | for an internal root, the intended loop and the loop as written give the same result on every input |
| `Encoder.EncodeWith` | src/main.rs:103-109 | concatenating bit-string codes gives a bit string at least as long as the text when no code is empty |
| `Encoder.EncodeWithSnoc` | src/main.rs:105-106 | encoding one more character appends exactly its code |
| `Encoder.ConcatCodes` | src/main.rs:103-109 | the loop returns the concatenation of the codes of the text's characters in order |
| `Encoder.BuiltForChars` | src/main.rs:94-95 | the leaves of a tree built for a text carry exactly the text's characters |
| `Encoder.Encode` | src/main.rs:93-112 | fails exactly on the empty text; otherwise returns a well-formed, left-lighter tree over the text's counts with all weights within 255, a table entry for every character and the concatenated codes, a bit string at least as long as the text |
| `Encoder.IntendedStepReadsCode` | src/main.rs:114-131 | one intended step started after any prefix reads exactly the intended code of a character and yields it |
| `Encoder.DecodeInverts` | src/main.rs:133-138 | decoding the intended codes of any text of leaf characters, after any bit prefix, gives the text back |
| `Encoder.RoundTripIntended` | src/main.rs:93-138 | for every non-empty text, decoding its intended encoding with its tree gives the text back, a single-leaf tree included |
| `Encoder.RoundTrip` | src/main.rs:93-138 | when the root's left child is internal, `decode` of `encode`'s output as written gives back the text |
| `Encoder.AabShape` | src/main.rs:52-62 | whatever the tie-breaks, the tree for "aab" has the leaf of 'b' on the left and that of 'a' on the right |
| `Encoder.AabCollision` | src/main.rs:78-82 | for "aab", both characters get "1", the text encodes to "111", and decoding gives "aaa" |
| `Encoder.SingleSymbolTree` | src/main.rs:38-52 | the tree for "aaaa" is the single leaf ('a', 4) |
| `Encoder.SingleSymbolStalls` | src/main.rs:123-137 | "aaaa" encodes to "1111", `decode` stays at position -1 after any number of passes, and the intended loop gives "aaaa" |

## Left out

- `main` and all printing are left out. `_decode`'s `print!` becomes a returned character, and `decode` returns the printed characters.
- `Box::leak` in `_encode` is left out: it only keeps the path strings alive, and the model's strings are values.
- `frecuency_map.clear()` in `encode` is left out: the map is not used afterwards.
- Hashing, `HashMap` iteration order and `BinaryHeap` sifting are left out. The model allows any order and any tie-break, which covers every order the real structures can produce.
- `FrequencyCounter.CalculateFrequency`: does not model `u8` wrap-around or the overflow panic. Its precondition keeps every count within 255.
- `TreeBuilder.BuildHuffmanTree`: does not model the `u8` overflow of the sum on line 58. Its precondition keeps the map's total within 255.
- `TreeBuilder.BuildHuffmanTree`: ties its ghost trace `merges` (the sum computed by each pass) to the returned tree only by length, through `TreeBuilder.InternalsPerEntry` (one sum per internal node). It does not prove that the sums are the internal nodes' frequencies element by element, because that proof exceeds the verifier's resource budget.
- `TreeBuilder.BuildHuffmanTree`: its ensures admit any well-formed, left-lighter tree whose leaves are the map's entries, not only the one the greedy loop builds. The greedy choice is stated one pass at a time, by `TreeBuilder.MergeTwoLightest`. Optimality (least total weighted code length) is not proved.
- `Encoder.Encode`: does not model `u8` overflow. It requires a text of at most 255 characters, which is the condition under which neither a count nor the root's sum overflows.
- The `i64` width of the decoder's position is left out. Positions are unbounded integers, and only -1 and string positions occur.
- The `None` node argument of `_encode` and `_decode` is left out. The program only ever passes `Some`, and the early returns for `None` are unreachable.
- Characters printed before a panic are left out. When `_decode` panics part-way through, the model returns `Truncated` and not the characters already printed.
- `Decoder.Decode`, `Decoder.DecodeFrom`: require an internal root or empty input. With a leaf root and non-empty input the source loops forever, which `Decoder.LeafRootStalls` states instead.
- `Encoder.RoundTrip`: requires the root's left child to be internal. Otherwise line 78 can break the round trip, as `Encoder.AabCollision` shows.

## Findings

| source | as written | input that shows it | evidently intended | confidence | as-written member | corrected member |
|---|---|---|---|---|---|---|
| src/main.rs:78-82 | a leaf whose path is shorter than two gets "1", so a left leaf directly under the root gets "1" instead of "0" | "aab": the tree has 'b' on the left and 'a' on the right, both get "1", the text encodes to "111", and that decodes to "aaa" | only a single-leaf root, whose path is empty, gets "1"; every other leaf gets its path | high, not executed | `Encoder.AabCollision` | `CodeTable.IntendedCodes` (prefix code by `CodeTable.IntendedPrefixFree`, round trip by `Encoder.RoundTripIntended`) |
| src/main.rs:123-137 | with a single-leaf tree, `_decode` returns the position unchanged, so `decode`'s position stays at -1 | "aaaa": the tree is the leaf ('a', 4), the text encodes to "1111", and `decode` never returns | each "1" consumes one bit and yields the leaf's character | high, not executed | `Encoder.SingleSymbolStalls` | `Decoder.DecodeIntendedFrom` (round trip by `Encoder.RoundTripIntended`, agreeing with the source on internal roots by `Decoder.IntendedAgrees`) |
