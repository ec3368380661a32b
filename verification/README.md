# Huffman-Code, modelled in Dafny

A model of the Huffman codec of xTriixrx/Huffman-Code (Java) with its file
input and output taken out, and proofs of what it does. The repository holds
two versions of the codec, and both are modelled.

- **The newer codec.** `com.qfi.huffman.HuffmanExecution`, with `HNTree`,
  `HNode`, `HuffmanNode` and `IterableBitArray`, works like this:
  - it counts the characters of a text line by line (`getCharFrequencies`);
  - it builds a Huffman tree with a priority queue, adding a sentinel leaf
    for character 0 (`getHTree`);
  - it gives every node the bit path from the root as its code (`setCode`);
  - it looks each input character up (`inOrderSearch`), appends the
    sentinel's code, and packs the bits most significant first into bytes
    (`createCompressedFile`);
  - it writes a statistics file of `Node: c Freq: f Code: code` lines
    (`StatFilePrint`);
  - to decompress, it reads those lines back into a code table
    (`readStatFrequency`) and decodes the unpacked bits one at a time until
    it meets the sentinel (`DecompressFile`).
- **The earlier codec.** `com.qfi.HuffmanCode` has no sentinel. It writes
  each character's codes as text separated by spaces (`Compress`). It
  decompresses by scanning the statistics file's words in groups of six for
  each code (`parseFile`).

Modules:

| module | file | what |
|---|---|---|
| `Base` | base.dfy | options, results carrying a Java exception, bytes, bit strings |
| `Trees` | trees.dfy | the tree (`HNTree`/`HNode`), its constructors and `compareTo` |
| `HuffmanNodes` | huffman_node.dfy | the `HuffmanNode` class |
| `Frequencies` | frequencies.dfy | `readLine`, `getCharFrequencies`, `CharFreq` |
| `Builder` | builder.dfy | the priority queue and both `getHTree`s |
| `Codes` | codes.dfy | `setCode`, `getCode`, `inOrderSearch` |
| `Packing` | packing.dfy | the packing loop and `IterableBitArray` |
| `Codec` | codec.dfy | the encoder and the decoding loop |
| `StatFile` | stat_file.dfy | statistics lines, `split("\\s+")`, `readStatFrequency` |
| `Pipeline` | pipeline.dfy | the newer codec end to end |
| `Legacy` | legacy.dfy | the earlier codec's `Compress`, `parseFile`, `DecompressFile`, end to end |

Modelling choices:
- Text is a `seq<char>` and a file's bytes are a `seq<bv8>`.
- A Java exception that escapes is the `Thrown` case of a `Result`.
- The priority queue is a bag. `remove` may take *any* tree of least count,
  so every property holds whatever tie-break the heap makes.
- The statistics file sits between compression and decompression. It is
  modelled as the lines `StatFilePrint` writes, and as text that is one line
  per entry, each ending in "\n".

Where the code and its comments disagree, the code is followed:
- The comment on `getCode` says it gives "0 for any nodes that DNE".
  The array in fact holds null there: `Codes.GetCode` answers `None`.
- The comment on `StatFilePrint` says it prints only the character nodes.
  The newer version in fact prints the joins too (see Findings).

## Model

| member | source | states |
|---|---|---|
| Trees.MakeLeaf | src/HNTree.java:16-18 | the leaf constructor gives a tree with exactly the given character and count, no joins, and that one leaf |
| Trees.Join | src/HNTree.java:6-14 | the join constructor keeps both trees unchanged as children, sums their counts, marks the new root with ' ', and collects the leaves of both in order |
| Trees.CompareTo | src/HNTree.java:20-27 | compareTo is 1 exactly when this count is smaller, 0 exactly when the counts are equal, and -1 exactly when it is larger |
| Trees.CompareToAntisymmetric | src/HNTree.java:20-27 | swapping the operands negates compareTo |
| Trees.QueueCompare | src/com/qfi/huffman/HuffmanExecution.java:456 | `Collections.reverseOrder()` over the reversed compareTo orders trees by ascending count, so the queue's head is a tree of least count |
| Trees.RootFreqIsLeafTotal | src/HNTree.java:13 | in a tree whose joins sum their children's counts, the root count is the total of the leaf counts |
| Trees.InternalCount | src/HNTree.java:6-13 | each join has exactly two children, so a tree with N leaves has N - 1 joins |
| HuffmanNodes.NewLeaf | src/com/qfi/huffman/HuffmanNode.java:15-32 | the (freq, letter) constructor stores exactly that count and character, with an empty code and no children |
| HuffmanNodes.NewJoin | src/com/qfi/huffman/HuffmanNode.java:40-47 | the join constructor has children h1 and h2, their summed count, and the character (char) -1 |
| HuffmanNodes.CompareTo | src/com/qfi/huffman/HuffmanNode.java:55-58 | `Integer.compare(t.freq, freq)`: positive exactly when this count is smaller, zero exactly when they are equal |
| HuffmanNodes.CompareToAntisymmetric | src/com/qfi/huffman/HuffmanNode.java:55-58 | swapping the operands flips the sign of compareTo |
| HuffmanNodes.SetCode | src/com/qfi/huffman/HuffmanNode.java:113-156 | after setCode(s), getCode() answers s, and the character, count and children are unchanged |
| Frequencies.LineEnd | src/com/qfi/huffman/HuffmanExecution.java:428 | a line read by readLine ends at the first "\n" or "\r" and holds no terminator |
| Frequencies.NextLineStart | src/com/qfi/huffman/HuffmanExecution.java:428 | the next line starts past the first line's terminator, and only terminator characters are skipped |
| Frequencies.ReadLinesDropsOnlyTerminators | src/com/qfi/huffman/HuffmanExecution.java:428-431 | the lines readLine returns, put together, are the text without its line terminators |
| Frequencies.InRangePrefix | src/com/qfi/huffman/HuffmanExecution.java:433 | counting runs up to the first character that does not index the 256-entry array |
| Frequencies.Tally | src/com/qfi/huffman/HuffmanExecution.java:430-436 | the counting loop adds to each entry the occurrences of its character in the counted part, and reports whether it reached the end |
| Frequencies.GetCharFrequencies | src/com/qfi/huffman/HuffmanExecution.java:420-444 | there are exactly 256 counts; counts[c] is the occurrences of c outside line terminators, up to the first character of 256 or more, whose exception is caught |
| Frequencies.CharFreq | src/com/qfi/HuffmanCode.java:275-292 | the earlier counter throws IndexOutOfBounds exactly when some non-terminator character is 256 or more; otherwise counts[c] is the occurrences of c outside line terminators |
| Builder.Remove | src/com/qfi/huffman/HuffmanExecution.java:475-476 | remove throws NoSuchElement exactly on an empty queue; otherwise it takes out a tree whose count is no larger than any other's, and keeps the leaves and the total |
| Builder.JoinAll | src/com/qfi/huffman/HuffmanExecution.java:473-480 | the joining loop throws exactly on an empty queue; otherwise it returns a tree the greedy order allows (each round joins a least-count tree with a least-count tree of the rest, under any tie-break), holding exactly the queued leaves, with joins that sum their children and a root count equal to the queue total |
| Builder.JoinTwo | src/com/qfi/huffman/HuffmanExecution.java:475-477 | one round takes out a tree of least count, then a tree of least count among the rest, and queues their join (first taken on the left) at the back, keeping the leaves and the total |
| Builder.QueuedInResult | src/com/qfi/huffman/HuffmanExecution.java:473-480 | every tree queued at any point ends up unchanged inside the tree the loop returns |
| Builder.LeastAreSiblings | src/com/qfi/huffman/HuffmanExecution.java:473-480 | in the returned tree, a tree of least count and a least-count tree of the rest are the two children of one join |
| Builder.CountedEntries | src/com/qfi/huffman/HuffmanExecution.java:458-468 | the queued pairs are exactly the (character, count) pairs of the positive counts, in increasing character order |
| Builder.InitialQueueSpec | src/com/qfi/huffman/HuffmanExecution.java:458-468 | the initial queue holds one leaf per positive count, carrying exactly those pairs and their total |
| Builder.SentinelQueue | src/com/qfi/huffman/HuffmanExecution.java:470-471 | with the sentinel (char 0, count 1) added, the queue holds the counted pairs plus the sentinel, and its total is the counted total + 1 |
| Builder.GetHTree | src/com/qfi/huffman/HuffmanExecution.java:454-481 | the newer getHTree never throws; its tree is a greedy result of the queue of counted leaves plus the sentinel, with exactly those leaves, joins that sum their children, and root count = sum of counts + 1 |
| Builder.NoPositiveCounts | src/com/qfi/HuffmanCode.java:306-309 | with no positive count, nothing is queued |
| Builder.GetHTreeLegacy | src/com/qfi/HuffmanCode.java:303-318 | the earlier getHTree throws NoSuchElement exactly when no count is positive; otherwise its tree is a greedy result of the queue of counted leaves, with exactly those leaves and root count = sum of counts |
| Codes.SetCode | src/com/qfi/huffman/HuffmanExecution.java:506-520 | setCode gives one code per leaf, in leaf order; every code extends the code of the node it starts from; under a join every leaf code is longer; a lone leaf keeps its code, so its code is "" (the earlier setCode, HuffmanCode.java:343-357, is the same walk) |
| Codes.CodesArePrefixFree | src/com/qfi/huffman/HuffmanExecution.java:506-520 | no leaf code is a prefix of another leaf's code |
| Codes.CodeIsRootPath | src/com/qfi/huffman/HuffmanExecution.java:507-514 | following a leaf's code from the root, 0 to the left and 1 to the right, reaches exactly that leaf |
| Codes.ApplyWrites | src/com/qfi/huffman/HuffmanExecution.java:516-517 | storing `c[(int) r.ch] = r.code` throws IndexOutOfBounds exactly when a leaf character is 256 or more; otherwise entry c holds the last code written for c, or null |
| Codes.GetCode | src/com/qfi/huffman/HuffmanExecution.java:490-497 | getCode gives null for a null root; otherwise it gives a 256-entry array whose entry c is the code setCode last wrote for a leaf carrying c, or null when no leaf carries c; a leaf character of 256 or more throws (the earlier getCode, HuffmanCode.java:327-334, is the same) |
| Codes.LastCodeIsWritten | src/com/qfi/huffman/HuffmanExecution.java:516-517 | an array entry is set exactly for the characters of some leaf, and holds one of that character's leaf codes |
| Codes.SearchFindsLeaf | src/com/qfi/huffman/HuffmanExecution.java:553-573 | for a character other than ' ', inOrderSearch finds a node exactly when a leaf carries the character, and answers that leaf's code |
| Codes.SpaceFindsRoot | src/com/qfi/huffman/HuffmanExecution.java:560-563 | searching for ' ' in a tree with a join stops at the root, whose character is ' ', and answers the root's code |
| Packing.PacksBitsSpec | src/com/qfi/huffman/HuffmanExecution.java:305-336 | in the packed bytes, bit 7 - k % 8 of byte k / 8 is bit k of the string, and every bit after the string is zero |
| Packing.Pack | src/com/qfi/huffman/HuffmanExecution.java:305-336 | the packing loop writes `len / 8 + 1` bytes holding the bits most significant first and zeros after them, with a whole zero byte when len is a multiple of 8 |
| Packing.Iterator | src/com/qfi/huffman/IterableBitArray.java:29-35 | every iterator() starts at bit 0 of the wrapped array and leaves the array unchanged |
| Packing.Next | src/com/qfi/huffman/IterableBitArray.java:42-69 | next throws NoSuchElement exactly when hasNext is false; otherwise it yields bit 7 - bitIndex of the current byte, keeps the array, and moves on by one position |
| Packing.NextAt | src/com/qfi/huffman/IterableBitArray.java:59-66 | the bit next yields at position k is bit 7 - k % 8 of byte k / 8 |
| Packing.RemoveBit | src/com/qfi/huffman/IterableBitArray.java:74-78 | remove always throws UnsupportedOperation |
| Packing.DrainLength | src/com/qfi/huffman/IterableBitArray.java:44-66 | an iterator at position P yields exactly 8 * length - P more bits before hasNext is false |
| Packing.DrainAt | src/com/qfi/huffman/IterableBitArray.java:59-66 | the j-th bit yielded from position P is bit P + j of the array, most significant first |
| Packing.UnpackSpec | src/com/qfi/huffman/IterableBitArray.java:44-66 | a for-each over the array yields exactly 8 bits per byte, bit k being bit 7 - k % 8 of byte k / 8 |
| Packing.PackUnpack | src/com/qfi/huffman/HuffmanExecution.java:305-346 | unpacking the packed bytes gives back the bit string followed only by zero padding |
| Codec.Encode | src/com/qfi/huffman/HuffmanExecution.java:293-303 | the built bit string is the codes of the input characters read before (char) -1 followed by the sentinel's code, which is a code setCode wrote for a leaf carrying character 0; it throws NullPointer exactly when no node carries character 0 |
| Codec.CodeOfSpec | src/com/qfi/huffman/HuffmanExecution.java:296-300 | a leaf character contributes its leaf code; a character no leaf carries contributes nothing; in a tree with a join, a space contributes nothing |
| Codec.DecodeBounds | src/com/qfi/huffman/HuffmanExecution.java:223-241 | decoding prints at most one character per bit and never prints character 0; with no bits it ends silently |
| Codec.DecodeOneCode | src/com/qfi/huffman/HuffmanExecution.java:224-239 | from any point inside a code that is the shortest table key on its path, reading on prints that code's character and resets the candidate |
| Codec.TableLookup | src/com/qfi/huffman/HuffmanExecution.java:267 | when no two lines share a code, each line's code is a key of the table and maps to that line's character |
| Codec.WithoutSpaceMembers | src/com/qfi/HuffmanCode.java:259 | skipping the nodes for ' ' keeps exactly the entries whose character is not ' ' |
| Codec.LeafCodesDetermine | src/com/qfi/huffman/HuffmanExecution.java:506-520 | different leaves have different codes |
| Codec.LeafCodeInTable | src/com/qfi/huffman/HuffmanExecution.java:228-239 | in the table of leaf codes, a leaf's code maps to its character and no shorter prefix of it is a key |
| Codec.VisibleChar | src/com/qfi/huffman/HuffmanExecution.java:296-300 | a leaf character other than ' ' adds its code to the bits and itself to what decoding prints |
| Codec.HiddenChar | src/com/qfi/huffman/HuffmanExecution.java:296-300 | any other character adds nothing to the bits and nothing to the output |
| Codec.DecodeEncodedChars | src/com/qfi/huffman/HuffmanExecution.java:224-241 | decoding the codes of a text, whatever bits follow, prints the text's leaf characters in order, cut at the first character 0 |
| Codec.RoundTrip | src/com/qfi/huffman/HuffmanExecution.java:224-241 | for a tree with a join and a sentinel leaf, decoding the encoded bits with any padding prints exactly the text's leaf characters up to the first 0, and ends on the sentinel |
| StatFile.TokensAfter | src/com/qfi/huffman/HuffmanExecution.java:266 | the words between runs of `\s` characters are nonempty and contain no `\s` |
| StatFile.Split | src/com/qfi/huffman/HuffmanExecution.java:266 | `split("\\s+")` gives [""] for an empty line and an empty first field only before a leading space; otherwise it gives the words |
| StatFile.TokensJoined | src/com/qfi/huffman/HuffmanExecution.java:266 | words joined by single spaces split back into the same words |
| StatFile.DecimalChars | src/com/qfi/huffman/HuffmanExecution.java:405 | a count written in decimal holds only digits and a minus sign, so it is one word |
| StatFile.ParseStatLine | src/com/qfi/huffman/HuffmanExecution.java:266-267 | reading a line throws IndexOutOfBounds exactly when it has fewer than 6 fields or an empty second field; otherwise it gives (field 5, first character of field 1) |
| StatFile.FormatFields | src/com/qfi/huffman/HuffmanExecution.java:405 | a written line whose character is not whitespace has the fields Node:, the character, Freq:, the count, Code:, and the code when it is nonempty |
| StatFile.SpaceFields | src/com/qfi/huffman/HuffmanExecution.java:405 | a written line whose character is whitespace loses that field, leaving 5 or 4 fields |
| StatFile.StatLineRoundTrip | src/com/qfi/huffman/HuffmanExecution.java:405 | a line for a non-whitespace character with a nonempty code reads back as that code and character; any other line throws |
| Pipeline.NextLineCutsStatLine | src/com/qfi/huffman/HuffmanExecution.java:263-267 | the statistics line of a NEL leaf holds NEL right after "Node: ", and what `nextLine` reads up to it has a single field, so `parts[5]` throws |
| StatFile.ReadConcat | src/com/qfi/huffman/HuffmanExecution.java:261-275 | reading goes on line after line while lines parse; the first line that throws ends reading, since the catch is outside the loop |
| StatFile.ReadOneLine | src/com/qfi/huffman/HuffmanExecution.java:265-267 | a line that parses puts its code and character into the map; one that throws leaves the map as it was |
| StatFile.StopAt | src/com/qfi/huffman/HuffmanExecution.java:263-275 | once a line throws, nothing after it is read |
| StatFile.ReadParsedLines | src/com/qfi/huffman/HuffmanExecution.java:255-278 | when every line parses, the map holds exactly the lines' codes, a later line winning over an earlier one |
| StatFile.JoinLineFails | src/com/qfi/huffman/HuffmanExecution.java:403-406 | the line of a join carries the space the join constructor sets, so it always throws when read |
| StatFile.AsWrittenStopsEarly | src/com/qfi/huffman/HuffmanExecution.java:398-410 | for a tree with a join, the file as written has a line that throws, and the table read from it has at most one key |
| StatFile.AsWrittenTable | src/com/qfi/huffman/HuffmanExecution.java:398-410 | for any tree with a join the table as read has at most one key, although the tree has at least two leaves |
| StatFile.AsWrittenLosesText | src/com/qfi/huffman/HuffmanExecution.java:403 | with the file as written, decoding any bits prints one character repeated at best, so "ab" never comes back |
| StatFile.StatLinesParse | src/com/qfi/HuffmanCode.java:254-265 | with ' ' skipped, every line parses, and line k gives the code and character of the k-th leaf that is not ' ' |
| StatFile.StatLinesTable | src/com/qfi/HuffmanCode.java:254-265 | with ' ' skipped, and for a tree with a join whose leaf characters are not whitespace, the table read back is exactly the leaf-code table |
| StatFile.DecodedFromTable | src/com/qfi/huffman/HuffmanExecution.java:228-237 | every character decoding prints is a value of the table |
| Pipeline.CountedExactly | src/com/qfi/huffman/HuffmanExecution.java:428-437 | for 8-bit text, a character is counted exactly when it occurs outside the line terminators |
| Pipeline.TreeChars | src/com/qfi/huffman/HuffmanExecution.java:458-471 | the tree for 8-bit text carries exactly character 0 and the characters occurring outside the line terminators |
| Pipeline.TreeShape | src/com/qfi/huffman/HuffmanExecution.java:470-480 | the tree has a join exactly when the text is more than line terminators; otherwise it is the sentinel leaf alone |
| Pipeline.LoneLeaf | src/com/qfi/huffman/HuffmanExecution.java:473-480 | the built tree is a lone leaf exactly when one pair was queued, and is then that pair |
| Pipeline.EmptyKeyNeverMatches | src/com/qfi/huffman/HuffmanExecution.java:224-228 | a table whose only key is "" never matches, because a bit is appended before the lookup |
| Pipeline.JoinedRoundTrip | src/com/qfi/huffman/HuffmanExecution.java:220-241 | decoding what was packed from a tree with a join prints the text without spaces and line terminators up to its first 0, and ends on the sentinel |
| Pipeline.LoneLeafRoundTrip | src/com/qfi/huffman/HuffmanExecution.java:302-303 | with the sentinel leaf alone, its code is empty, so decoding prints nothing and never meets the sentinel |
| Pipeline.Compress | src/com/qfi/huffman/HuffmanExecution.java:69-153 | compression builds, greedily, the tree of the counts plus the sentinel and writes the packing of the encoded bits; decoding them with the leaf-code table gives back the text without spaces and terminators up to its first 0 |
| Pipeline.LoneLeafFile | src/com/qfi/huffman/HuffmanExecution.java:263-275 | the sentinel leaf's line has an empty code, 5 fields, so the table read back is empty |
| Pipeline.CompressDecompress | src/com/qfi/huffman/HuffmanExecution.java:210-253 | compressing, writing the statistics file with ' ' skipped, and decompressing gives back the text without spaces and line terminators up to its first 0 |
| Legacy.ScanWordsAfter | src/com/qfi/HuffmanCode.java:152-157 | the words a Scanner yields are nonempty and contain none of its delimiters |
| Legacy.SameWords | src/com/qfi/HuffmanCode.java:178-181 | on text whose scanner delimiters are all `\s` characters, the Scanner's words are those of the split |
| Legacy.CompressCodes | src/com/qfi/HuffmanCode.java:221-231 | Compress writes, in in-order sequence, the code of every node whose character is c; each extends the code of the node it starts from |
| Legacy.CompressReaches | src/com/qfi/HuffmanCode.java:226-229 | every code Compress writes for c leads from the root to a node whose character is c |
| Legacy.CompressLeafOrder | src/com/qfi/HuffmanCode.java:221-231 | for a character other than ' ', Compress writes exactly the codes of the leaves carrying it, in leaf order |
| Legacy.CompressSpaceCount | src/com/qfi/HuffmanCode.java:227-228 | with no leaf for ' ', Compress writes one code for each join when asked for ' ' |
| Legacy.WrittenWords | src/com/qfi/HuffmanCode.java:178-183 | the Scanner reads back from the compressed file exactly the nonempty codes written, in order |
| Legacy.CompressedFile | src/com/qfi/HuffmanCode.java:194-211 | the compressed file is each written code followed by a space, for every character outside line terminators |
| Legacy.ParseGroups | src/com/qfi/HuffmanCode.java:150-161 | parseFile throws NoSuchElement exactly when the word count is not a multiple of 6 |
| Legacy.ParseOneGroup | src/com/qfi/HuffmanCode.java:153-159 | a group of six words prints its second word exactly when its sixth is the code searched for |
| Legacy.ParseGroupsConcat | src/com/qfi/HuffmanCode.java:152-160 | whole groups are read independently of what follows |
| Legacy.ParseIncomplete | src/com/qfi/HuffmanCode.java:152-160 | with an incomplete last group, what is printed before the exception is what the complete groups print |
| Legacy.DecompressWords | src/com/qfi/HuffmanCode.java:173-185 | DecompressFile throws exactly when there is a code and the statistics words are not a whole number of groups, having printed the first search's output |
| Legacy.StatTextDelimiters | src/com/qfi/HuffmanCode.java:254-265 | when no leaf character is one of the Scanner's extra delimiters, the Scanner and the split see the same words in the statistics file |
| Legacy.StatWordsParse | src/com/qfi/HuffmanCode.java:254-265 | the statistics file's words form whole groups of six, and searching them for s prints the characters of exactly the leaves whose code is s |
| Legacy.MatchesFollow | src/com/qfi/HuffmanCode.java:152-160 | searching the leaf lines for the code of a path prints the leaf the path reaches, unless it is ' ', and nothing for any other path |
| Legacy.WrittenCodeFinds | src/com/qfi/HuffmanCode.java:221-231 | searching for a code Compress wrote for c prints c, or nothing when c is ' ' |
| Legacy.CodesOfUnique | src/com/qfi/HuffmanCode.java:221-231 | with distinct leaf characters, a character has exactly one code |
| Legacy.DistinctFromBag | src/com/qfi/HuffmanCode.java:306-316 | a tree built from pairs with distinct characters has leaves with distinct characters, whatever order the queue joins them in |
| Legacy.CharSearched | src/com/qfi/HuffmanCode.java:173-183 | searching for one character's written codes prints that character, or nothing for ' ' |
| Legacy.TextSearched | src/com/qfi/HuffmanCode.java:173-183 | searching for every code of a text of leaf characters and spaces prints the text without its spaces |
| Legacy.LegacyTreeChars | src/com/qfi/HuffmanCode.java:275-316 | the tree the earlier getHTree builds for 8-bit text carries exactly the characters occurring outside the line terminators |
| Legacy.LegacyCounts | src/com/qfi/HuffmanCode.java:275-292 | when CharFreq does not throw, its counts are those of getCharFrequencies |
| Legacy.JoinedTwoKinds | src/com/qfi/HuffmanCode.java:311-316 | a tree with a join comes from text with two different characters |
| Legacy.LoneOneKind | src/com/qfi/HuffmanCode.java:311-316 | a lone-leaf tree comes from text with a single character, apart from line terminators |
| Legacy.LegacyJoined | src/com/qfi/HuffmanCode.java:173-185 | with a join at the root, decompressing prints the text without spaces and line terminators and throws nothing |
| Legacy.LegacyLone | src/com/qfi/HuffmanCode.java:343-357 | with a lone leaf at the root its code is empty, the compressed file holds only spaces, and nothing is printed |
| Legacy.CompressDecompressLegacy | src/com/qfi/HuffmanCode.java:58-134 | the earlier flow throws IndexOutOfBounds exactly on a character of 256 or more, and NoSuchElement exactly on text of line terminators only; otherwise it prints the text without spaces and terminators when there are two kinds of character, and nothing when there is one |

## Left out

- File input and output, charsets, `Files.readAllBytes`, `FileWriter`, `BufferedOutputStream`: text and bytes are values, and the files between compression and decompression are sequences.
- `main`, the command line, mode checks, prompts, file paths, `Runnable.run` threading and log4j logging. `src/com/qfi/huffman/HuffmanCode.java` is not part of this model; it is the command-line front end.
- The debug printing in `createCompressedFile` and `InOrderPrint`/`InOrder`, which only print.
- The unused `compress(HNode, char, BufferedWriter)` of the newer codec, whose result is never used by a caller.
- `equals`/`hashCode` (object identity) and parent links, including the self-parent of the `HuffmanNode` join. No operation reads them.
- The default `HNode()` constructor on its own. It appears only inside the join constructor, which `Trees.Join` models with ' ' as the join's character.
- The binary heap inside `PriorityQueue`: `remove` is any least-count removal.
- 32-bit `int` overflow of counts and sums: counts are unbounded integers. A text would need more than 2^31 copies of one character to overflow.
- `Scanner.nextLine` and `readLine` treat U+0085 (NEL), U+2028 and U+2029 differently. Only "\n", "\r" and "\r\n" end a line here, and each statistics line ends in "\n". The statistics lines are passed to the reader as a sequence. The one 8-bit character this affects, NEL, is excluded from the end-to-end theorem below; `Pipeline.NextLineCutsStatLine` states what `Scanner.nextLine` makes of its line.
- Pipeline.Compress: requires 8-bit text. For a character of 256 or more, only the counting is modelled (`Frequencies.GetCharFrequencies` stops there); the round trip is not stated.
- Pipeline.CompressDecompress: requires 8-bit text with no tab, vertical tab, form feed or NEL (U+0085). A leaf line for tab, vertical tab or form feed splits into the wrong fields. `readLine` counts NEL as an ordinary character, but `Scanner.nextLine` ends the statistics line at it, so `parts[5]` throws and reading stops there. Decoding for such text is not stated.
- Legacy.CompressDecompressLegacy: requires text with no Scanner or `\s` whitespace other than the space and the line terminators, for the same reason.
- Builder.CountedEntries: requires at most 55296 counts, so that every index casts to a character below the surrogate range; both callers pass 256.

## Findings

| source | as written | input that shows it | evidently intended | confidence | as-written member | corrected member |
|---|---|---|---|---|---|---|
| src/com/qfi/huffman/HuffmanExecution.java:403 | `StatFilePrint` skips nodes whose character is (char) -1, but `HNTree` joins carry ' ', so every join gets a line, and that line reads back with 5 fields and throws; `readStatFrequency` then stops, keeping at most the first leaf's code | the text "ab": the line after the first leaf's is its parent join's, reading stops there, and decompression prints one character repeated at best | skip the joins by their character ' ', as the earlier `StatFilePrint` does at src/com/qfi/HuffmanCode.java:259, so the table read back holds every leaf code | medium, not executed; the only `HNTree` among the repository's files is src/HNTree.java, whose join constructor sets ' ' (line 12), and a `com.qfi.huffman` class with the same name is not part of this model | StatFile.AsWrittenLosesText | StatFile.StatLinesTable |
