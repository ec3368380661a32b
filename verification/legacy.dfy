/** The earlier codec, `com.qfi.HuffmanCode`: it writes each character of
    the text as its code in text, every code followed by a space, and
    decompresses by scanning that file code by code and, for each code,
    scanning the statistics file in groups of six words for the line with
    that code. Counting (`CharFreq`), the tree (`getHTree` without a
    sentinel), the codes (`getCode`/`setCode`) and the statistics file
    (`StatFilePrint`, which skips the ' ' of every join) are shared with
    the other modules. */
module Legacy {
  import opened Base
  import opened Trees
  import opened Frequencies
  import opened Builder
  import opened Codes
  import opened Codec
  import opened StatFile
  import opened Pipeline

  // ------------------------------------------------------- scanning words

  /** The white space `Character.isWhitespace` accepts beyond the `\s`
      class: the four information separators and the Unicode space, line
      and paragraph separators other than the no-break spaces. */
  predicate ExtraScannerSpace(c: char) {
    ('\U{001C}' <= c <= '\U{001F}') || c == '\U{1680}' || ('\U{2000}' <= c <= '\U{2006}')
    || ('\U{2008}' <= c <= '\U{200A}') || c == '\U{2028}' || c == '\U{2029}'
    || c == '\U{205F}' || c == '\U{3000}'
  }

  /** The delimiters of a `Scanner` with its default pattern. */
  predicate IsScannerSpace(c: char) {
    IsSpace(c) || ExtraScannerSpace(c)
  }

  predicate NoScannerSpace(s: string) {
    forall i | 0 <= i < |s| :: !IsScannerSpace(s[i])
  }

  /** The words `Scanner.next` returns one by one until `hasNext` is false,
      when the word `cur` has been read just before `s`. */
  function ScanWordsAfter(s: string, cur: string): (ws: seq<string>)
    requires NoScannerSpace(cur)
    ensures forall i | 0 <= i < |ws| :: ws[i] != [] && NoScannerSpace(ws[i])
    decreases |s|
  {
    if s == [] then (if cur == [] then [] else [cur])
    else if IsScannerSpace(s[0]) then (if cur == [] then [] else [cur]) + ScanWordsAfter(s[1..], [])
    else ScanWordsAfter(s[1..], cur + [s[0]])
  }

  function ScanWords(s: string): seq<string> {
    ScanWordsAfter(s, [])
  }

  /** A text in which the scanner's delimiters are exactly the `\s`
      characters. */
  predicate SameDelimiters(s: string) {
    forall c | c in s :: !ExtraScannerSpace(c)
  }

  /** Where the delimiters agree, the scanner reads the words `Tokens`
      splits off. */
  lemma {:induction false} SameWords(s: string, cur: string)
    requires SameDelimiters(s) && NoSpace(cur) && NoScannerSpace(cur)
    ensures ScanWordsAfter(s, cur) == TokensAfter(s, cur)
    decreases |s|
  {
    if s != [] {
      assert s[0] in s;
      assert SameDelimiters(s[1..]) by {
        forall c | c in s[1..] ensures !ExtraScannerSpace(c) {
          assert c in s;
        }
      }
      if IsSpace(s[0]) {
        SameWords(s[1..], []);
      } else {
        SameWords(s[1..], cur + [s[0]]);
      }
    }
  }

  /** A space character ends the words before it: the words of `a`, then
      those of `b`. */
  lemma {:induction false} TokensSplitAt(a: string, sp: char, b: string, cur: string)
    requires IsSpace(sp) && NoSpace(cur)
    ensures TokensAfter(a + [sp] + b, cur) == TokensAfter(a, cur) + Tokens(b)
    decreases |a|
  {
    var s := a + [sp] + b;
    if a == [] {
      assert s[0] == sp && s[1..] == b;
    } else {
      assert s[0] == a[0] && s[1..] == a[1..] + [sp] + b;
      if IsSpace(a[0]) {
        TokensSplitAt(a[1..], sp, b, []);
      } else {
        TokensSplitAt(a[1..], sp, b, cur + [a[0]]);
      }
    }
  }

  // ------------------------------------------------------------ Compress

  /** `Compress(root, c, bw)` over the subtree `t` whose code is `code`: the
      codes it writes, in order (left subtree, node, right subtree), one for
      each node whose character is c, the joins' ' ' included. */
  function CompressCodes(t: Tree, c: char, code: Bits): (ws: seq<Bits>)
    ensures forall k | 0 <= k < |ws| :: IsPrefix(code, ws[k])
  {
    var here := if NodeChar(t) == c then [code] else [];
    match t
    case Leaf(_, _) => here
    case Node(_, l, r) => CompressCodes(l, c, code + [false]) + here + CompressCodes(r, c, code + [true])
  }

  /** Every code `Compress` writes for c leads from the node it starts at
      to a node carrying c. */
  lemma {:induction false} CompressReaches(t: Tree, c: char, code: Bits, k: nat)
    requires k < |CompressCodes(t, c, code)|
    ensures Follow(t, CompressCodes(t, c, code)[k][|code|..]).Some?
    ensures NodeChar(Follow(t, CompressCodes(t, c, code)[k][|code|..]).value) == c
  {
    var ws := CompressCodes(t, c, code);
    var here := if NodeChar(t) == c then [code] else [];
    match t
    case Leaf(_, _) =>
      assert ws[k][|code|..] == [];
    case Node(_, l, r) =>
      var a := CompressCodes(l, c, code + [false]);
      var b := CompressCodes(r, c, code + [true]);
      CompressNode(t, c, code);
      if k < |a| {
        CompressReaches(l, c, code + [false], k);
        CompressPick(a, here, b, k);
        FollowStep(t, code, false, a[k]);
      } else if k < |a| + |here| {
        CompressPick(a, here, b, k);
        assert code[|code|..] == [];
      } else {
        var k' := k - |a| - |here|;
        CompressReaches(r, c, code + [true], k');
        CompressPick(a, here, b, k);
        FollowStep(t, code, true, b[k']);
      }
  }

  /** The codes written for c below a node: left subtree, the node, right subtree. */
  lemma CompressNode(t: Tree, c: char, code: Bits)
    requires t.Node?
    ensures CompressCodes(t, c, code)
         == CompressCodes(t.left, c, code + [false]) + (if NodeChar(t) == c then [code] else [])
            + CompressCodes(t.right, c, code + [true])
  { }

  /** Indexing into a three-part concatenation. */
  lemma CompressPick(a: seq<Bits>, here: seq<Bits>, b: seq<Bits>, k: nat)
    requires k < |a| + |here| + |b|
    ensures k < |a| ==> (a + here + b)[k] == a[k]
    ensures |a| <= k < |a| + |here| ==> (a + here + b)[k] == here[k - |a|]
    ensures |a| + |here| <= k ==> (a + here + b)[k] == b[k - |a| - |here|]
  { }

  /** The codes of the writes for character c, in order. */
  function CodesOf(writes: seq<(char, Bits)>, c: char): seq<Bits> {
    if writes == [] then []
    else (if writes[0].0 == c then [writes[0].1] else []) + CodesOf(writes[1..], c)
  }

  lemma {:induction false} CodesOfConcat(a: seq<(char, Bits)>, b: seq<(char, Bits)>, c: char)
    ensures CodesOf(a + b, c) == CodesOf(a, c) + CodesOf(b, c)
  {
    ConsConcat(a, b);
    if a != [] {
      CodesOfConcat(a[1..], b, c);
    }
  }

  /** For a character other than ' ', `Compress` writes exactly the codes
      `setCode` gives the leaves for it, left to right. */
  lemma {:induction false} CompressLeafOrder(t: Tree, c: char, code: Bits)
    requires c != JoinChar
    ensures CompressCodes(t, c, code) == CodesOf(SetCode(t, code), c)
  {
    match t
    case Leaf(ch, _) =>
      assert SetCode(t, code)[1..] == [];
    case Node(_, l, r) =>
      CompressLeafOrder(l, c, code + [false]);
      CompressLeafOrder(r, c, code + [true]);
      CodesOfConcat(SetCode(l, code + [false]), SetCode(r, code + [true]), c);
  }

  /** For ' ', in a tree with no leaf for it, `Compress` writes one code per
      join. */
  lemma {:induction false} CompressSpaceCount(t: Tree, code: Bits)
    requires JoinChar !in LeafChars(t)
    ensures |CompressCodes(t, JoinChar, code)| == CountInternal(t)
  {
    match t
    case Leaf(ch, _) =>
      assert ch in LeafChars(t) by { assert Leaves(t)[0].0 == ch; }
    case Node(_, l, r) =>
      LeafCharsOfNode(t);
      CompressSpaceCount(l, code + [false]);
      CompressSpaceCount(r, code + [true]);
  }

  // --------------------------------------------------- the compressed file

  /** The codes written as text, each followed by a space. */
  function Written(ws: seq<Bits>): string {
    if ws == [] then [] else CodeString(ws[0]) + [' '] + Written(ws[1..])
  }

  /** The words of the written codes: the code strings, empty ones
      dropped. */
  function Tokenized(ws: seq<Bits>): seq<string> {
    if ws == [] then [] else (if ws[0] == [] then [] else [CodeString(ws[0])]) + Tokenized(ws[1..])
  }

  lemma {:induction false} TokenizedConcat(a: seq<Bits>, b: seq<Bits>)
    ensures Tokenized(a + b) == Tokenized(a) + Tokenized(b)
  {
    ConsConcat(a, b);
    if a != [] {
      TokenizedConcat(a[1..], b);
    }
  }

  /** Scanning the written codes gives back the non-empty code strings, in
      order. */
  lemma {:induction false} WrittenWords(ws: seq<Bits>)
    ensures SameDelimiters(Written(ws))
    ensures ScanWords(Written(ws)) == Tokenized(ws)
  {
    WrittenDelimiters(ws);
    WrittenTokens(ws);
    SameWords(Written(ws), []);
  }

  lemma {:induction false} WrittenDelimiters(ws: seq<Bits>)
    ensures SameDelimiters(Written(ws))
  {
    if ws != [] {
      WrittenDelimiters(ws[1..]);
      CodeDelimiters(ws[0]);
    }
  }

  lemma {:induction false} WrittenTokens(ws: seq<Bits>)
    ensures Tokens(Written(ws)) == Tokenized(ws)
  {
    if ws != [] {
      var w := CodeString(ws[0]);
      var rest := Written(ws[1..]);
      WrittenTokens(ws[1..]);
      assert NoSpace(w);
      TokensSplitAt(w, ' ', rest, []);
      TokensRun(w, [], []);
      assert w + [] == w && [] + w == w;
    }
  }

  lemma CodeDelimiters(w: Bits)
    ensures SameDelimiters(CodeString(w))
  {
    forall c | c in CodeString(w) ensures !ExtraScannerSpace(c) {
      var i :| 0 <= i < |w| && CodeString(w)[i] == c;
    }
  }

  /** `Compress` for each character in turn. */
  function CompressedCodes(t: Tree, s: string): seq<Bits> {
    if s == [] then [] else CompressCodes(t, s[0], []) + CompressedCodes(t, s[1..])
  }

  /** `CreateCompressedFile`: `Compress` for every character of every line
      `readLine` returns; the file holds every character's codes, line
      terminators having none. */
  function CompressedFile(t: Tree, text: string): (file: string)
    ensures file == Written(CompressedCodes(t, StripTerminators(text)))
  {
    ReadLinesDropsOnlyTerminators(text);
    Written(CompressedCodes(t, Flatten(ReadLines(text))))
  }

  // ----------------------------------------------------------- parseFile

  /** What a run prints before it returns or an exception escapes it. */
  datatype Run = Run(out: string, thrown: Option<JavaException>)

  /** The loop of `parseFile`: six words at a time, the second printed when
      the sixth is the code searched for. Fewer than six words left make a
      `next` throw after the complete groups are printed. */
  function ParseGroups(words: seq<string>, search: string): (r: Run)
    ensures r.thrown.Some? <==> |words| % 6 != 0
    ensures r.thrown.Some? ==> r.thrown.value == NoSuchElement
    decreases |words|
  {
    if words == [] then Run([], None)
    else if |words| < 6 then Run([], Some(NoSuchElement))
    else
      var rest := ParseGroups(words[6..], search);
      Run((if words[5] == search then words[1] else []) + rest.out, rest.thrown)
  }

  /** `parseFile(file1, searchStr)`: the scanner reads the whole file, so
      the outer `ready` loop runs the group loop once. */
  function ParseFile(statText: string, search: string): Run {
    ParseGroups(ScanWords(statText), search)
  }

  lemma ParseOneGroup(g: seq<string>, search: string)
    requires |g| == 6
    ensures ParseGroups(g, search) == Run(if g[5] == search then g[1] else [], None)
  {
    assert g[6..] == [];
  }

  /** Groups are read independently: the words of whole groups, then the
      rest. */
  lemma {:induction false} ParseGroupsConcat(a: seq<string>, b: seq<string>, search: string)
    requires |a| % 6 == 0
    ensures ParseGroups(a + b, search)
         == Run(ParseGroups(a, search).out + ParseGroups(b, search).out, ParseGroups(b, search).thrown)
    decreases |a|
  {
    if a == [] {
      assert a + b == b;
    } else {
      assert (a + b)[1] == a[1] && (a + b)[5] == a[5];
      assert (a + b)[6..] == a[6..] + b;
      ParseGroupsConcat(a[6..], b, search);
    }
  }

  /** With an incomplete last group, what is printed is what the complete
      groups print. */
  lemma ParseIncomplete(words: seq<string>, search: string)
    ensures ParseGroups(words, search).out == ParseGroups(words[..6 * (|words| / 6)], search).out
  {
    var m := 6 * (|words| / 6);
    var a, b := words[..m], words[m..];
    assert words == a + b;
    ParseGroupsConcat(a, b, search);
    assert ParseGroups(b, search).out == [];
  }

  // ------------------------------------------------------ DecompressFile

  /** `DecompressFile` over the words of the two files: `parseFile` for
      each code in turn, the first exception ending the run. */
  function DecompressWords(statWords: seq<string>, codes: seq<string>): (r: Run)
    ensures r.thrown.Some? <==> codes != [] && |statWords| % 6 != 0
    ensures r.thrown.Some? ==> r.out == ParseGroups(statWords, codes[0]).out
    decreases |codes|
  {
    if codes == [] then Run([], None)
    else
      var first := ParseGroups(statWords, codes[0]);
      if first.thrown.Some? then first
      else
        var rest := DecompressWords(statWords, codes[1..]);
        Run(first.out + rest.out, rest.thrown)
  }

  /** `DecompressFile(file1, file2)`. */
  function DecompressFile(statText: string, compressed: string): Run {
    DecompressWords(ScanWords(statText), ScanWords(compressed))
  }

  // ---------------------------------------------------- the statistics file

  /** The statistics file's text: each line followed by a line separator. */
  function StatText(lines: seq<string>): string {
    if lines == [] then [] else lines[0] + ['\n'] + StatText(lines[1..])
  }

  lemma {:induction false} StatTextConcat(a: seq<string>, b: seq<string>)
    ensures StatText(a + b) == StatText(a) + StatText(b)
  {
    ConsConcat(a, b);
    if a != [] {
      StatTextConcat(a[1..], b);
    }
  }

  /** The words of whole lines end with their last line. */
  lemma {:induction false} StatTextTokens(a: seq<string>, y: string)
    ensures Tokens(StatText(a) + y) == Tokens(StatText(a)) + Tokens(y)
  {
    if a == [] {
      assert StatText(a) + y == y;
    } else {
      var rest := StatText(a[1..]);
      assert StatText(a) + y == a[0] + ['\n'] + (rest + y);
      TokensSplitAt(a[0], '\n', rest + y, []);
      TokensSplitAt(a[0], '\n', rest, []);
      StatTextTokens(a[1..], y);
    }
  }

  /** The characters of the line for (character, count, code). */
  lemma LineDelimiters(ch: char, freq: int, code: string)
    requires !ExtraScannerSpace(ch) && SameDelimiters(code)
    ensures SameDelimiters(FormatStatLine(ch, freq, code))
  {
    var f := IntToDecimal(freq);
    DecimalChars(freq);
    assert SameDelimiters(f) by {
      forall c | c in f ensures !ExtraScannerSpace(c) {
        var i :| 0 <= i < |f| && f[i] == c;
      }
    }
    assert SameDelimiters("Node: ") && SameDelimiters(" Freq: ") && SameDelimiters(" Code: ");
  }

  /** No leaf character is white space to the scanner alone. */
  predicate ScanPrintable(t: Tree) {
    forall c | c in LeafChars(t) :: !ExtraScannerSpace(c)
  }

  lemma {:induction false} StatTextDelimiters(t: Tree, code: Bits)
    requires ScanPrintable(t)
    ensures SameDelimiters(StatText(StatPrint(t, code, JoinChar)))
  {
    match t
    case Leaf(c, f) =>
      assert c in LeafChars(t) by { assert Leaves(t)[0].0 == c; }
      if c != JoinChar {
        LineDelimiters(c, f, CodeString(code));
        assert StatText(StatPrint(t, code, JoinChar)) == FormatStatLine(c, f, CodeString(code)) + ['\n'];
      }
    case Node(_, l, r) =>
      LeafCharsOfNode(t);
      StatTextDelimiters(l, code + [false]);
      StatTextDelimiters(r, code + [true]);
      StatPrintNode(t, code);
      StatTextConcat(StatPrint(l, code + [false], JoinChar), StatPrint(r, code + [true], JoinChar));
  }

  /** The characters of the entries whose code string is `s`, in order: what
      a search for `s` prints. */
  function Matches(entries: seq<(char, Bits)>, s: string): string {
    if entries == [] then []
    else (if CodeString(entries[0].1) == s then [entries[0].0] else []) + Matches(entries[1..], s)
  }

  lemma {:induction false} MatchesConcat(a: seq<(char, Bits)>, b: seq<(char, Bits)>, s: string)
    ensures Matches(a + b, s) == Matches(a, s) + Matches(b, s)
  {
    ConsConcat(a, b);
    if a != [] {
      MatchesConcat(a[1..], b, s);
    }
  }

  /** Searching the statistics file: the file of a tree whose leaves carry
      no other white space than ' ', and whose codes are not empty, is
      whole groups of six words, and a search prints the characters of the
      leaf lines with that code, in leaf order. */
  lemma {:induction false} StatWordsParse(t: Tree, code: Bits, s: string)
    requires Printable(t) && (t.Node? || code != [])
    ensures |Tokens(StatText(StatPrint(t, code, JoinChar)))| % 6 == 0
    ensures ParseGroups(Tokens(StatText(StatPrint(t, code, JoinChar))), s)
         == Run(Matches(WithoutSpace(SetCode(t, code)), s), None)
  {
    match t
    case Leaf(c, f) =>
      LeafWordsParse(c, f, code, s);
    case Node(_, l, r) =>
      PrintableChildren(t);
      StatWordsParse(l, code + [false], s);
      StatWordsParse(r, code + [true], s);
      StatWordsNode(t, code, s);
  }

  /** The step of `StatWordsParse` at a node, from its children. */
  lemma StatWordsNode(t: Tree, code: Bits, s: string)
    requires t.Node?
    requires |Tokens(StatText(StatPrint(t.left, code + [false], JoinChar)))| % 6 == 0
    requires |Tokens(StatText(StatPrint(t.right, code + [true], JoinChar)))| % 6 == 0
    requires ParseGroups(Tokens(StatText(StatPrint(t.left, code + [false], JoinChar))), s)
          == Run(Matches(WithoutSpace(SetCode(t.left, code + [false])), s), None)
    requires ParseGroups(Tokens(StatText(StatPrint(t.right, code + [true], JoinChar))), s)
          == Run(Matches(WithoutSpace(SetCode(t.right, code + [true])), s), None)
    ensures |Tokens(StatText(StatPrint(t, code, JoinChar)))| % 6 == 0
    ensures ParseGroups(Tokens(StatText(StatPrint(t, code, JoinChar))), s)
         == Run(Matches(WithoutSpace(SetCode(t, code)), s), None)
  {
    StatPrintNode(t, code);
    SetCodeNode(t, code);
    StatWordsJoin(StatPrint(t.left, code + [false], JoinChar), StatPrint(t.right, code + [true], JoinChar),
                  SetCode(t.left, code + [false]), SetCode(t.right, code + [true]), s);
  }


  /** The search over two runs of lines, each of which parses as the
      search over its entries. */
  lemma StatWordsJoin(a: seq<string>, b: seq<string>, ea: seq<(char, Bits)>, eb: seq<(char, Bits)>, s: string)
    requires |Tokens(StatText(a))| % 6 == 0 && |Tokens(StatText(b))| % 6 == 0
    requires ParseGroups(Tokens(StatText(a)), s) == Run(Matches(WithoutSpace(ea), s), None)
    requires ParseGroups(Tokens(StatText(b)), s) == Run(Matches(WithoutSpace(eb), s), None)
    ensures |Tokens(StatText(a + b))| % 6 == 0
    ensures ParseGroups(Tokens(StatText(a + b)), s) == Run(Matches(WithoutSpace(ea + eb), s), None)
  {
    StatWordsConcat(a, b, s);
    WithoutSpaceConcat(ea, eb);
    MatchesConcat(WithoutSpace(ea), WithoutSpace(eb), s);
  }

  lemma LeafWordsParse(c: char, f: int, code: Bits, s: string)
    requires Printable(Leaf(c, f)) && code != []
    ensures |Tokens(StatText(StatPrint(Leaf(c, f), code, JoinChar)))| % 6 == 0
    ensures ParseGroups(Tokens(StatText(StatPrint(Leaf(c, f), code, JoinChar))), s)
         == Run(Matches(WithoutSpace(SetCode(Leaf(c, f), code)), s), None)
  {
    assert c in LeafChars(Leaf(c, f)) by { assert Leaves(Leaf(c, f))[0].0 == c; }
    assert [(c, code)][1..] == [];
    if c != JoinChar {
      var line := FormatStatLine(c, f, CodeString(code));
      assert StatText(StatPrint(Leaf(c, f), code, JoinChar)) == line + ['\n'] + [];
      TokensSplitAt(line, '\n', [], []);
      FormatFields(c, f, CodeString(code));
      ParseOneGroup(Tokens(line), s);
    }
  }

  /** The words of two runs of lines, the first whole groups, are searched
      one run after the other. */
  lemma StatWordsConcat(a: seq<string>, b: seq<string>, s: string)
    requires |Tokens(StatText(a))| % 6 == 0
    ensures |Tokens(StatText(a + b))| == |Tokens(StatText(a))| + |Tokens(StatText(b))|
    ensures ParseGroups(Tokens(StatText(a + b)), s)
         == Run(ParseGroups(Tokens(StatText(a)), s).out + ParseGroups(Tokens(StatText(b)), s).out,
                ParseGroups(Tokens(StatText(b)), s).thrown)
  {
    StatTextConcat(a, b);
    StatTextTokens(a, StatText(b));
    ParseGroupsConcat(Tokens(StatText(a)), Tokens(StatText(b)), s);
  }

  lemma PrintableChildren(t: Tree)
    requires t.Node? && Printable(t)
    ensures Printable(t.left) && Printable(t.right)
  {
    LeafCharsOfNode(t);
  }

  // -------------------------------------------------------- searching codes

  /** What a search for the code `w` finds, read off the tree from the node
      `t` whose code is `code`: the character of the leaf the path ends at,
      unless the path ends elsewhere or at a leaf for ' ', whose line is
      never written. */
  function Reached(t: Tree, code: Bits, w: Bits): string {
    if !IsPrefix(code, w) then []
    else match Follow(t, w[|code|..])
      case Some(Leaf(c, _)) => if c != JoinChar then [c] else []
      case _ => []
  }

  lemma CodeStringsEqual(a: Bits, b: Bits)
    ensures CodeString(a) == CodeString(b) <==> a == b
  {
    if CodeString(a) == CodeString(b) {
      CodeStringInjective(a, b);
    }
  }

  /** No entry under the prefix p has a code outside it. */
  lemma {:induction false} NoMatchOutside(entries: seq<(char, Bits)>, p: Bits, w: Bits)
    requires forall k | 0 <= k < |entries| :: IsPrefix(p, entries[k].1)
    requires !IsPrefix(p, w)
    ensures Matches(entries, CodeString(w)) == []
  {
    if entries != [] {
      CodeStringsEqual(entries[0].1, w);
      assert forall k | 0 <= k < |entries[1..]| :: entries[1..][k] == entries[k + 1];
      NoMatchOutside(entries[1..], p, w);
    }
  }

  lemma WithoutSpacePrefixed(writes: seq<(char, Bits)>, p: Bits)
    requires forall k | 0 <= k < |writes| :: IsPrefix(p, writes[k].1)
    ensures forall k | 0 <= k < |WithoutSpace(writes)| :: IsPrefix(p, WithoutSpace(writes)[k].1)
  {
    forall k | 0 <= k < |WithoutSpace(writes)| ensures IsPrefix(p, WithoutSpace(writes)[k].1) {
      var x := WithoutSpace(writes)[k];
      WithoutSpaceMembers(writes, x);
      var j :| 0 <= j < |writes| && writes[j] == x;
    }
  }

  /** Below a join, a path that goes on into a child reaches what it
      reaches from that child. */
  lemma ReachedChild(t: Tree, code: Bits, w: Bits, b: bool)
    requires t.Node? && IsPrefix(code + [b], w)
    ensures Reached(t, code, w) == Reached(if b then t.right else t.left, code + [b], w)
  {
    var n := |code|;
    assert w[..n + 1] == code + [b] && w[n] == b;
    assert w[..n] == code;
    assert w[n..][0] == b && w[n..][1..] == w[n + 1..];
  }

  lemma PrefixGoesOn(code: Bits, w: Bits)
    ensures IsPrefix(code, w) && |w| > |code| ==> IsPrefix(code + [false], w) || IsPrefix(code + [true], w)
  {
    var n := |code|;
    if IsPrefix(code, w) && |w| > n {
      assert w[..n + 1] == w[..n] + [w[n]];
      if w[n] {
        assert IsPrefix(code + [true], w);
      } else {
        assert IsPrefix(code + [false], w);
      }
    }
  }

  /** A path that goes into neither child of a join reaches nothing. */
  lemma ReachedNeither(t: Tree, code: Bits, w: Bits)
    requires t.Node? && !IsPrefix(code + [false], w) && !IsPrefix(code + [true], w)
    ensures Reached(t, code, w) == []
  {
    PrefixGoesOn(code, w);
  }

  lemma ReachedLeaf(c: char, f: int, code: Bits, w: Bits)
    ensures Reached(Leaf(c, f), code, w) == (if w == code && c != JoinChar then [c] else [])
  {
    var n := |code|;
    assert IsPrefix(code, w) && w != code ==> w[n..] != [];
    assert IsPrefix(code, w) && w == code ==> w[n..] == [];
  }

  /** Searching the leaf lines for the code string of a path prints
      exactly what the path reaches: one character for the code of a leaf
      other than ' ', nothing for any other path. */
  lemma {:induction false} MatchesFollow(t: Tree, code: Bits, w: Bits)
    ensures Matches(WithoutSpace(SetCode(t, code)), CodeString(w)) == Reached(t, code, w)
  {
    match t
    case Leaf(c, f) =>
      MatchesFollowLeaf(c, f, code, w);
    case Node(_, l, r) =>
      if IsPrefix(code + [false], w) {
        MatchesFollow(l, code + [false], w);
      }
      if IsPrefix(code + [true], w) {
        MatchesFollow(r, code + [true], w);
      }
      MatchesFollowNode(t, code, w);
  }

  /** `MatchesFollow` at a leaf: its one line matches exactly its own code. */
  lemma MatchesFollowLeaf(c: char, f: int, code: Bits, w: Bits)
    ensures Matches(WithoutSpace(SetCode(Leaf(c, f), code)), CodeString(w)) == Reached(Leaf(c, f), code, w)
  {
    assert SetCode(Leaf(c, f), code)[1..] == [];
    assert [(c, code)][1..] == [];
    CodeStringsEqual(code, w);
    ReachedLeaf(c, f, code, w);
  }

  /** `MatchesFollow` at a node, given it for the child the path enters:
      only the lines below that child can match. */
  lemma MatchesFollowNode(t: Tree, code: Bits, w: Bits)
    requires t.Node?
    requires IsPrefix(code + [false], w) ==>
      Matches(WithoutSpace(SetCode(t.left, code + [false])), CodeString(w)) == Reached(t.left, code + [false], w)
    requires IsPrefix(code + [true], w) ==>
      Matches(WithoutSpace(SetCode(t.right, code + [true])), CodeString(w)) == Reached(t.right, code + [true], w)
    ensures Matches(WithoutSpace(SetCode(t, code)), CodeString(w)) == Reached(t, code, w)
  {
    var L, R := SetCode(t.left, code + [false]), SetCode(t.right, code + [true]);
    SetCodeNode(t, code);
    WithoutSpaceConcat(L, R);
    MatchesConcat(WithoutSpace(L), WithoutSpace(R), CodeString(w));
    WithoutSpacePrefixed(L, code + [false]);
    WithoutSpacePrefixed(R, code + [true]);
    if IsPrefix(code + [false], w) {
      ReachedChild(t, code, w, false);
      BranchesExclusive(code, w);
      NoMatchOutside(WithoutSpace(R), code + [true], w);
    } else if IsPrefix(code + [true], w) {
      ReachedChild(t, code, w, true);
      NoMatchOutside(WithoutSpace(L), code + [false], w);
    } else {
      NoMatchOutside(WithoutSpace(L), code + [false], w);
      NoMatchOutside(WithoutSpace(R), code + [true], w);
      ReachedNeither(t, code, w);
    }
  }

  /** A path cannot extend both code + [false] and code + [true]. */
  lemma BranchesExclusive(code: Bits, w: Bits)
    requires IsPrefix(code + [false], w)
    ensures !IsPrefix(code + [true], w)
  {
    assert w[|code|] == (code + [false])[|code|] == false;
    assert (code + [true])[|code|] == true;
  }

  /** A search for a code `Compress` wrote for c prints c, or nothing when c
      is ' '. */
  lemma WrittenCodeFinds(t: Tree, c: char, k: nat)
    requires k < |CompressCodes(t, c, [])|
    ensures Matches(WithoutSpace(SetCode(t, [])), CodeString(CompressCodes(t, c, [])[k]))
         == (if c == JoinChar then [] else [c])
  {
    var w := CompressCodes(t, c, [])[k];
    CompressReaches(t, c, [], k);
    MatchesFollow(t, [], w);
    assert w[0..] == w;
  }

  // ------------------------------------------------------------ end to end

  /** What the searches for the words print, one after the other. */
  function MatchAll(entries: seq<(char, Bits)>, words: seq<string>): string {
    if words == [] then [] else Matches(entries, words[0]) + MatchAll(entries, words[1..])
  }

  lemma {:induction false} MatchAllConcat(entries: seq<(char, Bits)>, a: seq<string>, b: seq<string>)
    ensures MatchAll(entries, a + b) == MatchAll(entries, a) + MatchAll(entries, b)
  {
    ConsConcat(a, b);
    if a != [] {
      MatchAllConcat(entries, a[1..], b);
    }
  }

  /** When the statistics words answer each search as the entries do,
      decompressing prints what the searches print, and nothing throws. */
  lemma {:induction false} DecompressEach(statWords: seq<string>, entries: seq<(char, Bits)>, words: seq<string>)
    requires forall k | 0 <= k < |words| :: ParseGroups(statWords, words[k]) == Run(Matches(entries, words[k]), None)
    ensures DecompressWords(statWords, words) == Run(MatchAll(entries, words), None)
  {
    if words != [] {
      assert forall k | 0 <= k < |words[1..]| :: words[1..][k] == words[k + 1];
      DecompressEach(statWords, entries, words[1..]);
    }
  }

  /** Codes whose searches all print nothing print nothing together. */
  lemma {:induction false} SilentCodes(entries: seq<(char, Bits)>, ws: seq<Bits>)
    requires forall k | 0 <= k < |ws| :: Matches(entries, CodeString(ws[k])) == []
    ensures MatchAll(entries, Tokenized(ws)) == []
  {
    if ws != [] {
      assert forall k | 0 <= k < |ws[1..]| :: ws[1..][k] == ws[k + 1];
      SilentCodes(entries, ws[1..]);
      var head: seq<string> := if ws[0] == [] then [] else [CodeString(ws[0])];
      assert Tokenized(ws) == head + Tokenized(ws[1..]);
      MatchAllConcat(entries, head, Tokenized(ws[1..]));
      assert head != [] ==> head[1..] == [];
    }
  }

  lemma {:induction false} CodesOfNone(writes: seq<(char, Bits)>, c: char)
    requires forall i | 0 <= i < |writes| :: writes[i].0 != c
    ensures CodesOf(writes, c) == []
  {
    if writes != [] {
      assert forall i | 0 <= i < |writes[1..]| :: writes[1..][i] == writes[i + 1];
      CodesOfNone(writes[1..], c);
    }
  }

  /** In writes with distinct characters, the codes for the character of
      write k are that write's code alone. */
  lemma {:induction false} CodesOfUnique(writes: seq<(char, Bits)>, c: char, k: nat)
    requires k < |writes| && writes[k].0 == c
    requires forall i, j | 0 <= i < j < |writes| :: writes[i].0 != writes[j].0
    ensures CodesOf(writes, c) == [writes[k].1]
  {
    var tail := writes[1..];
    assert forall i | 0 <= i < |tail| :: tail[i] == writes[i + 1];
    if k == 0 {
      CodesOfNone(tail, c);
    } else {
      CodesOfUnique(tail, c, k - 1);
    }
  }

  /** No two pairs carry the same character. */
  predicate DistinctChars(ps: seq<(char, int)>) {
    forall i, j | 0 <= i < j < |ps| :: ps[i].0 != ps[j].0
  }

  lemma Twice(a: seq<(char, int)>, i: nat, j: nat)
    requires i < j < |a|
    ensures a[i] == a[j] ==> multiset(a)[a[i]] >= 2
  {
    assert a == a[..j] + [a[j]] + a[j + 1..];
    assert a[..j][i] == a[i];
  }

  lemma {:induction false} AtMostOnce(b: seq<(char, int)>, x: (char, int))
    requires DistinctChars(b)
    ensures multiset(b)[x] <= 1
  {
    if b != [] {
      var tail := b[1..];
      assert b == [b[0]] + tail;
      assert DistinctChars(tail) by {
        forall i, j | 0 <= i < j < |tail| ensures tail[i].0 != tail[j].0 {
          assert tail[i] == b[i + 1] && tail[j] == b[j + 1];
        }
      }
      AtMostOnce(tail, x);
      assert b[0] == x ==> x !in tail by {
        forall i | 0 <= i < |tail| ensures tail[i].0 != b[0].0 {
          assert tail[i] == b[i + 1];
        }
      }
    }
  }

  lemma DistinctPair(b: seq<(char, int)>, x: (char, int), y: (char, int))
    requires DistinctChars(b) && x in multiset(b) && y in multiset(b) && x != y
    ensures x.0 != y.0
  {
    var p :| 0 <= p < |b| && b[p] == x;
    var q :| 0 <= q < |b| && b[q] == y;
    if p < q {
      assert b[p].0 != b[q].0;
    } else {
      assert b[q].0 != b[p].0;
    }
  }

  /** A bag of pairs with distinct characters stays so in any order. */
  lemma DistinctFromBag(a: seq<(char, int)>, b: seq<(char, int)>)
    requires multiset(a) == multiset(b) && DistinctChars(b)
    ensures DistinctChars(a)
  {
    forall i, j | 0 <= i < j < |a| ensures a[i].0 != a[j].0 {
      Twice(a, i, j);
      AtMostOnce(b, a[i]);
      assert a[i] != a[j];
      assert a[i] in multiset(a) && a[j] in multiset(a);
      DistinctPair(b, a[i], a[j]);
    }
  }

  /** With distinct leaf characters, the one code of a leaf's character is
      that leaf's code, and under a join it is not empty. */
  lemma LeafCodeUnique(t: Tree, c: char, k: nat)
    requires t.Node? && DistinctChars(Leaves(t))
    requires k < |Leaves(t)| && Leaves(t)[k].0 == c
    ensures CodesOf(SetCode(t, []), c) == [SetCode(t, [])[k].1]
    ensures SetCode(t, [])[k].1 != []
  {
    CodesOfUnique(SetCode(t, []), c, k);
  }

  /** The codes written for ' ' are searched in vain. */
  lemma SpaceSearched(t: Tree)
    ensures MatchAll(WithoutSpace(SetCode(t, [])), Tokenized(CompressCodes(t, JoinChar, []))) == []
  {
    var E := WithoutSpace(SetCode(t, []));
    var ws := CompressCodes(t, JoinChar, []);
    forall k | 0 <= k < |ws| ensures Matches(E, CodeString(ws[k])) == [] {
      WrittenCodeFinds(t, JoinChar, k);
    }
    SilentCodes(E, ws);
  }

  lemma OneCodeSearched(entries: seq<(char, Bits)>, w: Bits, c: char)
    requires w != [] && Matches(entries, CodeString(w)) == [c]
    ensures MatchAll(entries, Tokenized([w])) == [c]
  {
    assert [w][1..] == [];
    assert Tokenized([w]) == [CodeString(w)];
    assert [CodeString(w)][1..] == [];
  }

  /** The one code written for a leaf's character finds that character. */
  lemma LeafSearched(t: Tree, c: char, k: nat)
    requires t.Node? && DistinctChars(Leaves(t))
    requires c != JoinChar && k < |Leaves(t)| && Leaves(t)[k].0 == c
    ensures MatchAll(WithoutSpace(SetCode(t, [])), Tokenized(CompressCodes(t, c, []))) == [c]
  {
    LeafCodeUnique(t, c, k);
    CompressLeafOrder(t, c, []);
    var w := SetCode(t, [])[k].1;
    assert CompressCodes(t, c, []) == [w];
    WrittenCodeFinds(t, c, 0);
    OneCodeSearched(WithoutSpace(SetCode(t, [])), w, c);
  }

  /** One character's codes, searched: the character itself when it is a
      leaf's, nothing for ' '. */
  lemma CharSearched(t: Tree, c: char)
    requires t.Node? && DistinctChars(Leaves(t))
    requires c == JoinChar || c in LeafChars(t)
    ensures MatchAll(WithoutSpace(SetCode(t, [])), Tokenized(CompressCodes(t, c, [])))
         == (if c == JoinChar then [] else [c])
  {
    if c == JoinChar {
      SpaceSearched(t);
    } else {
      var k :| 0 <= k < |Leaves(t)| && Leaves(t)[k].0 == c;
      LeafSearched(t, c, k);
    }
  }

  /** Compressing a text of leaf characters and spaces and searching for
      every word of the result prints the text without its spaces. */
  lemma {:induction false} TextSearched(t: Tree, s: string)
    requires t.Node? && DistinctChars(Leaves(t))
    requires forall i | 0 <= i < |s| :: !IsTerminator(s[i]) && (s[i] == JoinChar || s[i] in LeafChars(t))
    ensures MatchAll(WithoutSpace(SetCode(t, [])), Tokenized(CompressedCodes(t, s))) == Kept(s)
  {
    if s != [] {
      var E := WithoutSpace(SetCode(t, []));
      assert forall i | 0 <= i < |s[1..]| :: s[1..][i] == s[i + 1];
      TextSearched(t, s[1..]);
      CharSearched(t, s[0]);
      TokenizedConcat(CompressCodes(t, s[0], []), CompressedCodes(t, s[1..]));
      MatchAllConcat(E, Tokenized(CompressCodes(t, s[0], [])), Tokenized(CompressedCodes(t, s[1..])));
    }
  }

  lemma {:induction false} KeptStrip(text: string)
    ensures Kept(StripTerminators(text)) == Kept(text)
  {
    if text != [] {
      KeptStrip(text[1..]);
      if IsTerminator(text[0]) {
        assert StripTerminators(text) == StripTerminators(text[1..]);
      } else {
        var rest := StripTerminators(text[1..]);
        assert ([text[0]] + rest)[0] == text[0] && ([text[0]] + rest)[1..] == rest;
      }
    }
  }

  /** The text characters whose statistics line or codes would not survive
      the scanner's word splitting: its whitespace other than the space and
      the line terminators. */
  predicate ScanSpaced(c: char) {
    IsScannerSpace(c) && c != ' ' && !IsTerminator(c)
  }

  /** Text with at least two different characters outside line terminators. */
  predicate TwoKinds(text: string) {
    exists i, j | 0 <= i < |text| && 0 <= j < |text| ::
      !IsTerminator(text[i]) && !IsTerminator(text[j]) && text[i] != text[j]
  }

  /** Counted characters are strictly increasing, so no two are the same. */
  lemma CountedDistinct(counts: seq<int>)
    requires |counts| <= MaxAlphabet
    ensures DistinctChars(CountedEntries(counts))
  {
  }

  /** A tree the earlier `getHTree` builds from the counts of 8-bit text
      carries exactly the characters occurring outside line terminators. */
  lemma LegacyTreeChars(text: string, t: Tree, c: char)
    requires forall i | 0 <= i < |text| :: text[i] as int < Alphabet
    requires BuiltFrom(t, CountedEntries(GetCharFrequencies(text)))
    ensures c in LeafChars(t) <==> c in text && !IsTerminator(c)
  {
    var counts := GetCharFrequencies(text);
    var e := CountedEntries(counts);
    BuiltChars(t, e, c);
    if c as int < Alphabet {
      CountedExactly(text, c);
      assert counts[c as int] > 0 ==> (c, counts[c as int]) in e;
    } else {
      assert c !in text;
    }
  }

  /** The leaves of such a tree have distinct characters that the scanner
      and the split both keep whole. */
  lemma LegacyLeaves(text: string, t: Tree)
    requires forall i | 0 <= i < |text| :: text[i] as int < Alphabet && !ScanSpaced(text[i])
    requires BuiltFrom(t, CountedEntries(GetCharFrequencies(text)))
    ensures Printable(t) && ScanPrintable(t) && DistinctChars(Leaves(t))
  {
    forall c | c in LeafChars(t) ensures c == JoinChar || !IsScannerSpace(c) {
      LegacyTreeChars(text, t, c);
      ScanKeptChar(text, c);
    }
    CountedDistinct(GetCharFrequencies(text));
    DistinctFromBag(Leaves(t), CountedEntries(GetCharFrequencies(text)));
  }

  /** A character of such a text other than a line terminator is ' ' or no
      delimiter of the scanner at all. */
  lemma ScanKeptChar(text: string, c: char)
    requires forall i | 0 <= i < |text| :: !ScanSpaced(text[i])
    requires c in text && !IsTerminator(c)
    ensures c == JoinChar || !IsScannerSpace(c)
  {
    var i :| 0 <= i < |text| && text[i] == c;
    assert !ScanSpaced(text[i]);
  }

  /** A join's tree has two leaves for different characters of the text. */
  lemma JoinedTwoKinds(text: string, t: Tree)
    requires forall i | 0 <= i < |text| :: text[i] as int < Alphabet
    requires BuiltFrom(t, CountedEntries(GetCharFrequencies(text))) && t.Node?
    requires DistinctChars(Leaves(t))
    ensures TwoKinds(text)
  {
    LeavesNonEmpty(t.left);
    LeavesNonEmpty(t.right);
    var a, b := Leaves(t)[0].0, Leaves(t)[|Leaves(t)| - 1].0;
    assert a in LeafChars(t) && b in LeafChars(t);
    LegacyTreeChars(text, t, a);
    LegacyTreeChars(text, t, b);
    var i :| 0 <= i < |text| && text[i] == a;
    var j :| 0 <= j < |text| && text[j] == b;
    assert !IsTerminator(text[i]) && !IsTerminator(text[j]) && text[i] != text[j];
  }

  /** A lone leaf's tree has one character, so the text has one kind. */
  lemma LoneOneKind(text: string, t: Tree)
    requires forall i | 0 <= i < |text| :: text[i] as int < Alphabet
    requires BuiltFrom(t, CountedEntries(GetCharFrequencies(text))) && t.Leaf?
    ensures !TwoKinds(text)
  {
    forall i | 0 <= i < |text| && !IsTerminator(text[i]) ensures text[i] == t.ch {
      LegacyTreeChars(text, t, text[i]);
    }
  }

  /** With a join at the root, the earlier codec gives back the text
      without its spaces and line terminators, and throws nothing. */
  lemma LegacyJoined(text: string, t: Tree)
    requires forall i | 0 <= i < |text| :: text[i] as int < Alphabet && !ScanSpaced(text[i])
    requires BuiltFrom(t, CountedEntries(GetCharFrequencies(text))) && t.Node?
    ensures TwoKinds(text)
    ensures DecompressFile(StatText(StatLines(t)), CompressedFile(t, text)) == Run(Kept(text), None)
  {
    LegacyLeaves(text, t);
    JoinedTwoKinds(text, t);
    var E := WithoutSpace(SetCode(t, []));
    var statText := StatText(StatLines(t));
    StatTextDelimiters(t, []);
    SameWords(statText, []);
    var statWords := Tokens(statText);
    var s := StripTerminators(text);
    var codes := CompressedCodes(t, s);
    WrittenWords(codes);
    var words := Tokenized(codes);
    EveryWordParses(t, statWords, words);
    DecompressEach(statWords, E, words);
    StrippedInTree(text, t);
    TextSearched(t, s);
    KeptStrip(text);
  }

  /** Each word of the compressed file parses against the statistics
      words as the search over the leaf lines prints. */
  lemma EveryWordParses(t: Tree, statWords: seq<string>, words: seq<string>)
    requires Printable(t) && t.Node?
    requires statWords == Tokens(StatText(StatLines(t)))
    ensures forall k | 0 <= k < |words| ::
      ParseGroups(statWords, words[k]) == Run(Matches(WithoutSpace(SetCode(t, [])), words[k]), None)
  {
    forall k | 0 <= k < |words|
      ensures ParseGroups(statWords, words[k]) == Run(Matches(WithoutSpace(SetCode(t, [])), words[k]), None)
    {
      StatWordsParse(t, [], words[k]);
    }
  }

  /** Every character of the text without its terminators is ' ' or a leaf. */
  lemma StrippedInTree(text: string, t: Tree)
    requires forall i | 0 <= i < |text| :: text[i] as int < Alphabet
    requires BuiltFrom(t, CountedEntries(GetCharFrequencies(text)))
    ensures forall i | 0 <= i < |StripTerminators(text)| ::
      !IsTerminator(StripTerminators(text)[i])
      && (StripTerminators(text)[i] == JoinChar || StripTerminators(text)[i] in LeafChars(t))
  {
    var s := StripTerminators(text);
    forall i | 0 <= i < |s| ensures !IsTerminator(s[i]) && (s[i] == JoinChar || s[i] in LeafChars(t)) {
      StripChars(text, s[i]);
      LegacyTreeChars(text, t, s[i]);
    }
  }

  lemma {:induction false} LeafCodesSilent(t: Tree, s: string)
    requires t.Leaf?
    ensures Tokenized(CompressedCodes(t, s)) == []
  {
    if s != [] {
      LeafCodesSilent(t, s[1..]);
      TokenizedConcat(CompressCodes(t, s[0], []), CompressedCodes(t, s[1..]));
    }
  }

  /** With a lone leaf at the root, its code is empty: the compressed file
      holds only spaces and nothing is printed. */
  lemma LegacyLone(text: string, t: Tree)
    requires t.Leaf?
    ensures DecompressFile(StatText(StatLines(t)), CompressedFile(t, text)) == Run([], None)
  {
    var codes := CompressedCodes(t, StripTerminators(text));
    LeafCodesSilent(t, StripTerminators(text));
    WrittenWords(codes);
  }

  lemma AlphabetOfText(text: string)
    ensures (forall i | 0 <= i < |StripTerminators(text)| :: StripTerminators(text)[i] as int < Alphabet)
        <==> (forall i | 0 <= i < |text| :: text[i] as int < Alphabet)
  {
    var s := StripTerminators(text);
    forall i | 0 <= i < |text| ensures (forall k | 0 <= k < |s| :: s[k] as int < Alphabet) ==> text[i] as int < Alphabet {
      if !IsTerminator(text[i]) {
        StripChars(text, text[i]);
        var k :| 0 <= k < |s| && s[k] == text[i];
      }
    }
    forall k | 0 <= k < |s| ensures (forall i | 0 <= i < |text| :: text[i] as int < Alphabet) ==> s[k] as int < Alphabet {
      StripChars(text, s[k]);
      var i :| 0 <= i < |text| && text[i] == s[k];
    }
  }

  /** On 8-bit text the earlier `charFreq` counts what `getCharFrequencies`
      counts. */
  lemma LegacyCounts(text: string)
    requires CharFreq(text).Ok?
    ensures CharFreq(text).value == GetCharFrequencies(text)
  {
    InRangeWhole(StripTerminators(text));
  }

  /** Counting with `charFreq` throws exactly for a character of 256 or
      more; otherwise it yields the counts of the text, and those are all
      zero exactly when the text is line terminators only. */
  lemma LegacyOutcomes(text: string)
    ensures CharFreq(text).Thrown? <==> exists i | 0 <= i < |text| :: text[i] as int >= Alphabet
    ensures CharFreq(text).Ok? ==> CharFreq(text).value == GetCharFrequencies(text)
    ensures CharFreq(text).Ok? ==>
      ((forall i | 0 <= i < |CharFreq(text).value| :: CharFreq(text).value[i] <= 0) <==> StripTerminators(text) == [])
  {
    AlphabetOfText(text);
    if CharFreq(text).Ok? {
      LegacyCounts(text);
      var counts := CharFreq(text).value;
      if StripTerminators(text) != [] {
        FirstCounted(text);
        assert counts[CountedEntries(counts)[0].0 as int] > 0;
      }
    }
  }

  /** The earlier `HuffmanCode` flow: count with `charFreq`, build with
      `getHTree`, `Compress` into the compressed file, `printStats` into
      the statistics file, then `DecompressFile` from the two. A character
      of 256 or more throws from the counting; a text of line terminators
      only throws from the building. Otherwise nothing throws, and what is
      printed is the text without spaces and line terminators when it has
      two kinds of character, and nothing when it has one. */
  method CompressDecompressLegacy(text: string) returns (r: Result<Run>)
    requires forall i | 0 <= i < |text| :: !ScanSpaced(text[i])
    ensures r.Thrown? <==> (exists i | 0 <= i < |text| :: text[i] as int >= Alphabet) || StripTerminators(text) == []
    ensures (exists i | 0 <= i < |text| :: text[i] as int >= Alphabet) ==> r == Thrown(IndexOutOfBounds)
    ensures (forall i | 0 <= i < |text| :: text[i] as int < Alphabet) && StripTerminators(text) == []
         ==> r == Thrown(NoSuchElement)
    ensures r.Ok? ==> r.value == Run(if TwoKinds(text) then Kept(text) else [], None)
  {
    var counted := CharFreq(text);
    LegacyOutcomes(text);
    if counted.Thrown? {
      r := Thrown(counted.error);
      return;
    }
    var counts := counted.value;
    var built := GetHTreeLegacy(counts);
    if built.Thrown? {
      r := Thrown(built.error);
      return;
    }
    var t := built.value;
    r := Ok(DecompressFile(StatText(StatLines(t)), CompressedFile(t, text)));
    if t.Node? {
      LegacyJoined(text, t);
    } else {
      LoneOneKind(text, t);
      LegacyLone(text, t);
    }
  }
}
