/** Compression and decompression end to end, as `run` and
    `DecompressFile` chain the steps: count the characters, build the tree,
    encode and pack; then unpack and decode with the table of leaf codes. */
module Pipeline {
  import opened Base
  import opened Trees
  import opened Frequencies
  import opened Builder
  import opened Codes
  import opened Codec
  import opened Packing
  import opened StatFile

  // ------------------------------------------------ facts about the counts

  lemma {:induction false} StripChars(s: string, c: char)
    ensures c in StripTerminators(s) <==> c in s && !IsTerminator(c)
  {
    if s != [] {
      StripChars(s[1..], c);
      assert s == [s[0]] + s[1..];
    }
  }

  lemma InRangeWhole(s: string)
    requires forall i | 0 <= i < |s| :: s[i] as int < Alphabet
    ensures InRangePrefix(s) == s
  {
  }

  lemma {:induction false} OccurrencesPositive(s: string, c: char)
    ensures Occurrences(s, c) > 0 <==> c in s
  {
    if s != [] {
      OccurrencesPositive(s[1..], c);
      assert s == [s[0]] + s[1..];
    }
  }

  lemma {:induction false} StripInRange(s: string)
    requires forall i | 0 <= i < |s| :: s[i] as int < Alphabet
    ensures forall i | 0 <= i < |StripTerminators(s)| :: StripTerminators(s)[i] as int < Alphabet
  {
    if s != [] {
      StripInRange(s[1..]);
    }
  }

  /** For text of 8-bit characters, a character is counted exactly when it
      occurs outside the line terminators. */
  lemma CountedExactly(text: string, c: char)
    requires forall i | 0 <= i < |text| :: text[i] as int < Alphabet
    requires c as int < Alphabet
    ensures GetCharFrequencies(text)[c as int] > 0 <==> c in text && !IsTerminator(c)
  {
    var s := StripTerminators(text);
    StripInRange(text);
    InRangeWhole(s);
    OccurrencesPositive(s, c);
    StripChars(text, c);
  }

  /** The characters a tree built from `entries` carries on its leaves. */
  lemma BuiltChars(t: Tree, entries: seq<(char, int)>, c: char)
    requires LeafBag(t) == multiset(entries)
    ensures c in LeafChars(t) <==> exists k :: 0 <= k < |entries| && entries[k].0 == c
    ensures |Leaves(t)| == |entries|
  {
    assert |multiset(Leaves(t))| == |multiset(entries)|;
    if c in LeafChars(t) {
      var i :| 0 <= i < |Leaves(t)| && Leaves(t)[i].0 == c;
      assert Leaves(t)[i] in multiset(entries);
      var k :| 0 <= k < |entries| && entries[k] == Leaves(t)[i];
    }
    if exists k :: 0 <= k < |entries| && entries[k].0 == c {
      var k :| 0 <= k < |entries| && entries[k].0 == c;
      assert entries[k] in multiset(Leaves(t));
      var i :| 0 <= i < |Leaves(t)| && Leaves(t)[i] == entries[k];
    }
  }

  /** The characters of the queued pairs: the positive counts and 0. */
  lemma SentinelChars(counts: seq<int>, c: char)
    requires |counts| <= MaxAlphabet
    ensures (exists k :: 0 <= k < |SentinelEntries(counts)| && SentinelEntries(counts)[k].0 == c)
        <==> c == EndChar || (c as int < |counts| && counts[c as int] > 0)
  {
    if c == EndChar || (c as int < |counts| && counts[c as int] > 0) {
      SentinelHas(counts, c);
    }
    if exists k :: 0 <= k < |SentinelEntries(counts)| && SentinelEntries(counts)[k].0 == c {
      var k :| 0 <= k < |SentinelEntries(counts)| && SentinelEntries(counts)[k].0 == c;
      SentinelOnly(counts, k);
    }
  }

  lemma SentinelHas(counts: seq<int>, c: char)
    requires |counts| <= MaxAlphabet
    requires c == EndChar || (c as int < |counts| && counts[c as int] > 0)
    ensures exists k :: 0 <= k < |SentinelEntries(counts)| && SentinelEntries(counts)[k].0 == c
  {
    var e := CountedEntries(counts);
    var s := SentinelEntries(counts);
    if c as int < |counts| && counts[c as int] > 0 {
      assert (c as int as char, counts[c as int]) in e;
      var k :| 0 <= k < |e| && e[k] == (c, counts[c as int]);
      assert s[k] == e[k];
    } else {
      assert s[|e|] == (EndChar, 1);
    }
  }

  lemma SentinelOnly(counts: seq<int>, k: nat)
    requires |counts| <= MaxAlphabet && k < |SentinelEntries(counts)|
    ensures SentinelEntries(counts)[k].0 == EndChar
         || (SentinelEntries(counts)[k].0 as int < |counts| && counts[SentinelEntries(counts)[k].0 as int] > 0)
  {
    var e := CountedEntries(counts);
    var s := SentinelEntries(counts);
    if k < |e| {
      assert s[k] == e[k];
    } else {
      assert s[k] == (EndChar, 1);
    }
  }

  /** A tree built from the counts of 8-bit text carries exactly character
      0 and the characters occurring outside line terminators. */
  lemma TreeChars(text: string, t: Tree, c: char)
    requires forall i | 0 <= i < |text| :: text[i] as int < Alphabet
    requires BuiltFrom(t, SentinelEntries(GetCharFrequencies(text)))
    ensures c in LeafChars(t) <==> c == EndChar || (c in text && !IsTerminator(c))
  {
    var counts := GetCharFrequencies(text);
    BuiltChars(t, SentinelEntries(counts), c);
    SentinelChars(counts, c);
    if c as int < Alphabet {
      CountedExactly(text, c);
    } else {
      assert c !in text;
    }
  }

  /** Some character is counted exactly when the text is more than line
      terminators. */
  lemma SomethingCounted(text: string)
    requires forall i | 0 <= i < |text| :: text[i] as int < Alphabet
    ensures CountedEntries(GetCharFrequencies(text)) != [] <==> StripTerminators(text) != []
  {
    if StripTerminators(text) != [] {
      FirstCounted(text);
    } else {
      NothingCounted(text);
    }
  }

  lemma FirstCounted(text: string)
    requires forall i | 0 <= i < |text| :: text[i] as int < Alphabet
    requires StripTerminators(text) != []
    ensures CountedEntries(GetCharFrequencies(text)) != []
  {
    var counts := GetCharFrequencies(text);
    var c := StripTerminators(text)[0];
    StripChars(text, c);
    CountedExactly(text, c);
    assert (c as int as char, counts[c as int]) in CountedEntries(counts);
  }

  lemma NothingCounted(text: string)
    requires StripTerminators(text) == []
    ensures CountedEntries(GetCharFrequencies(text)) == []
  {
    var counts := GetCharFrequencies(text);
    assert InRangePrefix(StripTerminators(text)) == [];
    NoPositiveCounts(counts);
  }

  /** A tree is a lone leaf exactly when it was built from one pair, and is
      then that pair. */
  lemma LoneLeaf(t: Tree, entries: seq<(char, int)>)
    requires LeafBag(t) == multiset(entries)
    ensures t.Leaf? <==> |entries| == 1
    ensures t.Leaf? ==> t == Leaf(entries[0].0, entries[0].1)
  {
    assert |multiset(Leaves(t))| == |multiset(entries)|;
    if t.Node? {
      LeavesNonEmpty(t.left);
      LeavesNonEmpty(t.right);
    } else {
      assert multiset(entries) == multiset{(t.ch, t.freq)};
      assert entries[0] in multiset(entries);
    }
  }

  /** The tree has a join exactly when some character is counted; otherwise
      it is the sentinel leaf alone. */
  lemma TreeShape(text: string, t: Tree)
    requires forall i | 0 <= i < |text| :: text[i] as int < Alphabet
    requires BuiltFrom(t, SentinelEntries(GetCharFrequencies(text)))
    ensures t.Node? <==> StripTerminators(text) != []
    ensures t.Leaf? ==> t == Leaf(EndChar, 1)
  {
    var counts := GetCharFrequencies(text);
    SomethingCounted(text);
    LoneLeaf(t, SentinelEntries(counts));
    if CountedEntries(counts) == [] {
      assert SentinelEntries(counts) == [(EndChar, 1)];
    }
  }

  // ------------------------------------------------------------ end to end

  /** The characters of the text that survive compression: everything but
      spaces and line terminators. Decoding in the newer codec further
      stops at the first character 0 (`UpToEnd`). */
  function Kept(text: string): string {
    if text == [] then []
    else if text[0] == JoinChar || IsTerminator(text[0]) then Kept(text[1..])
    else [text[0]] + Kept(text[1..])
  }

  /** A character of the text reaches the bits exactly when it is neither a
      space nor a line terminator. */
  lemma VisibleHead(t: Tree, all: string, c: char)
    requires forall i | 0 <= i < |all| :: all[i] as int < Alphabet
    requires BuiltFrom(t, SentinelEntries(GetCharFrequencies(all)))
    requires c in all
    ensures c != EndOfInput
    ensures c != JoinChar && c in LeafChars(t) <==> c != JoinChar && !IsTerminator(c)
  {
    var i :| 0 <= i < |all| && all[i] == c;
    assert c as int < Alphabet;
    TreeChars(all, t, c);
    TreeCharVisible(c, c in LeafChars(t));
  }

  /** The characters of the tree other than ' ' that occur in the text are
      those that are not line terminators. */
  lemma TreeCharVisible(c: char, inTree: bool)
    requires inTree <==> c == EndChar || !IsTerminator(c)
    ensures c != JoinChar && inTree <==> c != JoinChar && !IsTerminator(c)
  { }

  lemma {:induction false} VisibleIsKept(t: Tree, text: string, all: string)
    requires forall i | 0 <= i < |all| :: all[i] as int < Alphabet
    requires BuiltFrom(t, SentinelEntries(GetCharFrequencies(all)))
    requires forall i | 0 <= i < |text| :: text[i] in all
    ensures Visible(t, text) == Kept(text)
  {
    if text != [] {
      VisibleHead(t, all, text[0]);
      var rest := text[1..];
      assert forall i | 0 <= i < |rest| :: rest[i] in all by {
        forall i | 0 <= i < |rest| ensures rest[i] in all {
          assert rest[i] == text[i + 1];
        }
      }
      VisibleIsKept(t, rest, all);
    }
  }

  /** A table whose only key is the empty code never matches: the decoder
      appends a bit before it looks. */
  lemma {:induction false} EmptyKeyNeverMatches(m: map<string, char>, bits: Bits, code: string)
    requires forall k | k in m :: k == ""
    ensures DecodeFrom(m, bits, code) == Decoded([], false)
    decreases |bits|
  {
    if bits != [] {
      EmptyKeyNeverMatches(m, bits[1..], code + [if bits[0] then '1' else '0']);
    }
  }

  /** Decoding what was packed from a tree with a join. */
  lemma JoinedRoundTrip(text: string, t: Tree, bytes: seq<Byte>)
    requires forall i | 0 <= i < |text| :: text[i] as int < Alphabet
    requires BuiltFrom(t, SentinelEntries(GetCharFrequencies(text))) && t.Node?
    requires Encode(t, text).Ok? && PacksBits(Encode(t, text).value, bytes)
    ensures Decode(CodeTable(t), Unpack(bytes)) == Decoded(UpToEnd(Kept(text)), true)
  {
    var bits := Encode(t, text).value;
    PackUnpack(bits, bytes);
    TreeChars(text, t, EndChar);
    RoundTrip(t, text, Zeros(8 * |bytes| - |bits|));
    VisibleIsKept(t, text, text);
  }

  lemma LoneLeafTable()
    ensures CodeTable(Leaf(EndChar, 1)) == map[[] := EndChar]
  {
    assert SetCode(Leaf(EndChar, 1), []) == [(EndChar, [])];
    assert WithoutSpace([(EndChar, [])]) == [(EndChar, [])];
  }

  /** Decoding what was packed from the sentinel leaf alone: the sentinel
      code is empty, and the empty code is never matched. */
  lemma LoneLeafRoundTrip(text: string, t: Tree, bytes: seq<Byte>)
    requires StripTerminators(text) == [] && t == Leaf(EndChar, 1)
    ensures Decode(CodeTable(t), Unpack(bytes)) == Decoded(UpToEnd(Kept(text)), false)
  {
    LoneLeafTable();
    EmptyKeyNeverMatches(CodeTable(t), Unpack(bytes), "");
    KeptOfTerminators(text);
  }

  /** `run` in compression mode: count, build the tree, encode, pack. The
      bytes written hold the encoder's bits; decoding them with the table
      of the tree's leaf codes gives back the text without its spaces and
      line terminators, up to its first character 0, and ends on the
      sentinel unless the text has nothing to count. */
  method Compress(text: string) returns (t: Tree, bytes: seq<Byte>)
    requires forall i | 0 <= i < |text| :: text[i] as int < Alphabet
    ensures Greedy(InitialQueue(GetCharFrequencies(text)) + [MakeLeaf(1, EndChar)], t)
    ensures BuiltFrom(t, SentinelEntries(GetCharFrequencies(text)))
    ensures Encode(t, text).Ok? && PacksBits(Encode(t, text).value, bytes)
    ensures Decode(CodeTable(t), Unpack(bytes)) == Decoded(UpToEnd(Kept(text)), StripTerminators(text) != [])
  {
    var counts := GetCharFrequencies(text);
    t := GetHTree(counts);
    TreeChars(text, t, EndChar);
    TreeShape(text, t);
    assert Encode(t, text).Ok?;
    bytes := Pack(Encode(t, text).value);
    if t.Node? {
      JoinedRoundTrip(text, t, bytes);
    } else {
      LoneLeafRoundTrip(text, t, bytes);
    }
  }

  lemma {:induction false} KeptOfTerminators(text: string)
    requires StripTerminators(text) == []
    ensures Kept(text) == []
  {
    if text != [] {
      StripChars(text, text[0]);
      assert text[0] !in StripTerminators(text);
      assert StripTerminators(text[1..]) == [] by {
        assert StripTerminators(text) == StripTerminators(text[1..]);
      }
      KeptOfTerminators(text[1..]);
    }
  }

  // ---------------------------------------------------- through the file

  /** `DecompressFile`: the table read from the statistics file, then the
      decoding loop over the bits of the compressed bytes. */
  function DecompressFile(statLines: seq<string>, bytes: seq<Byte>): Decoded {
    Decode(ReadStatFrequency(statLines), Unpack(bytes))
  }

  /** NEL, which `readLine` keeps inside a line (so it is counted and gets a
      leaf) but at which `Scanner.nextLine` ends one. */
  const NextLine: char := '\U{0085}'

  /** The text characters whose statistics line would not read back: `\s`
      characters other than the space and the line terminators, which
      merge into the spaces around them, and NEL, which cuts the line. */
  predicate SpacedChar(c: char) {
    (IsSpace(c) && c != ' ' && !IsTerminator(c)) || c == NextLine
  }

  /** What `Scanner.nextLine` reads of the statistics line of a NEL leaf,
      up to the NEL, has one field, so `parts[5]` throws and reading stops
      there. */
  lemma NextLineCutsStatLine(freq: int, code: string)
    ensures FormatStatLine(NextLine, freq, code)[..6] == "Node: "
    ensures FormatStatLine(NextLine, freq, code)[6] == NextLine
    ensures ParseStatLine("Node: ").Thrown?
  {
    var rest := " Freq: " + IntToDecimal(freq) + " Code: " + code;
    assert FormatStatLine(NextLine, freq, code) == "Node: " + ([NextLine] + rest);
    LabelAlone();
  }

  /** The label alone splits into one field. */
  lemma LabelAlone()
    ensures Split("Node: ") == ["Node:"]
  {
    var head: string := "Node:";
    assert NoSpace(head);
    TokenThenSpace(head, []);
    assert "Node: " == head + ([' '] + []);
    assert Tokens([]) == [];
    assert Tokens("Node: ") == [head];
  }

  lemma PrintableTree(text: string, t: Tree)
    requires forall i | 0 <= i < |text| :: text[i] as int < Alphabet && !SpacedChar(text[i])
    requires BuiltFrom(t, SentinelEntries(GetCharFrequencies(text)))
    ensures Printable(t)
  {
    forall c | c in LeafChars(t) ensures c == JoinChar || !IsSpace(c) {
      TreeChars(text, t, c);
      KeptCharPrintable(text, c);
    }
  }

  /** Character 0, and every character of such a text other than a line
      terminator, is ' ' or not white space at all. */
  lemma KeptCharPrintable(text: string, c: char)
    requires forall i | 0 <= i < |text| :: !SpacedChar(text[i])
    requires c == EndChar || (c in text && !IsTerminator(c))
    ensures c == JoinChar || !IsSpace(c)
  {
    if c != EndChar {
      var i :| 0 <= i < |text| && text[i] == c;
      assert !SpacedChar(text[i]);
    }
  }

  /** The lone sentinel leaf's line has an empty code, so it never reads
      back and the table is empty. */
  lemma LoneLeafFile()
    ensures ReadStatFrequency(StatLines(Leaf(EndChar, 1))) == map[]
  {
    var line := FormatStatLine(EndChar, 1, CodeString([]));
    assert StatLines(Leaf(EndChar, 1)) == [line];
    StatLineRoundTrip(EndChar, 1, CodeString([]));
    ReadOneLine(map[], line);
  }

  /** Compressing, writing the statistics file with the joins skipped, and
      decompressing from that file gives back the text without its spaces
      and line terminators, up to its first character 0, for 8-bit text
      without tabs, vertical tabs, form feeds or NEL. */
  method CompressDecompress(text: string) returns (d: Decoded)
    requires forall i | 0 <= i < |text| :: text[i] as int < Alphabet && !SpacedChar(text[i])
    ensures d == Decoded(UpToEnd(Kept(text)), StripTerminators(text) != [])
  {
    var t, bytes := Compress(text);
    d := DecompressFile(StatLines(t), bytes);
    TreeShape(text, t);
    if t.Node? {
      PrintableTree(text, t);
      StatLinesTable(t);
    } else {
      LoneLeafFile();
      EmptyKeyNeverMatches(map[], Unpack(bytes), "");
      KeptOfTerminators(text);
    }
  }
}
