/** The newer codec's two ends: `createCompressedFile` turning text into a
    bit string (the packing of that string is in Packing), and the loop of
    `DecompressFile` turning bits back into text with the code table read
    from the statistics file. */
module Codec {
  import opened Base
  import opened Trees
  import opened Codes
  import opened Builder

  /** `(char) -1`: what `(char) read()` gives at the end of the input, so
      reading stops at the first such character as well. */
  const EndOfInput: char := '\U{FFFF}'

  /** The bits the encoder appends for one character: the code of the node
      `inOrderSearch` finds for it, or nothing when it finds none. */
  function CodeOf(t: Tree, c: char): Bits {
    match InOrderSearch(t, c, [])
    case Some(w) => w
    case None => []
  }

  /** The codes of the characters read before the end of the input, in
      order. */
  function EncodeChars(t: Tree, text: string): Bits {
    if text == [] || text[0] == EndOfInput then []
    else CodeOf(t, text[0]) + EncodeChars(t, text[1..])
  }

  /** The bit string `createCompressedFile` builds: the codes of the input
      characters, then the code of the sentinel, which is the code `setCode`
      wrote for a leaf carrying character 0. With no node for character
      0 the sentinel lookup is null and dereferencing it throws, so nothing
      is written. */
  function Encode(t: Tree, text: string): (r: Result<Bits>)
    ensures r.Thrown? <==> EndChar !in LeafChars(t) && EndChar != NodeChar(t)
    ensures r.Thrown? ==> r.error == NullPointer
    ensures r.Ok? ==> IsPrefix(EncodeChars(t, text), r.value)
    ensures r.Ok? ==> r.value == EncodeChars(t, text) + CodeOf(t, EndChar)
    ensures r.Ok? ==> (EndChar, r.value[|EncodeChars(t, text)|..]) in SetCode(t, [])
  {
    SearchFindsLeaf(t, EndChar, []);
    match InOrderSearch(t, EndChar, [])
    case Some(w) => Ok(EncodeChars(t, text) + w)
    case None => Thrown(NullPointer)
  }

  /** A character the encoder meets contributes the codes of the leaves
      carrying it, or nothing: it is dropped when no leaf carries it, and a
      space is dropped whenever the tree has a join, since the search stops
      at the root, whose code is empty. */
  lemma CodeOfSpec(t: Tree, c: char)
    ensures c != JoinChar && c in LeafChars(t) ==> (c, CodeOf(t, c)) in SetCode(t, [])
    ensures c != JoinChar && c !in LeafChars(t) ==> CodeOf(t, c) == []
    ensures t.Node? && c == JoinChar ==> CodeOf(t, c) == []
  {
    if c != JoinChar {
      SearchFindsLeaf(t, c, []);
    }
  }

  // ------------------------------------------------------------ decoding

  /** What the decoding loop leaves behind: the characters it printed, and
      whether it returned on the sentinel rather than on running out of
      bits. */
  datatype Decoded = Decoded(output: string, stopped: bool)

  /** The loop of `DecompressFile` with `code` holding the candidate so far:
      each bit is appended as '0' or '1'; when the candidate is a key of the
      table its character is printed and the candidate is reset, except
      that character 0 ends decoding. Running out of bits ends it too,
      silently, whatever the candidate holds. */
  function DecodeFrom(m: map<string, char>, bits: Bits, code: string): Decoded
    decreases |bits|
  {
    if bits == [] then Decoded([], false)
    else
      var code' := code + [if bits[0] then '1' else '0'];
      if code' in m then
        if m[code'] == EndChar then Decoded([], true)
        else
          var d := DecodeFrom(m, bits[1..], "");
          Decoded([m[code']] + d.output, d.stopped)
      else DecodeFrom(m, bits[1..], code')
  }

  function Decode(m: map<string, char>, bits: Bits): Decoded {
    DecodeFrom(m, bits, "")
  }

  /** Decoding stops on its own: whatever the table, it consumes no more
      than the bits it is given, prints at most one character per bit, and
      never prints character 0. */
  lemma {:induction false} DecodeBounds(m: map<string, char>, bits: Bits, code: string)
    ensures |DecodeFrom(m, bits, code).output| <= |bits|
    ensures EndChar !in DecodeFrom(m, bits, code).output
    ensures bits == [] ==> DecodeFrom(m, bits, code) == Decoded([], false)
    decreases |bits|
  {
    if bits != [] {
      var code' := code + [if bits[0] then '1' else '0'];
      if code' in m {
        DecodeBounds(m, bits[1..], "");
      } else {
        DecodeBounds(m, bits[1..], code');
      }
    }
  }

  /** `w` is, in the table, the code of `c` and of nothing shorter: the
      decoder meets no key while it reads the bits of w, then meets w. */
  predicate IsCodeOf(m: map<string, char>, w: Bits, c: char) {
    |w| > 0 && CodeString(w) in m && m[CodeString(w)] == c &&
    forall j | 0 < j < |w| :: CodeString(w[..j]) !in m
  }

  /** What decoding gives once the characters of `s` have been decoded and
      `d` is what the bits after them give: `s` followed by d, cut at the
      first character 0, which ends decoding. */
  function Then(s: string, d: Decoded): Decoded {
    if s == [] then d
    else if s[0] == EndChar then Decoded([], true)
    else
      var rest := Then(s[1..], d);
      Decoded([s[0]] + rest.output, rest.stopped)
  }

  /** The text up to its first character 0. */
  function UpToEnd(s: string): (p: string)
    ensures IsPrefix(p, s) && EndChar !in p
    ensures |p| < |s| ==> s[|p|] == EndChar
  {
    if s == [] || s[0] == EndChar then [] else [s[0]] + UpToEnd(s[1..])
  }

  lemma ThenCons(c: char, s: string, d: Decoded)
    ensures Then([c], Then(s, d)) == Then([c] + s, d)
  {
    assert ([c] + s)[1..] == s;
  }

  lemma {:induction false} ThenStop(s: string)
    ensures Then(s, Decoded([], true)) == Decoded(UpToEnd(s), true)
  {
    if s != [] && s[0] != EndChar {
      ThenStop(s[1..]);
    }
  }

  /** Reading one code: from any point inside `w`, with the bits of w read
      so far as the candidate, decoding reads the rest of w, then prints c
      (or stops, for character 0) and goes on with the following bits. */
  lemma {:induction false} DecodeOneCode(m: map<string, char>, w: Bits, c: char, i: nat, r: Bits)
    requires IsCodeOf(m, w, c) && i < |w|
    ensures DecodeFrom(m, w[i..] + r, CodeString(w[..i])) == Then([c], DecodeFrom(m, r, ""))
    decreases |w| - i
  {
    CodeStep(w, i, r);
    if i + 1 < |w| {
      assert CodeString(w[..i + 1]) !in m;
      DecodeOneCode(m, w, c, i + 1, r);
    }
  }

  /** Reading bit i of `w` followed by `r`: the bit read and the bits left,
      and the candidate code it extends to. */
  lemma CodeStep(w: Bits, i: nat, r: Bits)
    requires i < |w|
    ensures w[i..] + r != [] && (w[i..] + r)[0] == w[i] && (w[i..] + r)[1..] == w[i + 1..] + r
    ensures CodeString(w[..i]) + [if w[i] then '1' else '0'] == CodeString(w[..i + 1])
    ensures i + 1 == |w| ==> w[i + 1..] + r == r && w[..i + 1] == w
  {
    CodeStringSnoc(w[..i], w[i]);
    assert w[..i] + [w[i]] == w[..i + 1];
  }

  // ------------------------------------------------------- the code table

  /** The table `readStatFrequency` builds from (character, code) lines:
      `put(code, character)` for each in turn, a later line replacing an
      earlier one with the same code. */
  function Table(writes: seq<(char, Bits)>): map<string, char>
    decreases |writes|
  {
    if writes == [] then map[]
    else
      var n := |writes| - 1;
      Table(writes[..n])[CodeString(writes[n].1) := writes[n].0]
  }

  /** Every key of the table is the code string of some line. */
  lemma {:induction false} TableKeys(writes: seq<(char, Bits)>, key: string)
    requires key in Table(writes)
    ensures exists x :: x in writes && key == CodeString(x.1)
    decreases |writes|
  {
    var n := |writes| - 1;
    if key != CodeString(writes[n].1) {
      TableKeys(writes[..n], key);
      var x :| x in writes[..n] && key == CodeString(x.1);
      assert x in writes;
    }
  }

  /** No two different lines carry the same code. */
  predicate CodesDetermine(writes: seq<(char, Bits)>) {
    forall x, y | x in writes && y in writes && x.1 == y.1 :: x == y
  }

  /** With each code on one line only, each line's code maps to its own
      character. */
  lemma {:induction false} TableLookup(writes: seq<(char, Bits)>, x: (char, Bits))
    requires x in writes && CodesDetermine(writes)
    ensures CodeString(x.1) in Table(writes) && Table(writes)[CodeString(x.1)] == x.0
    decreases |writes|
  {
    var n := |writes| - 1;
    if CodeString(writes[n].1) == CodeString(x.1) {
      CodeStringInjective(writes[n].1, x.1);
    } else {
      assert x != writes[n];
      assert writes == writes[..n] + [writes[n]];
      assert x in writes[..n];
      TableLookup(writes[..n], x);
    }
  }

  /** The lines but those for the character ' ', the join marker: the
      lines the earlier codec's `StatFilePrint` writes, and the ones the
      newer one evidently means to write. */
  function WithoutSpace(writes: seq<(char, Bits)>): seq<(char, Bits)> {
    if writes == [] then []
    else (if writes[0].0 == JoinChar then [] else [writes[0]]) + WithoutSpace(writes[1..])
  }

  lemma {:induction false} WithoutSpaceMembers(writes: seq<(char, Bits)>, x: (char, Bits))
    ensures x in WithoutSpace(writes) <==> x in writes && x.0 != JoinChar
  {
    if writes != [] {
      WithoutSpaceMembers(writes[1..], x);
      assert writes == [writes[0]] + writes[1..];
    }
  }

  /** The table of the leaf codes of `t`, leaves for ' ' excepted. */
  function CodeTable(t: Tree): map<string, char> {
    Table(WithoutSpace(SetCode(t, [])))
  }

  /** Leaf codes are distinct, so each determines its leaf. */
  lemma LeafCodesDetermine(t: Tree)
    ensures CodesDetermine(SetCode(t, []))
    ensures CodesDetermine(WithoutSpace(SetCode(t, [])))
  {
    var writes := SetCode(t, []);
    CodesArePrefixFree(t, []);
    forall x, y | x in writes && y in writes && x.1 == y.1 ensures x == y {
      var i :| 0 <= i < |writes| && writes[i] == x;
      var j :| 0 <= j < |writes| && writes[j] == y;
      if i != j {
        assert IsPrefix(writes[i].1, writes[j].1);
      }
    }
    forall x, y | x in WithoutSpace(writes) && y in WithoutSpace(writes) && x.1 == y.1 ensures x == y {
      WithoutSpaceMembers(writes, x);
      WithoutSpaceMembers(writes, y);
    }
  }

  /** In the table, a leaf's code maps to the leaf's character; and for a
      tree with a join no proper prefix of a leaf code is a key, so the
      decoder reads every code in full. */
  lemma LeafCodeInTable(t: Tree, c: char, w: Bits)
    requires t.Node? && (c, w) in SetCode(t, []) && c != JoinChar
    ensures IsCodeOf(CodeTable(t), w, c)
  {
    var writes := SetCode(t, []);
    var kept := WithoutSpace(writes);
    LeafCodesDetermine(t);
    WithoutSpaceMembers(writes, (c, w));
    TableLookup(kept, (c, w));
    var k :| 0 <= k < |writes| && writes[k] == (c, w);
    forall j | 0 < j < |w| ensures CodeString(w[..j]) !in CodeTable(t) {
      PrefixNotKey(t, k, j);
    }
  }

  /** No proper prefix of a leaf's code is a key of the table. */
  lemma PrefixNotKey(t: Tree, k: nat, j: nat)
    requires t.Node? && k < |SetCode(t, [])| && 0 < j < |SetCode(t, [])[k].1|
    ensures CodeString(SetCode(t, [])[k].1[..j]) !in CodeTable(t)
  {
    var writes := SetCode(t, []);
    var kept := WithoutSpace(writes);
    var w := writes[k].1;
    CodesArePrefixFree(t, []);
    if CodeString(w[..j]) in CodeTable(t) {
      TableKeys(kept, CodeString(w[..j]));
      var x :| x in kept && CodeString(w[..j]) == CodeString(x.1);
      WithoutSpaceMembers(writes, x);
      var k' :| 0 <= k' < |writes| && writes[k'] == x;
      CodeStringInjective(w[..j], writes[k'].1);
      assert k' != k && IsPrefix(writes[k'].1, writes[k].1);
      assert false;
    }
  }

  // ----------------------------------------------------------- round trip

  /** The characters whose codes reach the bit string: those read before
      the end of the input that are carried by a leaf, a space excepted. */
  function Visible(t: Tree, text: string): string {
    if text == [] || text[0] == EndOfInput then []
    else if text[0] != JoinChar && text[0] in LeafChars(t) then [text[0]] + Visible(t, text[1..])
    else Visible(t, text[1..])
  }

  /** One decoded character in front of whatever the following bits give. */
  lemma LeafStep(m: map<string, char>, w: Bits, c: char, tail: Bits, v: string, d: Decoded)
    requires IsCodeOf(m, w, c)
    requires DecodeFrom(m, tail, "") == Then(v, d)
    ensures DecodeFrom(m, w + tail, "") == Then([c] + v, d)
  {
    DecodeOneCode(m, w, c, 0, tail);
    assert w[0..] == w && w[..0] == [];
    ThenCons(c, v, d);
  }

  /** A character that reaches the bit string: it contributes its leaf
      code, which the table decodes back to it. */
  lemma VisibleChar(t: Tree, text: string)
    requires t.Node? && text != [] && text[0] != EndOfInput
    requires text[0] != JoinChar && text[0] in LeafChars(t)
    ensures EncodeChars(t, text) == CodeOf(t, text[0]) + EncodeChars(t, text[1..])
    ensures Visible(t, text) == [text[0]] + Visible(t, text[1..])
    ensures IsCodeOf(CodeTable(t), CodeOf(t, text[0]), text[0])
  {
    CodeOfSpec(t, text[0]);
    LeafCodeInTable(t, text[0], CodeOf(t, text[0]));
  }

  /** A character that does not reach the bit string contributes nothing. */
  lemma HiddenChar(t: Tree, text: string)
    requires t.Node? && text != [] && text[0] != EndOfInput
    requires !(text[0] != JoinChar && text[0] in LeafChars(t))
    ensures EncodeChars(t, text) == EncodeChars(t, text[1..])
    ensures Visible(t, text) == Visible(t, text[1..])
  {
    CodeOfSpec(t, text[0]);
    assert CodeOf(t, text[0]) + EncodeChars(t, text[1..]) == EncodeChars(t, text[1..]);
  }

  /** Decoding the codes of the text, followed by any bits `rest`, prints
      the visible characters of the text and goes on with rest, unless a
      character 0 among them ends decoding first. */
  lemma {:induction false} DecodeEncodedChars(t: Tree, text: string, rest: Bits)
    requires t.Node?
    ensures DecodeFrom(CodeTable(t), EncodeChars(t, text) + rest, "")
         == Then(Visible(t, text), DecodeFrom(CodeTable(t), rest, ""))
  {
    if text == [] || text[0] == EndOfInput {
      assert EncodeChars(t, text) + rest == rest;
    } else {
      var c := text[0];
      var tail := EncodeChars(t, text[1..]) + rest;
      DecodeEncodedChars(t, text[1..], rest);
      if c != JoinChar && c in LeafChars(t) {
        VisibleChar(t, text);
        assert EncodeChars(t, text) + rest == CodeOf(t, c) + tail;
        LeafStep(CodeTable(t), CodeOf(t, c), c, tail, Visible(t, text[1..]), DecodeFrom(CodeTable(t), rest, ""));
      } else {
        HiddenChar(t, text);
      }
    }
  }

  /** Round trip on a tree: for a tree with a join and a leaf for character
      0, decoding the encoder's bits, followed by any padding, with the
      table of exactly the leaf codes, gives back the visible characters
      up to the first character 0, and ends on the sentinel. */
  lemma RoundTrip(t: Tree, text: string, pad: Bits)
    requires t.Node? && EndChar in LeafChars(t)
    ensures Encode(t, text).Ok?
    ensures Decode(CodeTable(t), Encode(t, text).value + pad) == Decoded(UpToEnd(Visible(t, text)), true)
  {
    var e := CodeOf(t, EndChar);
    EncodedThenPad(t, text, pad);
    DecodeEncodedChars(t, text, e + pad);
    SentinelDecodes(t, pad);
    ThenStop(Visible(t, text));
  }

  /** The encoder's bits followed by padding are the codes of the text
      followed by the sentinel's code and then the padding. */
  lemma EncodedThenPad(t: Tree, text: string, pad: Bits)
    requires t.Node? && EndChar in LeafChars(t)
    ensures Encode(t, text).Ok?
    ensures Encode(t, text).value + pad == EncodeChars(t, text) + (CodeOf(t, EndChar) + pad)
  {
    var enc, e := EncodeChars(t, text), CodeOf(t, EndChar);
    assert Encode(t, text).value == enc + e;
    assert enc + e + pad == enc + (e + pad);
  }

  /** The sentinel's code, whatever follows it, ends decoding with nothing
      printed. */
  lemma SentinelDecodes(t: Tree, pad: Bits)
    requires t.Node? && EndChar in LeafChars(t)
    ensures DecodeFrom(CodeTable(t), CodeOf(t, EndChar) + pad, "") == Decoded([], true)
  {
    var e := CodeOf(t, EndChar);
    CodeOfSpec(t, EndChar);
    LeafCodeInTable(t, EndChar, e);
    DecodeOneCode(CodeTable(t), e, EndChar, 0, pad);
    assert e[0..] == e && e[..0] == [];
  }
}
