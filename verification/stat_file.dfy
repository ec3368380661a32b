/** The statistics file between the two halves of the newer codec: the
    line `StatFilePrint` writes for a node, and `readStatFrequency`, which
    splits each line at whitespace and maps the sixth field (the code) to
    the first character of the second (the node's character). A line with
    fewer fields makes the array access throw; the exception is caught, the
    remaining lines are never read, and the map built so far is returned. */
module StatFile {
  import opened Base
  import opened Trees
  import opened Codes
  import opened Codec
  import HuffmanNodes
  import Builder

  // ------------------------------------------------------------ splitting

  /** The characters the regular expression class `\s` matches. */
  predicate IsSpace(c: char) {
    c == ' ' || c == '\t' || c == '\n' || c == '\U{000B}' || c == '\U{000C}' || c == '\r'
  }

  predicate NoSpace(s: string) {
    forall i | 0 <= i < |s| :: !IsSpace(s[i])
  }

  /** The maximal runs of non-space characters of `s`, in order, when the
      run `cur` has been read just before it. */
  function TokensAfter(s: string, cur: string): (ts: seq<string>)
    requires NoSpace(cur)
    ensures forall i | 0 <= i < |ts| :: ts[i] != [] && NoSpace(ts[i])
    decreases |s|
  {
    if s == [] then (if cur == [] then [] else [cur])
    else if IsSpace(s[0]) then (if cur == [] then [] else [cur]) + TokensAfter(s[1..], [])
    else TokensAfter(s[1..], cur + [s[0]])
  }

  function Tokens(s: string): seq<string> {
    TokensAfter(s, [])
  }

  /** `s.split("\\s+")`: the text around each run of spaces. Without a run
      the result is the text itself, even empty; a run at the start leaves
      an empty first field, and empty fields at the end are dropped, so a
      text of spaces alone gives no field at all. */
  function Split(s: string): (parts: seq<string>)
    ensures s == [] ==> parts == [""]
    ensures forall i | 0 < i < |parts| :: parts[i] != [] && NoSpace(parts[i])
    ensures |parts| > 0 && parts[0] == [] ==> s == [] || IsSpace(s[0])
    ensures s != [] && !IsSpace(s[0]) ==> parts == Tokens(s)
  {
    if s == [] then [""]
    else if Tokens(s) == [] then []
    else if IsSpace(s[0]) then [""] + Tokens(s)
    else Tokens(s)
  }

  /** A run of non-space characters extends the run being read. */
  lemma {:induction false} TokensRun(w: string, rest: string, cur: string)
    requires NoSpace(w) && NoSpace(cur)
    ensures TokensAfter(w + rest, cur) == TokensAfter(rest, cur + w)
  {
    if w == [] {
      assert w + rest == rest && cur + w == cur;
    } else {
      assert (w + rest)[0] == w[0] && (w + rest)[1..] == w[1..] + rest;
      assert cur + [w[0]] + w[1..] == cur + w;
      TokensRun(w[1..], rest, cur + [w[0]]);
    }
  }

  /** The fields joined with one space between each two. */
  function JoinSpaced(ws: seq<string>): string
    requires ws != []
  {
    if |ws| == 1 then ws[0] else ws[0] + [' '] + JoinSpaced(ws[1..])
  }

  /** Joined non-empty runs split back into themselves, whatever follows
      after a space. */
  lemma {:induction false} TokensJoined(ws: seq<string>, rest: string)
    requires ws != [] && forall i | 0 <= i < |ws| :: ws[i] != [] && NoSpace(ws[i])
    ensures TokensAfter(JoinSpaced(ws) + [' '] + rest, []) == ws + Tokens(rest)
    ensures TokensAfter(JoinSpaced(ws), []) == ws
  {
    var w := ws[0];
    if |ws| == 1 {
      Assoc(w, [' '], rest);
      TokenThenSpace(w, rest);
      TokenAlone(w);
      assert ws == [w];
    } else {
      var j := JoinSpaced(ws[1..]);
      TokensJoined(ws[1..], rest);
      JoinSpacedHead(ws, rest);
      TokenThenSpace(w, j + [' '] + rest);
      TokenThenSpace(w, j);
      HeadAndTail(ws, Tokens(rest));
    }
  }

  /** A joined list is its first field, a space, and the rest joined. */
  lemma JoinSpacedHead(ws: seq<string>, rest: string)
    requires |ws| > 1
    ensures JoinSpaced(ws) == ws[0] + ([' '] + JoinSpaced(ws[1..]))
    ensures JoinSpaced(ws) + [' '] + rest == ws[0] + ([' '] + (JoinSpaced(ws[1..]) + [' '] + rest))
  {
    var w, j := ws[0], JoinSpaced(ws[1..]);
    Assoc(w, [' '], j);
    Assoc(w + [' '] + j, [' '], rest);
    Assoc(w, [' '] + j, [' '] + rest);
    Assoc([' '], j, [' '] + rest);
    Assoc(j, [' '], rest);
  }

  /** A run of non-spaces followed by a space splits off as one token. */
  lemma TokenThenSpace(w: string, rest: string)
    requires w != [] && NoSpace(w)
    ensures TokensAfter(w + ([' '] + rest), []) == [w] + Tokens(rest)
  {
    TokensRun(w, [' '] + rest, []);
    assert ([' '] + rest)[1..] == rest;
    EmptyPrefix(w);
  }

  /** A run of non-spaces alone is one token. */
  lemma TokenAlone(w: string)
    requires w != [] && NoSpace(w)
    ensures TokensAfter(w, []) == [w]
  {
    TokensRun(w, [], []);
    EmptyPrefix(w);
    assert w + [] == w;
  }

  lemma EmptyPrefix<T>(w: seq<T>)
    ensures [] + w == w
  { }

  lemma HeadAndTail<T>(ws: seq<T>, rest: seq<T>)
    requires ws != []
    ensures [ws[0]] + (ws[1..] + rest) == ws + rest
  { }

  // ------------------------------------------------------------ the lines

  function Digit(d: nat): (c: char)
    requires d < 10
    ensures '0' <= c <= '9'
  {
    (48 + d) as char
  }

  /** A count in decimal digits, most significant first. */
  function NatToDecimal(n: nat): (s: string)
    ensures s != [] && NoSpace(s)
  {
    if n < 10 then [Digit(n)] else NatToDecimal(n / 10) + [Digit(n % 10)]
  }

  /** An int in decimal, as string concatenation writes it. */
  function IntToDecimal(n: int): (s: string)
    ensures s != [] && NoSpace(s)
  {
    if n < 0 then "-" + NatToDecimal(-n) else NatToDecimal(n)
  }

  /** The decimal form of a count is digits after an optional minus sign. */
  lemma {:induction false} DecimalChars(n: int)
    ensures forall i | 0 <= i < |IntToDecimal(n)| :: IntToDecimal(n)[i] == '-' || '0' <= IntToDecimal(n)[i] <= '9'
  {
    if n < 0 {
      NaturalChars(-n);
    } else {
      NaturalChars(n);
    }
  }

  lemma {:induction false} NaturalChars(n: nat)
    ensures forall i | 0 <= i < |NatToDecimal(n)| :: '0' <= NatToDecimal(n)[i] <= '9'
  {
    if n >= 10 {
      NaturalChars(n / 10);
    }
  }

  /** The line `StatFilePrint` writes for a node:
      "Node: <ch> Freq: <freq> Code: <code>". */
  function FormatStatLine(ch: char, freq: int, code: string): string {
    "Node: " + [ch] + " Freq: " + IntToDecimal(freq) + " Code: " + code
  }

  /** One line of `readStatFrequency`: `parts[5]` and `parts[1].charAt(0)`,
      or the index exception either raises. */
  function ParseStatLine(line: string): (r: Result<(string, char)>)
    ensures r.Ok? <==> |Split(line)| >= 6 && Split(line)[1] != []
    ensures r.Thrown? ==> r.error == IndexOutOfBounds
    ensures r.Ok? ==> r.value == (Split(line)[5], Split(line)[1][0])
  {
    var parts := Split(line);
    if |parts| < 6 then Thrown(IndexOutOfBounds)
    else if |parts[1]| == 0 then Thrown(IndexOutOfBounds)
    else Ok((parts[5], parts[1][0]))
  }

  lemma JoinSpacedCons(w: string, ws: seq<string>)
    requires ws != []
    ensures JoinSpaced([w] + ws) == w + [' '] + JoinSpaced(ws)
  {
    assert ([w] + ws)[1..] == ws;
  }

  /** A written line with its literal pieces taken apart. */
  lemma FormatPieces(ch: char, freq: int, code: string)
    ensures FormatStatLine(ch, freq, code)
         == "Node:" + ([' '] + ([ch] + ([' '] + ("Freq:" + ([' '] + (IntToDecimal(freq) + ([' '] + ("Code:" + ([' '] + code)))))))))
  {
    var sp: string := [' '];
    var f := IntToDecimal(freq);
    var n1, n2, n3: string := "Node: ", " Freq: ", " Code: ";
    assert n1 == "Node:" + sp;
    assert n2 == sp + ("Freq:" + sp);
    assert n3 == sp + ("Code:" + sp);
    Assoc(n1 + [ch] + n2 + f, n3, code);
    Assoc(n1 + [ch] + n2, f, n3 + code);
    Assoc(n1 + [ch], n2, f + (n3 + code));
    Assoc(n1, [ch], n2 + (f + (n3 + code)));
    Assoc("Node:", sp, [ch] + (n2 + (f + (n3 + code))));
    Assoc(sp, "Code:" + sp, code);
    Assoc("Code:", sp, code);
    Assoc(sp, "Freq:" + sp, f + (n3 + code));
    Assoc("Freq:", sp, f + (n3 + code));
  }

  lemma Assoc(a: string, b: string, c: string)
    ensures a + b + c == a + (b + c)
  {
  }

  /** A written line as its fields joined by spaces: the character, the
      count, and the code, after their labels. */
  lemma FormatAsFields(ch: char, freq: int, code: string)
    ensures FormatStatLine(ch, freq, code)
         == JoinSpaced(["Node:", [ch], "Freq:", IntToDecimal(freq), "Code:"]) + [' '] + code
  {
    FormatPieces(ch, freq, code);
    JoinFive("Node:", [ch], "Freq:", IntToDecimal(freq), "Code:");
  }

  lemma JoinFive(a: string, b: string, c: string, d: string, e: string)
    ensures JoinSpaced([a, b, c, d, e]) == a + [' '] + (b + [' '] + (c + [' '] + (d + [' '] + e)))
  {
    JoinSpacedCons(d, [e]);
    JoinSpacedCons(c, [d, e]);
    JoinSpacedCons(b, [c, d, e]);
    JoinSpacedCons(a, [b, c, d, e]);
  }

  /** The same line, read as the label "Node:", the character between two
      spaces, and the remaining fields. */
  lemma FormatAroundChar(ch: char, freq: int, code: string)
    ensures FormatStatLine(ch, freq, code)
         == "Node:" + ([' ', ch, ' '] + (JoinSpaced(["Freq:", IntToDecimal(freq), "Code:"]) + [' '] + code))
  {
    var f, sp: string := IntToDecimal(freq), [' '];
    FormatPieces(ch, freq, code);
    JoinSpacedCons(f, ["Code:"]);
    JoinSpacedCons("Freq:", [f, "Code:"]);
    var t := f + sp + "Code:";
    Assoc("Freq:" + sp + t, sp, code);
    Assoc("Freq:" + sp, t, sp + code);
    Assoc("Freq:", sp, t + (sp + code));
    Assoc(f + sp, "Code:", sp + code);
    Assoc(f, sp, "Code:" + (sp + code));
    CharBetweenSpaces(ch, JoinSpaced(["Freq:", f, "Code:"]) + sp + code);
  }

  lemma CharBetweenSpaces(ch: char, rest: string)
    ensures [' ', ch, ' '] + rest == [' '] + ([ch] + ([' '] + rest))
  { }

  /** The fields of a written line whose character is not a space. */
  lemma FormatFields(ch: char, freq: int, code: string)
    requires !IsSpace(ch) && NoSpace(code)
    ensures code != [] ==>
      Tokens(FormatStatLine(ch, freq, code)) == ["Node:", [ch], "Freq:", IntToDecimal(freq), "Code:", code]
    ensures code == [] ==> Tokens(FormatStatLine(ch, freq, code)) == ["Node:", [ch], "Freq:", IntToDecimal(freq), "Code:"]
  {
    var ws := ["Node:", [ch], "Freq:", IntToDecimal(freq), "Code:"];
    FormatAsFields(ch, freq, code);
    TokensJoined(ws, code);
    if code != [] {
      TokensRun(code, [], []);
      assert code + [] == code && [] + code == code;
      assert ws + [code] == ["Node:", [ch], "Freq:", IntToDecimal(freq), "Code:", code];
    } else {
      assert ws + [] == ws;
    }
  }

  /** The fields of a written line whose character is a space: the
      character merges into the spaces around it. */
  lemma SpaceFields(ch: char, freq: int, code: string)
    requires IsSpace(ch) && NoSpace(code)
    ensures code != [] ==>
      Tokens(FormatStatLine(ch, freq, code)) == ["Node:", "Freq:", IntToDecimal(freq), "Code:", code]
    ensures code == [] ==> Tokens(FormatStatLine(ch, freq, code)) == ["Node:", "Freq:", IntToDecimal(freq), "Code:"]
  {
    SpaceFieldsSplit(ch, freq, code);
    WordOrNothing(code);
    FieldLists("Node:", ["Freq:", IntToDecimal(freq), "Code:"], code);
  }

  /** The label, then the fields after the character. */
  lemma SpaceFieldsSplit(ch: char, freq: int, code: string)
    requires IsSpace(ch) && NoSpace(code)
    ensures Tokens(FormatStatLine(ch, freq, code)) == ["Node:"] + (["Freq:", IntToDecimal(freq), "Code:"] + Tokens(code))
  {
    var f := IntToDecimal(freq);
    var ws := ["Freq:", f, "Code:"];
    var tail := JoinSpaced(ws) + [' '] + code;
    var rest := [' ', ch, ' '] + tail;
    FormatAroundChar(ch, freq, code);
    TokensRun("Node:", rest, []);
    assert [] + "Node:" == "Node:";
    assert rest[0] == ' ' && rest[1..][0] == ch && rest[1..][1..][0] == ' ';
    assert rest[1..][1..][1..] == tail;
    assert TokensAfter(rest, "Node:") == ["Node:"] + TokensAfter(rest[1..], []);
    assert TokensAfter(rest[1..], []) == TokensAfter(rest[1..][1..], []);
    assert TokensAfter(rest[1..][1..], []) == TokensAfter(tail, []);
    TokensJoined(ws, code);
  }

  /** A run without spaces is one word, or none when it is empty. */
  lemma WordOrNothing(w: string)
    requires NoSpace(w)
    ensures w != [] ==> Tokens(w) == [w]
    ensures w == [] ==> Tokens(w) == []
  {
    TokensRun(w, [], []);
    assert [] + w == w && w + [] == w;
  }

  /** The field lists with and without a last field. */
  lemma FieldLists<T>(x: T, ws: seq<T>, y: T)
    ensures [x] + (ws + [y]) == [x] + ws + [y]
    ensures [x] + (ws + []) == [x] + ws
  {
  }

  /** Reading a line back gives the code and the character written, when
      the character is not a space and the code is a non-empty run of
      non-space characters; a space for the character or an empty code
      leaves the line with too few fields. */
  lemma StatLineRoundTrip(ch: char, freq: int, code: string)
    requires NoSpace(code)
    ensures !IsSpace(ch) && code != [] ==> ParseStatLine(FormatStatLine(ch, freq, code)) == Ok((code, ch))
    ensures IsSpace(ch) || code == [] ==> ParseStatLine(FormatStatLine(ch, freq, code)).Thrown?
  {
    if !IsSpace(ch) {
      FormatFields(ch, freq, code);
    } else {
      SpaceFields(ch, freq, code);
    }
  }

  // ------------------------------------------------------------ reading

  /** `readStatFrequency` over the lines from `m` on: `put` each parsed
      line, and stop at the first line that throws. */
  function ReadFrom(m: map<string, char>, lines: seq<string>): map<string, char>
    decreases |lines|
  {
    if lines == [] then m
    else match ParseStatLine(lines[0])
      case Thrown(_) => m
      case Ok((code, c)) => ReadFrom(m[code := c], lines[1..])
  }

  function ReadStatFrequency(lines: seq<string>): map<string, char> {
    ReadFrom(map[], lines)
  }

  predicate AllParse(lines: seq<string>) {
    forall i | 0 <= i < |lines| :: ParseStatLine(lines[i]).Ok?
  }

  /** Reading stops at the first line that does not parse: the lines after
      it are never looked at; when every line of `a` parses, reading `a + b`
      reads `a`, then `b`. */
  lemma {:induction false} ReadConcat(m: map<string, char>, a: seq<string>, b: seq<string>)
    ensures AllParse(a) ==> ReadFrom(m, a + b) == ReadFrom(ReadFrom(m, a), b)
    ensures !AllParse(a) ==> ReadFrom(m, a + b) == ReadFrom(m, a)
    decreases |a|
  {
    ConsConcat(a, b);
    if a != [] {
      match ParseStatLine(a[0])
      case Thrown(_) =>
      case Ok((code, c)) =>
        ReadConcat(m[code := c], a[1..], b);
        if !AllParse(a) {
          var i :| 0 <= i < |a| && ParseStatLine(a[i]).Thrown?;
          assert a[1..][i - 1] == a[i];
        } else {
          forall i | 0 <= i < |a[1..]| ensures ParseStatLine(a[1..][i]).Ok? {
            assert a[1..][i] == a[i + 1];
          }
        }
    }
  }

  lemma ReadOneLine(m: map<string, char>, line: string)
    ensures ParseStatLine(line).Ok? ==>
      ReadFrom(m, [line]) == m[ParseStatLine(line).value.0 := ParseStatLine(line).value.1]
    ensures ParseStatLine(line).Thrown? ==> ReadFrom(m, [line]) == m
  {
    assert [line][1..] == [];
  }

  /** A line that does not parse ends reading: nothing after it counts. */
  lemma StopAt(m: map<string, char>, a: seq<string>, j: string, b: seq<string>)
    requires ParseStatLine(j).Thrown?
    ensures ReadFrom(m, a + [j] + b) == ReadFrom(m, a)
    ensures !AllParse(a + [j] + b)
  {
    var lines := a + [j] + b;
    assert lines == a + ([j] + b);
    assert lines[|a|] == j;
    ReadConcat(m, a, [j] + b);
    ReadConcat(ReadFrom(m, a), [j], b);
    ReadOneLine(ReadFrom(m, a), j);
  }

  /** Lines that each parse to a (code, character) pair are read into the
      table of those pairs. */
  lemma {:induction false} ReadParsedLines(lines: seq<string>, writes: seq<(char, Bits)>)
    requires ParsesTo(lines, writes)
    ensures ReadStatFrequency(lines) == Table(writes)
    decreases |lines|
  {
    if lines != [] {
      var n := |lines| - 1;
      ParsesToPrefix(lines, writes, n);
      ParsesAll(lines[..n], writes[..n]);
      ReadParsedLines(lines[..n], writes[..n]);
      ButLast(lines);
      ReadConcat(map[], lines[..n], [lines[n]]);
      ReadOneLine(Table(writes[..n]), lines[n]);
    }
  }

  lemma ParsesToPrefix(lines: seq<string>, writes: seq<(char, Bits)>, n: nat)
    requires ParsesTo(lines, writes) && n <= |lines|
    ensures ParsesTo(lines[..n], writes[..n])
  {
    forall k | 0 <= k < n
      ensures ParseStatLine(lines[..n][k]) == Ok((CodeString(writes[..n][k].1), writes[..n][k].0))
    {
      assert lines[..n][k] == lines[k] && writes[..n][k] == writes[k];
    }
  }

  lemma ParsesAll(lines: seq<string>, writes: seq<(char, Bits)>)
    requires ParsesTo(lines, writes)
    ensures AllParse(lines)
  {
    forall i | 0 <= i < |lines| ensures ParseStatLine(lines[i]).Ok? {
    }
  }

  // ------------------------------------------------------- the file itself

  /** `StatFilePrint` over the subtree `t` whose code is `code`: in order
      (left subtree, node, right subtree), the line of every node whose
      character is not `skip`. The newer codec skips `(char) -1`, the
      earlier one ' '. */
  function StatPrint(t: Tree, code: Bits, skip: char): seq<string> {
    var here := if NodeChar(t) != skip then [FormatStatLine(NodeChar(t), t.freq, CodeString(code))] else [];
    match t
    case Leaf(_, _) => here
    case Node(_, l, r) => StatPrint(l, code + [false], skip) + here + StatPrint(r, code + [true], skip)
  }

  /** A node's lines are its left subtree's, then its right subtree's: the
      join's own line is skipped. */
  lemma StatPrintNode(t: Tree, code: Bits)
    requires t.Node?
    ensures StatPrint(t, code, JoinChar) == StatPrint(t.left, code + [false], JoinChar) + StatPrint(t.right, code + [true], JoinChar)
  {
    StatPrintJoin(t, code);
    AppendNothing(StatPrint(t.left, code + [false], JoinChar), StatPrint(t.right, code + [true], JoinChar));
  }

  /** The join's own line, skipped, is no line. */
  lemma StatPrintJoin(t: Tree, code: Bits)
    requires t.Node?
    ensures StatPrint(t, code, JoinChar) == StatPrint(t.left, code + [false], JoinChar) + [] + StatPrint(t.right, code + [true], JoinChar)
  {
  }

  lemma AppendNothing<T>(a: seq<T>, b: seq<T>)
    ensures a + [] + b == a + b
  {
  }

  /** The statistics file as `StatFilePrint` writes it: it skips the
      marker `HuffmanNode` gives its joins, which no `HNTree` join carries,
      so every join's line is written. */
  function StatLinesAsWritten(t: Tree): seq<string> {
    StatPrint(t, [], HuffmanNodes.JoinMarker)
  }

  /** The statistics file with the joins skipped, as the earlier codec
      writes it: it skips ' ', the character of every join. */
  function StatLines(t: Tree): seq<string> {
    StatPrint(t, [], JoinChar)
  }

  /** A join's line has the space for its character, so it never parses. */
  lemma JoinLineFails(t: Tree, code: Bits)
    requires t.Node?
    ensures ParseStatLine(FormatStatLine(NodeChar(t), t.freq, CodeString(code))).Thrown?
  {
    StatLineRoundTrip(NodeChar(t), t.freq, CodeString(code));
  }

  /** A table with at most one key. */
  predicate AtMostOneKey(m: map<string, char>) {
    forall k1, k2 | k1 in m && k2 in m :: k1 == k2
  }

  /** The file as written, for a tree with a join, holds a line that does
      not parse (a join's line follows the leftmost leaf's), and reading it
      keeps at most the leftmost leaf's line. */
  lemma {:induction false} AsWrittenStopsEarly(t: Tree, code: Bits)
    requires t.Node?
    ensures !AllParse(StatPrint(t, code, HuffmanNodes.JoinMarker))
    ensures AtMostOneKey(ReadStatFrequency(StatPrint(t, code, HuffmanNodes.JoinMarker)))
  {
    var skip := HuffmanNodes.JoinMarker;
    var a := StatPrint(t.left, code + [false], skip);
    var j := FormatStatLine(NodeChar(t), t.freq, CodeString(code));
    var b := StatPrint(t.right, code + [true], skip);
    JoinLineFails(t, code);
    assert StatPrint(t, code, skip) == a + [j] + b;
    StopAt(map[], a, j, b);
    if t.left.Node? {
      AsWrittenStopsEarly(t.left, code + [false]);
    } else {
      ReadAtMostOne(a);
    }
  }

  lemma ReadAtMostOne(lines: seq<string>)
    requires |lines| <= 1
    ensures AtMostOneKey(ReadStatFrequency(lines))
  {
    if lines != [] {
      assert lines == [lines[0]];
      ReadOneLine(map[], lines[0]);
    }
  }

  /** Whatever the tree, reading the file as written yields a table with
      at most one code, while the tree has a code for each of its leaves
      (at least two when it has a join). */
  lemma AsWrittenTable(t: Tree)
    requires t.Node?
    ensures AtMostOneKey(ReadStatFrequency(StatLinesAsWritten(t)))
    ensures |SetCode(t, [])| >= 2
  {
    AsWrittenStopsEarly(t, []);
    LeavesNonEmpty(t.left);
    LeavesNonEmpty(t.right);
  }

  lemma {:induction false} WithoutSpaceConcat(a: seq<(char, Bits)>, b: seq<(char, Bits)>)
    ensures WithoutSpace(a + b) == WithoutSpace(a) + WithoutSpace(b)
  {
    ConsConcat(a, b);
    if a != [] {
      WithoutSpaceConcat(a[1..], b);
    }
  }

  /** The characters a leaf line can carry and still be read back: a space
      never gets its line written, any other `\s` character breaks it. */
  predicate Printable(t: Tree) {
    forall c | c in LeafChars(t) :: c == JoinChar || !IsSpace(c)
  }

  /** Line k parses to the code and character of write k, for every k. */
  predicate ParsesTo(lines: seq<string>, writes: seq<(char, Bits)>) {
    |lines| == |writes| &&
    forall k | 0 <= k < |lines| :: ParseStatLine(lines[k]) == Ok((CodeString(writes[k].1), writes[k].0))
  }

  lemma ParsesToConcat(a: seq<string>, wa: seq<(char, Bits)>, b: seq<string>, wb: seq<(char, Bits)>)
    requires ParsesTo(a, wa) && ParsesTo(b, wb)
    ensures ParsesTo(a + b, wa + wb)
  {
    var lines, ws := a + b, wa + wb;
    forall k | 0 <= k < |lines| ensures ParseStatLine(lines[k]) == Ok((CodeString(ws[k].1), ws[k].0)) {
      if k < |a| {
        assert lines[k] == a[k] && ws[k] == wa[k];
      } else {
        assert lines[k] == b[k - |a|] && ws[k] == wb[k - |a|];
      }
    }
  }

  /** With the joins skipped, the file holds one line per leaf other than
      ' ', in leaf order, each parsing back to the leaf's code and
      character, provided the codes are not empty and no leaf carries
      another space character. */
  lemma {:induction false} StatLinesParse(t: Tree, code: Bits)
    requires Printable(t) && (t.Node? || code != [])
    ensures ParsesTo(StatPrint(t, code, JoinChar), WithoutSpace(SetCode(t, code)))
  {
    match t
    case Leaf(c, f) =>
      LeafLineParses(c, f, code);
    case Node(_, l, r) =>
      LeafCharsOfNode(t);
      StatLinesParse(l, code + [false]);
      StatLinesParse(r, code + [true]);
      StatPrintNode(t, code);
      SetCodeNode(t, code);
      WithoutSpaceConcat(SetCode(l, code + [false]), SetCode(r, code + [true]));
      ParsesToConcat(StatPrint(l, code + [false], JoinChar), WithoutSpace(SetCode(l, code + [false])),
                     StatPrint(r, code + [true], JoinChar), WithoutSpace(SetCode(r, code + [true])));
  }

  lemma LeafLineParses(c: char, f: int, code: Bits)
    requires Printable(Leaf(c, f)) && code != []
    ensures ParsesTo(StatPrint(Leaf(c, f), code, JoinChar), WithoutSpace(SetCode(Leaf(c, f), code)))
  {
    assert c in LeafChars(Leaf(c, f)) by { assert Leaves(Leaf(c, f))[0].0 == c; }
    assert [(c, code)][1..] == [];
    if c != JoinChar {
      StatLineRoundTrip(c, f, CodeString(code));
    }
  }

  /** Corrected file: for a tree with a join and no leaf for a space
      character other than ' ', reading the file gives the table of leaf
      codes the decoder needs. */
  lemma StatLinesTable(t: Tree)
    requires t.Node? && Printable(t)
    ensures ReadStatFrequency(StatLines(t)) == CodeTable(t)
  {
    StatLinesParse(t, []);
    ReadParsedLines(StatLines(t), WithoutSpace(SetCode(t, [])));
  }

  // ------------------------------------------------- decoding with a table

  /** Every character decoding prints is a value of the table. */
  lemma {:induction false} DecodedFromTable(m: map<string, char>, bits: Bits, code: string)
    ensures forall i | 0 <= i < |DecodeFrom(m, bits, code).output| :: DecodeFrom(m, bits, code).output[i] in m.Values
    decreases |bits|
  {
    if bits != [] {
      var code' := code + [if bits[0] then '1' else '0'];
      if code' in m {
        DecodedFromTable(m, bits[1..], "");
        if m[code'] != Builder.EndChar {
          var d := DecodeFrom(m, bits[1..], "");
          assert DecodeFrom(m, bits, code).output == [m[code']] + d.output;
        }
      } else {
        DecodedFromTable(m, bits[1..], code');
      }
    }
  }

  /** With the file as written, decoding any bits prints one character
      over and over at best: "ab" can never come back. */
  lemma AsWrittenLosesText(t: Tree, bits: Bits)
    requires t.Node?
    ensures var out := Decode(ReadStatFrequency(StatLinesAsWritten(t)), bits).output;
      (forall i, j | 0 <= i < |out| && 0 <= j < |out| :: out[i] == out[j]) && out != "ab"
  {
    var m := ReadStatFrequency(StatLinesAsWritten(t));
    AsWrittenTable(t);
    DecodedFromTable(m, bits, "");
    var out := Decode(m, bits).output;
    assert |out| >= 2 ==> out[0] == out[1];
  }
}
