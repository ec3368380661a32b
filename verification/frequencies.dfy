/** Character counting: `getCharFrequencies` of the newer codec and
    `CharFreq` of the earlier one. Both read the input with
    `BufferedReader.readLine`, so line terminators are never counted, and both
    index a 256-entry array with the character, so a character at or above
    256 raises an index exception: the newer version catches it and returns
    the counts made so far, the earlier one lets it escape. */
module Frequencies {
  import opened Base

  /** Size of the count array. */
  const Alphabet: nat := 256

  /** The characters `readLine` treats as ending a line. */
  predicate IsTerminator(c: char) {
    c == '\n' || c == '\r'
  }

  /** Index of the first line terminator in `s`, or |s| if there is none. */
  function LineEnd(s: string): (k: nat)
    ensures k <= |s|
    ensures forall i | 0 <= i < k :: !IsTerminator(s[i])
    ensures k < |s| ==> IsTerminator(s[k])
  {
    if s == [] then 0
    else if IsTerminator(s[0]) then 0
    else 1 + LineEnd(s[1..])
  }

  /** Where the line after the first one starts: past its "\n", its "\r"
      or its "\r\n". */
  function NextLineStart(s: string): (n: nat)
    requires LineEnd(s) < |s|
    ensures LineEnd(s) < n <= |s|
    ensures forall c | c in s[LineEnd(s)..n] :: IsTerminator(c)
  {
    var k := LineEnd(s);
    if s[k] == '\r' && k + 1 < |s| && s[k + 1] == '\n' then k + 2 else k + 1
  }

  /** The lines `readLine` returns one by one until it returns null: a line
      ends at "\n", at "\r" or at "\r\n", the terminator is dropped, and text
      after the last terminator forms a final line when it is not empty. */
  function ReadLines(text: string): seq<string>
    decreases |text|
  {
    if text == [] then []
    else if LineEnd(text) == |text| then [text]
    else [text[..LineEnd(text)]] + ReadLines(text[NextLineStart(text)..])
  }

  function Flatten(lines: seq<string>): string {
    if lines == [] then [] else lines[0] + Flatten(lines[1..])
  }

  /** The text with every line terminator removed. */
  function StripTerminators(s: string): string {
    if s == [] then []
    else (if IsTerminator(s[0]) then [] else [s[0]]) + StripTerminators(s[1..])
  }

  lemma {:induction false} StripNoTerminators(s: string)
    requires forall i | 0 <= i < |s| :: !IsTerminator(s[i])
    ensures StripTerminators(s) == s
  {
    if s != [] {
      StripNoTerminators(s[1..]);
    }
  }

  /** When `text[..k]` holds no terminator and `text[k..n]` only
      terminators, removing terminators keeps the first and drops the second. */
  lemma {:induction false} StripAt(text: string, k: nat, n: nat)
    requires k <= n <= |text|
    requires forall i | 0 <= i < k :: !IsTerminator(text[i])
    requires forall c | c in text[k..n] :: IsTerminator(c)
    ensures StripTerminators(text) == text[..k] + StripTerminators(text[n..])
    decreases n
  {
    if n > 0 {
      var tail := text[1..];
      assert tail[n - 1..] == text[n..];
      if k > 0 {
        assert tail[k - 1..n - 1] == text[k..n];
        StripAt(tail, k - 1, n - 1);
        assert text[..k] == [text[0]] + tail[..k - 1];
      } else {
        assert text[0] in text[k..n];
        assert tail[0..n - 1] == text[1..n];
        StripAt(tail, 0, n - 1);
      }
    }
  }

  /** Removing terminators from the text equals the first line followed by
      the rest with terminators removed. */
  lemma StripFirstLine(text: string)
    requires LineEnd(text) < |text|
    ensures StripTerminators(text) == text[..LineEnd(text)] + StripTerminators(text[NextLineStart(text)..])
  {
    StripAt(text, LineEnd(text), NextLineStart(text));
  }

  /** Concatenating the lines `readLine` yields gives back the text without
      its line terminators. */
  lemma {:induction false} ReadLinesDropsOnlyTerminators(text: string)
    ensures Flatten(ReadLines(text)) == StripTerminators(text)
    decreases |text|
  {
    if text == [] {
    } else if LineEnd(text) == |text| {
      StripNoTerminators(text);
      assert Flatten([text]) == text + Flatten([]);
    } else {
      var rest := text[NextLineStart(text)..];
      StripFirstLine(text);
      ReadLinesDropsOnlyTerminators(rest);
      var lines := ReadLines(text);
      assert lines[1..] == ReadLines(rest);
    }
  }

  /** Number of occurrences of `c` in `s`. */
  function Occurrences(s: string, c: char): nat {
    if s == [] then 0 else (if s[0] == c then 1 else 0) + Occurrences(s[1..], c)
  }

  /** The longest prefix of `s` whose characters all index the count array. */
  function InRangePrefix(s: string): (p: string)
    ensures IsPrefix(p, s)
    ensures forall i | 0 <= i < |p| :: p[i] as int < Alphabet
    ensures |p| < |s| ==> s[|p|] as int >= Alphabet
  {
    if s == [] || s[0] as int >= Alphabet then [] else [s[0]] + InRangePrefix(s[1..])
  }

  /** `counts[c]++` for each character in turn, until a character at or
      above 256 makes the array access throw. Returns the counts and whether
      every character was counted. */
  function Tally(counts: seq<int>, s: string): (r: (seq<int>, bool))
    requires |counts| == Alphabet
    decreases |s|
    ensures |r.0| == Alphabet
    ensures r.1 <==> InRangePrefix(s) == s
    ensures forall i | 0 <= i < Alphabet :: r.0[i] == counts[i] + Occurrences(InRangePrefix(s), i as char)
  {
    if s == [] then (counts, true)
    else if s[0] as int >= Alphabet then (counts, false)
    else
      var c := s[0] as int;
      Tally(counts[c := counts[c] + 1], s[1..])
  }

  function NoCounts(): (z: seq<int>)
    ensures |z| == Alphabet && forall i | 0 <= i < Alphabet :: z[i] == 0
  {
    seq(Alphabet, _ => 0)
  }

  /** `getCharFrequencies`: 256 counts, `counts[c]` being the occurrences of
      c outside line terminators, up to the first character at or above 256
      (the exception it raises is caught and the counts so far returned). */
  function GetCharFrequencies(text: string): (counts: seq<int>)
    ensures |counts| == Alphabet
    ensures forall i | 0 <= i < Alphabet ::
      counts[i] == Occurrences(InRangePrefix(StripTerminators(text)), i as char)
  {
    ReadLinesDropsOnlyTerminators(text);
    Tally(NoCounts(), Flatten(ReadLines(text))).0
  }

  /** `CharFreq`: the same 256 counts, but a character at or above 256 makes
      the whole call throw. */
  function CharFreq(text: string): (r: Result<seq<int>>)
    ensures r.Ok? <==> forall i | 0 <= i < |StripTerminators(text)| :: StripTerminators(text)[i] as int < Alphabet
    ensures r.Thrown? ==> r.error == IndexOutOfBounds
    ensures r.Ok? ==> |r.value| == Alphabet && forall i | 0 <= i < Alphabet ::
      r.value[i] == Occurrences(StripTerminators(text), i as char)
  {
    ReadLinesDropsOnlyTerminators(text);
    var (counts, complete) := Tally(NoCounts(), Flatten(ReadLines(text)));
    if complete then Ok(counts) else Thrown(IndexOutOfBounds)
  }
}
