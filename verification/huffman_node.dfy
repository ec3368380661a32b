/** `HuffmanNode`, the node class with accessors that the newer package
    provides next to `HNode`. Its join marks the new node with the character
    (char) -1 rather than ' '. The self-referencing parent link the join sets
    is not modelled. */
module HuffmanNodes {
  import opened Base

  datatype HuffmanNode = HuffmanNode(
    ch: char,
    freq: int,
    code: string,
    left: Option<HuffmanNode>,
    right: Option<HuffmanNode>)

  /** The character `(char) -1`, that is U+FFFF. */
  const JoinMarker: char := '\U{FFFF}'

  /** `HuffmanNode(int freq, char letter)`: the given count and character,
      an empty code and no children. */
  function NewLeaf(freq: int, letter: char): (n: HuffmanNode)
    ensures n.freq == freq && n.ch == letter
    ensures n.code == "" && n.left.None? && n.right.None?
  {
    HuffmanNode(letter, freq, "", None, None)
  }

  /** `HuffmanNode(HuffmanNode h1, HuffmanNode h2)`: children h1 and h2
      unchanged, count their sum, character U+FFFF, empty code. */
  function NewJoin(h1: HuffmanNode, h2: HuffmanNode): (n: HuffmanNode)
    ensures n.left == Some(h1) && n.right == Some(h2)
    ensures n.freq == h1.freq + h2.freq
    ensures n.ch == JoinMarker && n.code == ""
  {
    HuffmanNode(JoinMarker, h1.freq + h2.freq, "", Some(h1), Some(h2))
  }

  /** `Integer.compare(x, y)`. */
  function IntegerCompare(x: int, y: int): (r: int)
    ensures r < 0 <==> x < y
    ensures r == 0 <==> x == y
    ensures r > 0 <==> x > y
  {
    if x < y then -1 else if x == y then 0 else 1
  }

  /** `compareTo(t)` compares t's count with this one's: the order is the
      reverse of the counts, and zero exactly when the counts are equal. */
  function CompareTo(self: HuffmanNode, t: HuffmanNode): (r: int)
    ensures r > 0 <==> self.freq < t.freq
    ensures r == 0 <==> self.freq == t.freq
    ensures r < 0 <==> self.freq > t.freq
  {
    IntegerCompare(t.freq, self.freq)
  }

  /** `compareTo` is antisymmetric in sign. */
  lemma CompareToAntisymmetric(a: HuffmanNode, b: HuffmanNode)
    ensures CompareTo(a, b) > 0 <==> CompareTo(b, a) < 0
    ensures CompareTo(a, b) == 0 <==> CompareTo(b, a) == 0
  {
  }

  /** The mutator `setCode`: the node afterwards answers `getCode()` with
      the new code and every other field is unchanged. */
  function SetCode(n: HuffmanNode, code: string): (m: HuffmanNode)
    ensures m.code == code
    ensures m.ch == n.ch && m.freq == n.freq
    ensures m.left == n.left && m.right == n.right
  {
    n.(code := code)
  }
}
