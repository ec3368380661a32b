/** The Huffman tree of the newer codec: `HNTree` wrapping a linked `HNode`,
    as an algebraic tree. A leaf holds a character and its count; a join
    holds the summed count of its two subtrees. Parent back-links are not
    modelled (no operation reads them to decide anything). */
module Trees {

  datatype Tree =
    | Leaf(ch: char, freq: int)
    | Node(freq: int, left: Tree, right: Tree)

  /** The character an `HNTree` join writes into its new root. */
  const JoinChar: char := ' '

  /** The `ch` field of a node: a leaf's own character, or the join marker. */
  function NodeChar(t: Tree): char {
    match t
    case Leaf(c, _) => c
    case Node(_, _, _) => JoinChar
  }

  /** The leaves as (character, count) pairs, left to right. */
  function Leaves(t: Tree): seq<(char, int)> {
    match t
    case Leaf(c, f) => [(c, f)]
    case Node(_, l, r) => Leaves(l) + Leaves(r)
  }

  lemma {:induction false} LeavesNonEmpty(t: Tree)
    ensures |Leaves(t)| >= 1
  {
    if t.Node? {
      LeavesNonEmpty(t.left);
    }
  }

  function LeafBag(t: Tree): multiset<(char, int)> {
    multiset(Leaves(t))
  }

  /** The characters carried by leaves. */
  function LeafChars(t: Tree): set<char> {
    set i | 0 <= i < |Leaves(t)| :: Leaves(t)[i].0
  }

  /** Every join's count is the sum of its children's counts. */
  predicate WellWeighted(t: Tree) {
    match t
    case Leaf(_, _) => true
    case Node(f, l, r) => f == l.freq + r.freq && WellWeighted(l) && WellWeighted(r)
  }

  function CountInternal(t: Tree): nat {
    match t
    case Leaf(_, _) => 0
    case Node(_, l, r) => 1 + CountInternal(l) + CountInternal(r)
  }

  function SumLeafFreqs(ps: seq<(char, int)>): int {
    if ps == [] then 0 else ps[0].1 + SumLeafFreqs(ps[1..])
  }

  lemma SumLeafFreqsConcat(a: seq<(char, int)>, b: seq<(char, int)>)
    ensures SumLeafFreqs(a + b) == SumLeafFreqs(a) + SumLeafFreqs(b)
  {
    if a != [] {
      assert (a + b)[1..] == a[1..] + b;
      SumLeafFreqsConcat(a[1..], b);
    } else {
      assert a + b == b;
    }
  }

  lemma SumLeafFreqsSnoc(a: seq<(char, int)>, x: (char, int))
    ensures SumLeafFreqs(a + [x]) == SumLeafFreqs(a) + x.1
  {
    SumLeafFreqsConcat(a, [x]);
    assert [x][1..] == [];
  }

  /** `HNTree(int freq, char c)`: a one-node tree holding exactly the given
      character and count, with no children. */
  function MakeLeaf(freq: int, c: char): (t: Tree)
    ensures t.Leaf? && NodeChar(t) == c && t.freq == freq
    ensures Leaves(t) == [(c, freq)] && CountInternal(t) == 0
  {
    Leaf(c, freq)
  }

  /** `HNTree(HNTree t1, HNTree t2)`: a new root whose children are the two
      roots, unchanged, whose count is their sum and whose character is ' '. */
  function Join(t1: Tree, t2: Tree): (t: Tree)
    ensures t.Node? && t.left == t1 && t.right == t2
    ensures t.freq == t1.freq + t2.freq && NodeChar(t) == JoinChar
    ensures Leaves(t) == Leaves(t1) + Leaves(t2)
    ensures WellWeighted(t1) && WellWeighted(t2) ==> WellWeighted(t)
    ensures CountInternal(t) == CountInternal(t1) + CountInternal(t2) + 1
  {
    Node(t1.freq + t2.freq, t1, t2)
  }

  /** `HNTree.compareTo`: a three-way sign that depends only on the root
      counts, reversed: the tree with the smaller count compares as the
      greater one. */
  function CompareTo(a: Tree, b: Tree): (r: int)
    ensures r == 1 <==> a.freq < b.freq
    ensures r == 0 <==> a.freq == b.freq
    ensures r == -1 <==> a.freq > b.freq
  {
    if a.freq < b.freq then 1
    else if a.freq == b.freq then 0
    else -1
  }

  /** `CompareTo` is antisymmetric. */
  lemma CompareToAntisymmetric(a: Tree, b: Tree)
    ensures CompareTo(a, b) == -CompareTo(b, a)
  {
  }

  /** The comparator `Collections.reverseOrder()` builds from `CompareTo`.
      Reversing the reversed order gives ascending counts, so the least
      element under it, the queue's head, is a tree of least count. */
  function QueueCompare(a: Tree, b: Tree): (r: int)
    ensures r < 0 <==> a.freq < b.freq
    ensures r == 0 <==> a.freq == b.freq
    ensures r > 0 <==> a.freq > b.freq
  {
    CompareTo(b, a)
  }

  /** A well-weighted tree's root count is the total of its leaf counts. */
  lemma {:induction false} RootFreqIsLeafTotal(t: Tree)
    requires WellWeighted(t)
    ensures t.freq == SumLeafFreqs(Leaves(t))
  {
    match t
    case Leaf(_, _) =>
    case Node(_, l, r) =>
      RootFreqIsLeafTotal(l);
      RootFreqIsLeafTotal(r);
      SumLeafFreqsConcat(Leaves(l), Leaves(r));
  }

  /** Every join has exactly two children, so a tree with N leaves has
      N - 1 joins. */
  lemma {:induction false} InternalCount(t: Tree)
    ensures CountInternal(t) == |Leaves(t)| - 1
  {
    match t
    case Leaf(_, _) =>
    case Node(_, l, r) =>
      InternalCount(l);
      InternalCount(r);
  }
}
