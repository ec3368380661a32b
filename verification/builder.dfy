/** Tree construction, `getHTree`, in its newer form (a sentinel leaf for
    character 0 with count 1 is always queued) and its earlier form (no
    sentinel). The `PriorityQueue` is modelled as a sequence used as a bag:
    `remove` may take ANY tree of least count, since Java's heap fixes no
    order among equal counts, so every property proved here holds for every
    tie-break. */
module Builder {
  import opened Base
  import opened Trees

  /** The end-of-data character the newer codec queues with count 1. */
  const EndChar: char := '\0'

  /** Largest count-array length whose indices all cast to characters. */
  const MaxAlphabet: nat := 0xD800

  // ---------------------------------------------------------------- queue

  function QueueTotal(q: seq<Tree>): int {
    if q == [] then 0 else q[0].freq + QueueTotal(q[1..])
  }

  function QueueLeaves(q: seq<Tree>): multiset<(char, int)> {
    if q == [] then multiset{} else LeafBag(q[0]) + QueueLeaves(q[1..])
  }

  predicate AllWellWeighted(q: seq<Tree>) {
    forall i | 0 <= i < |q| :: WellWeighted(q[i])
  }

  lemma {:induction false} QueueConcat(a: seq<Tree>, b: seq<Tree>)
    ensures QueueTotal(a + b) == QueueTotal(a) + QueueTotal(b)
    ensures QueueLeaves(a + b) == QueueLeaves(a) + QueueLeaves(b)
  {
    if a == [] {
      assert a + b == b;
    } else {
      assert (a + b)[1..] == a[1..] + b;
      QueueConcat(a[1..], b);
    }
  }

  /** The queue's head under the reversed comparator: no tree in the queue
      compares below it. */
  predicate IsHead(q: seq<Tree>, i: int) {
    0 <= i < |q| && forall j | 0 <= j < |q| :: QueueCompare(q[i], q[j]) <= 0
  }

  lemma {:induction false} HeadExists(q: seq<Tree>)
    requires |q| > 0
    ensures exists i :: IsHead(q, i)
  {
    if |q| == 1 {
      assert IsHead(q, 0);
    } else {
      var rest := q[..|q| - 1];
      HeadExists(rest);
      var i :| IsHead(rest, i);
      if q[i].freq <= q[|q| - 1].freq {
        assert IsHead(q, i);
      } else {
        assert IsHead(q, |q| - 1);
      }
    }
  }

  lemma Singleton(t: Tree)
    ensures QueueTotal([t]) == t.freq
    ensures QueueLeaves([t]) == LeafBag(t)
  {
    assert [t][1..] == [];
  }

  /** The queue with its i-th tree taken out. */
  function RemoveAt(q: seq<Tree>, i: nat): (rest: seq<Tree>)
    requires i < |q|
    ensures |rest| == |q| - 1
  {
    q[..i] + q[i + 1..]
  }

  lemma {:induction false} RemoveAtLeaves(q: seq<Tree>, i: nat)
    requires i < |q|
    ensures QueueLeaves(RemoveAt(q, i)) + LeafBag(q[i]) == QueueLeaves(q)
  {
    var rest := RemoveAt(q, i);
    if i == 0 {
      assert rest == q[1..];
    } else {
      assert rest[0] == q[0];
      assert rest[1..] == RemoveAt(q[1..], i - 1);
      RemoveAtLeaves(q[1..], i - 1);
      assert q[1..][i - 1] == q[i];
    }
  }

  lemma {:induction false} RemoveAtTotal(q: seq<Tree>, i: nat)
    requires i < |q|
    ensures QueueTotal(RemoveAt(q, i)) + q[i].freq == QueueTotal(q)
  {
    var rest := RemoveAt(q, i);
    if i == 0 {
      assert rest == q[1..];
    } else {
      assert rest[0] == q[0];
      assert rest[1..] == RemoveAt(q[1..], i - 1);
      RemoveAtTotal(q[1..], i - 1);
      assert q[1..][i - 1] == q[i];
    }
  }

  lemma RemoveAtWeighted(q: seq<Tree>, i: nat)
    requires i < |q| && AllWellWeighted(q)
    ensures AllWellWeighted(RemoveAt(q, i))
  {
    var rest := RemoveAt(q, i);
    assert forall j | 0 <= j < |rest| :: rest[j] == (if j < i then q[j] else q[j + 1]);
  }

  /** Queueing one more tree adds its leaves and its count. */
  lemma Appended(q: seq<Tree>, t: Tree)
    ensures AllWellWeighted(q) && WellWeighted(t) ==> AllWellWeighted(q + [t])
    ensures QueueLeaves(q + [t]) == QueueLeaves(q) + LeafBag(t)
    ensures QueueTotal(q + [t]) == QueueTotal(q) + t.freq
  {
    QueueConcat(q, [t]);
    Singleton(t);
  }

  /** Queueing the join of t1 and t2 puts back exactly their leaves and
      their counts. */
  lemma JoinRequeued(q: seq<Tree>, t1: Tree, t2: Tree)
    requires AllWellWeighted(q) && WellWeighted(t1) && WellWeighted(t2)
    ensures AllWellWeighted(q + [Join(t1, t2)])
    ensures QueueLeaves(q + [Join(t1, t2)]) == QueueLeaves(q) + LeafBag(t2) + LeafBag(t1)
    ensures QueueTotal(q + [Join(t1, t2)]) == QueueTotal(q) + t2.freq + t1.freq
  {
    Appended(q, Join(t1, t2));
  }

  /** `PriorityQueue.remove()`: throws on an empty queue, and otherwise
      takes out one tree of least count, whichever the heap yields. */
  method Remove(q: seq<Tree>) returns (r: Result<(Tree, seq<Tree>)>, ghost at: nat)
    ensures r.Thrown? <==> |q| == 0
    ensures r.Thrown? ==> r.error == NoSuchElement
    ensures r.Ok? ==> IsHead(q, at) && r.value == (q[at], RemoveAt(q, at))
    ensures r.Ok? ==> QueueTotal(r.value.1) + r.value.0.freq == QueueTotal(q)
    ensures r.Ok? ==> QueueLeaves(r.value.1) + LeafBag(r.value.0) == QueueLeaves(q)
    ensures r.Ok? && AllWellWeighted(q) ==> WellWeighted(r.value.0) && AllWellWeighted(r.value.1)
    ensures r.Ok? ==> forall j | 0 <= j < |q| :: r.value.0.freq <= q[j].freq
  {
    if |q| == 0 {
      return Thrown(NoSuchElement), 0;
    }
    HeadExists(q);
    var i :| IsHead(q, i);
    RemoveAtLeaves(q, i);
    RemoveAtTotal(q, i);
    if AllWellWeighted(q) {
      RemoveAtWeighted(q, i);
    }
    r, at := Ok((q[i], RemoveAt(q, i))), i;
  }

  /** The loop shared by both versions: while more than one tree is queued,
      take out two trees of least count and queue their join (the first
      taken becomes the left child); then take out the last tree. An empty
      queue makes that final `remove` throw. The tree it yields is one the
      greedy order allows. */
  method JoinAll(q0: seq<Tree>) returns (r: Result<Tree>)
    requires AllWellWeighted(q0)
    ensures r.Thrown? <==> |q0| == 0
    ensures r.Thrown? ==> r.error == NoSuchElement
    ensures r.Ok? ==> Greedy(q0, r.value)
    ensures r.Ok? ==> WellWeighted(r.value)
    ensures r.Ok? ==> LeafBag(r.value) == QueueLeaves(q0)
    ensures r.Ok? ==> r.value.freq == QueueTotal(q0)
  {
    var q := q0;
    while |q| > 1
      invariant |q0| == 0 <==> |q| == 0
      invariant AllWellWeighted(q)
      invariant QueueLeaves(q) == QueueLeaves(q0)
      invariant QueueTotal(q) == QueueTotal(q0)
      invariant forall t :: Greedy(q, t) ==> Greedy(q0, t)
      decreases |q|
    {
      var q', i, j := JoinTwo(q);
      GreedyBack(q, i, j);
      q := q';
    }
    var last, _ := Remove(q);
    if last.Thrown? {
      return Thrown(last.error);
    }
    assert last.value.1 == [];
    assert q == [last.value.0];
    r := Ok(last.value.0);
  }

  /** One round of the loop: a tree of least count and then a tree of
      least count among the rest leave the queue, and their join goes in
      at the back, keeping every leaf and the total. */
  method JoinTwo(q: seq<Tree>) returns (q': seq<Tree>, ghost i: nat, ghost j: nat)
    requires |q| > 1 && AllWellWeighted(q)
    ensures i < |q| && j < |q| - 1 && IsHead(q, i) && IsHead(RemoveAt(q, i), j)
    ensures q' == Step(q, i, j)
    ensures AllWellWeighted(q')
    ensures QueueLeaves(q') == QueueLeaves(q)
    ensures QueueTotal(q') == QueueTotal(q)
  {
    var r1, i1 := Remove(q);
    var (t1, q1) := r1.value;
    var r2, i2 := Remove(q1);
    var (t2, q2) := r2.value;
    JoinRequeued(q2, t1, t2);
    q', i, j := q2 + [Join(t1, t2)], i1, i2;
  }

  // ---------------------------------------------------- the greedy order

  /** The queue after one round that takes out the tree at i, then the tree
      at j of what is left, and queues their join at the back. */
  function Step(q: seq<Tree>, i: nat, j: nat): (q': seq<Tree>)
    requires i < |q| && j < |q| - 1
    ensures |q'| == |q| - 1
  {
    var rest := RemoveAt(q, i);
    RemoveAt(rest, j) + [Join(q[i], rest[j])]
  }

  /** `t` is a tree the loop can end with from queue `q`: while more than
      one tree is queued, each round joins a tree of least count with a
      tree of least count among the rest, whichever of equal counts the
      heap yields, and t is the one tree left. An empty queue ends with no
      tree. */
  predicate Greedy(q: seq<Tree>, t: Tree)
    decreases |q|
  {
    if |q| <= 1 then q == [t]
    else exists i: nat, j: nat | i < |q| && j < |q| - 1 ::
      IsHead(q, i) && IsHead(RemoveAt(q, i), j) && Greedy(Step(q, i, j), t)
  }

  /** A greedy round followed by a greedy ending is a greedy ending. */
  lemma GreedyBack(q: seq<Tree>, i: nat, j: nat)
    requires i < |q| && j < |q| - 1 && IsHead(q, i) && IsHead(RemoveAt(q, i), j)
    ensures forall t :: Greedy(Step(q, i, j), t) ==> Greedy(q, t)
  {
  }

  /** `s` occurs in `t`: it is t or lies in one of its subtrees. */
  predicate Within(s: Tree, t: Tree) {
    s == t || (t.Node? && (Within(s, t.left) || Within(s, t.right)))
  }

  lemma {:induction false} WithinTrans(a: Tree, b: Tree, c: Tree)
    requires Within(a, b) && Within(b, c)
    ensures Within(a, c)
  {
    if b != c {
      if Within(b, c.left) {
        WithinTrans(a, b, c.left);
      } else {
        WithinTrans(a, b, c.right);
      }
    }
  }

  /** Every tree in the queue ends up, unchanged, inside the greedy result:
      joins only ever put trees under a new root. */
  lemma {:induction false} QueuedInResult(q: seq<Tree>, t: Tree, k: nat)
    requires Greedy(q, t) && k < |q|
    ensures Within(q[k], t)
    decreases |q|
  {
    if |q| > 1 {
      var i: nat, j: nat :| i < |q| && j < |q| - 1 &&
        IsHead(q, i) && IsHead(RemoveAt(q, i), j) && Greedy(Step(q, i, j), t);
      var k' := StepKeeps(q, i, j, k);
      QueuedInResult(Step(q, i, j), t, k');
      WithinTrans(q[k], Step(q, i, j)[k'], t);
    }
  }

  /** Where the tree at k is after a round: the same tree at a shifted
      index, or one of the two children of the join at the back. */
  lemma StepKeeps(q: seq<Tree>, i: nat, j: nat, k: nat) returns (k': nat)
    requires i < |q| && j < |q| - 1 && k < |q|
    ensures k' < |q| - 1 && Within(q[k], Step(q, i, j)[k'])
  {
    var rest := RemoveAt(q, i);
    var q' := Step(q, i, j);
    var last := |q| - 2;
    StepLast(q, i, j);
    if k == i {
      k' := last;
    } else {
      var r := if k < i then k else k - 1;
      RemoveAtAt(q, i, r);
      if r == j {
        k' := last;
      } else {
        k' := if r < j then r else r - 1;
        RemoveAtAt(rest, j, k');
        assert q'[k'] == RemoveAt(rest, j)[k'];
      }
    }
  }

  lemma RemoveAtAt(q: seq<Tree>, i: nat, k: nat)
    requires i < |q| && k < |q| - 1
    ensures RemoveAt(q, i)[k] == q[if k < i then k else k + 1]
  {
  }

  /** The first round's two trees are siblings in the result: a tree of
      least count in the queue and a tree of least count among the rest sit
      under one join of the greedy result. */
  lemma LeastAreSiblings(q: seq<Tree>, t: Tree)
    requires Greedy(q, t) && |q| > 1
    ensures exists i: nat, j: nat | i < |q| && j < |q| - 1 ::
      IsHead(q, i) && IsHead(RemoveAt(q, i), j) && Within(Join(q[i], RemoveAt(q, i)[j]), t)
  {
    var i: nat, j: nat :| i < |q| && j < |q| - 1 &&
      IsHead(q, i) && IsHead(RemoveAt(q, i), j) && Greedy(Step(q, i, j), t);
    StepLast(q, i, j);
    QueuedInResult(Step(q, i, j), t, |q| - 2);
  }

  /** The join of a round's two trees is the last tree queued. */
  lemma StepLast(q: seq<Tree>, i: nat, j: nat)
    requires i < |q| && j < |q| - 1
    ensures Step(q, i, j)[|q| - 2] == Join(q[i], RemoveAt(q, i)[j])
  {
  }

  // ------------------------------------------------------- initial queue

  /** The (character, count) pairs the loop over the count array queues:
      index i as a character with its count, for every positive count, in
      index order. */
  function CountedEntries(counts: seq<int>): (e: seq<(char, int)>)
    requires |counts| <= MaxAlphabet
    ensures forall k | 0 <= k < |e| :: e[k].0 as int < |counts| && e[k].1 == counts[e[k].0 as int] > 0
    ensures forall i | 0 <= i < |counts| && counts[i] > 0 :: (i as char, counts[i]) in e
    ensures forall a, b | 0 <= a < b < |e| :: e[a].0 < e[b].0
  {
    if counts == [] then []
    else
      var n := |counts| - 1;
      var e := CountedEntries(counts[..n]);
      if counts[n] > 0 then
        CountedAppend(counts, e);
        e + [(n as char, counts[n])]
      else
        CountedSkip(counts, e);
        e
  }

  /** The three facts `CountedEntries` promises of `e`. */
  predicate Counted(counts: seq<int>, e: seq<(char, int)>)
    requires |counts| <= MaxAlphabet
  {
    (forall k | 0 <= k < |e| :: e[k].0 as int < |counts| && e[k].1 == counts[e[k].0 as int] > 0) &&
    (forall i | 0 <= i < |counts| && counts[i] > 0 :: (i as char, counts[i]) in e) &&
    (forall a, b | 0 <= a < b < |e| :: e[a].0 < e[b].0)
  }

  /** One more index with a count of zero or less adds no pair. */
  lemma CountedSkip(counts: seq<int>, e: seq<(char, int)>)
    requires 0 < |counts| <= MaxAlphabet && Counted(counts[..|counts| - 1], e)
    requires counts[|counts| - 1] <= 0
    ensures Counted(counts, e)
  {
    var front := counts[..|counts| - 1];
    assert forall i | 0 <= i < |front| :: front[i] == counts[i];
  }

  /** One more index with a positive count: its pair goes last. */
  lemma CountedAppend(counts: seq<int>, e: seq<(char, int)>)
    requires 0 < |counts| <= MaxAlphabet && Counted(counts[..|counts| - 1], e)
    requires counts[|counts| - 1] > 0
    ensures Counted(counts, e + [((|counts| - 1) as char, counts[|counts| - 1])])
  {
    var n := |counts| - 1;
    var front := counts[..n];
    var e' := e + [(n as char, counts[n])];
    assert forall i | 0 <= i < n :: front[i] == counts[i];
    assert forall k | 0 <= k < |e| :: e'[k] == e[k];
    assert e'[|e|] == (n as char, counts[n]);
  }

  lemma {:induction false} NoPositiveCounts(counts: seq<int>)
    requires |counts| <= MaxAlphabet
    requires forall i | 0 <= i < |counts| :: counts[i] <= 0
    ensures CountedEntries(counts) == []
  {
    if counts != [] {
      NoPositiveCounts(counts[..|counts| - 1]);
    }
  }

  /** The leaves `new HNTree(c[i], (char) i)` queued for positive counts. */
  function InitialQueue(counts: seq<int>): (q: seq<Tree>)
    requires |counts| <= MaxAlphabet
  {
    if counts == [] then []
    else
      var n := |counts| - 1;
      var q := InitialQueue(counts[..n]);
      if counts[n] > 0 then q + [MakeLeaf(counts[n], n as char)] else q
  }

  lemma {:induction false} InitialQueueSpec(counts: seq<int>)
    requires |counts| <= MaxAlphabet
    ensures AllWellWeighted(InitialQueue(counts))
    ensures |InitialQueue(counts)| == |CountedEntries(counts)|
    ensures QueueLeaves(InitialQueue(counts)) == multiset(CountedEntries(counts))
    ensures QueueTotal(InitialQueue(counts)) == SumLeafFreqs(CountedEntries(counts))
  {
    if counts != [] {
      var n := |counts| - 1;
      InitialQueueSpec(counts[..n]);
      if counts[n] > 0 {
        QueuedLast(InitialQueue(counts[..n]), CountedEntries(counts[..n]), n as char, counts[n]);
      }
    }
  }

  /** Queueing one more leaf keeps the queue in step with the pairs it
      was built from. */
  lemma QueuedLast(q: seq<Tree>, e: seq<(char, int)>, c: char, f: int)
    requires AllWellWeighted(q) && |q| == |e|
    requires QueueLeaves(q) == multiset(e) && QueueTotal(q) == SumLeafFreqs(e)
    ensures AllWellWeighted(q + [MakeLeaf(f, c)])
    ensures |q + [MakeLeaf(f, c)]| == |e + [(c, f)]|
    ensures QueueLeaves(q + [MakeLeaf(f, c)]) == multiset(e + [(c, f)])
    ensures QueueTotal(q + [MakeLeaf(f, c)]) == SumLeafFreqs(e + [(c, f)])
  {
    QueuedLastWeights(q, MakeLeaf(f, c));
    QueuedLastLeaves(q, e, c, f);
    QueuedLastTotal(q, e, c, f);
  }

  lemma QueuedLastWeights(q: seq<Tree>, leaf: Tree)
    requires AllWellWeighted(q) && leaf.Leaf?
    ensures AllWellWeighted(q + [leaf])
  {
    assert WellWeighted(leaf);
  }

  lemma QueuedLastLeaves(q: seq<Tree>, e: seq<(char, int)>, c: char, f: int)
    requires QueueLeaves(q) == multiset(e)
    ensures QueueLeaves(q + [MakeLeaf(f, c)]) == multiset(e + [(c, f)])
  {
    var leaf := MakeLeaf(f, c);
    QueueConcat(q, [leaf]);
    assert [leaf][1..] == [];
    assert QueueLeaves([leaf]) == multiset{(c, f)};
  }

  lemma QueuedLastTotal(q: seq<Tree>, e: seq<(char, int)>, c: char, f: int)
    requires QueueTotal(q) == SumLeafFreqs(e)
    ensures QueueTotal(q + [MakeLeaf(f, c)]) == SumLeafFreqs(e + [(c, f)])
  {
    var leaf := MakeLeaf(f, c);
    QueueConcat(q, [leaf]);
    SumLeafFreqsConcat(e, [(c, f)]);
    assert [leaf][1..] == [];
  }

  /** What a tree built from `counts` consists of: well weighted, with
      exactly the leaves `entries`, the queued (character, count) pairs. */
  predicate BuiltFrom(t: Tree, entries: seq<(char, int)>) {
    WellWeighted(t) && LeafBag(t) == multiset(entries) && t.freq == SumLeafFreqs(entries)
  }

  /** The pairs the newer `getHTree` queues: the positive counts, then the
      sentinel (0, 1). */
  function SentinelEntries(counts: seq<int>): seq<(char, int)>
    requires |counts| <= MaxAlphabet
  {
    CountedEntries(counts) + [(EndChar, 1)]
  }

  /** `getHTree` of the newer codec: one leaf per positive count plus the
      sentinel leaf (0, 1), joined two least trees at a time. The queue is
      never empty, so it always yields a tree; its leaves are exactly the
      queued pairs and its root count is their total, the positive counts
      plus one. */
  method GetHTree(counts: seq<int>) returns (t: Tree)
    requires |counts| <= MaxAlphabet
    ensures Greedy(InitialQueue(counts) + [MakeLeaf(1, EndChar)], t)
    ensures BuiltFrom(t, SentinelEntries(counts))
    ensures t.freq == SumLeafFreqs(CountedEntries(counts)) + 1
  {
    var q := InitialQueue(counts) + [MakeLeaf(1, EndChar)];
    SentinelQueue(counts);
    SentinelTotal(counts);
    var r := JoinAll(q);
    t := r.value;
  }

  /** The queue the newer `getHTree` starts from. */
  lemma SentinelQueue(counts: seq<int>)
    requires |counts| <= MaxAlphabet
    ensures AllWellWeighted(InitialQueue(counts) + [MakeLeaf(1, EndChar)])
    ensures QueueLeaves(InitialQueue(counts) + [MakeLeaf(1, EndChar)]) == multiset(SentinelEntries(counts))
    ensures QueueTotal(InitialQueue(counts) + [MakeLeaf(1, EndChar)]) == SumLeafFreqs(CountedEntries(counts)) + 1
  {
    InitialQueueSpec(counts);
    Appended(InitialQueue(counts), MakeLeaf(1, EndChar));
  }

  lemma SentinelTotal(counts: seq<int>)
    requires |counts| <= MaxAlphabet
    ensures SumLeafFreqs(SentinelEntries(counts)) == SumLeafFreqs(CountedEntries(counts)) + 1
  {
    SumLeafFreqsSnoc(CountedEntries(counts), (EndChar, 1));
  }

  /** `getHTree` of the earlier codec: no sentinel, so an all-zero count
      array leaves the queue empty and the final `remove` throws. */
  method GetHTreeLegacy(counts: seq<int>) returns (r: Result<Tree>)
    requires |counts| <= MaxAlphabet
    ensures r.Thrown? <==> forall i | 0 <= i < |counts| :: counts[i] <= 0
    ensures r.Thrown? ==> r.error == NoSuchElement
    ensures r.Ok? ==> Greedy(InitialQueue(counts), r.value)
    ensures r.Ok? ==> BuiltFrom(r.value, CountedEntries(counts))
  {
    InitialQueueSpec(counts);
    r := JoinAll(InitialQueue(counts));
    if r.Ok? {
      assert |CountedEntries(counts)| > 0;
    }
  }
}
