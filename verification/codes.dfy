/** Code assignment and lookup over the tree: `setCode`/`getCode` (the same
    in both codec versions) and the newer codec's `inOrderSearch`. `setCode`
    gives a left child its parent's code plus "0" and a right child its
    parent's code plus "1", starting from the root's empty code, so every
    node's code is its path from the root; that path is what the model
    computes in place of the mutable `code` field. */
module Codes {
  import opened Base
  import opened Trees

  /** The `c[(int) r.ch] = r.code` writes `setCode(r, c)` makes, in the
      order it makes them, when r's code is `code`: one per leaf, left to
      right. A lone leaf keeps the code it has. */
  function SetCode(t: Tree, code: Bits): (writes: seq<(char, Bits)>)
    ensures |writes| == |Leaves(t)|
    ensures forall k | 0 <= k < |writes| :: writes[k].0 == Leaves(t)[k].0
    ensures forall k | 0 <= k < |writes| :: IsPrefix(code, writes[k].1)
    ensures t.Node? ==> forall k | 0 <= k < |writes| :: |writes[k].1| > |code|
    ensures t.Leaf? ==> writes == [(t.ch, code)]
  {
    match t
    case Leaf(c, _) => [(c, code)]
    case Node(_, l, r) => SetCode(l, code + [false]) + SetCode(r, code + [true])
  }

  /** A node's writes are its left subtree's, then its right subtree's. */
  lemma SetCodeNode(t: Tree, code: Bits)
    requires t.Node?
    ensures SetCode(t, code) == SetCode(t.left, code + [false]) + SetCode(t.right, code + [true])
  {
  }

  /** The subtree reached from `t` by following `path`: 0 goes left, 1
      goes right. */
  function Follow(t: Tree, path: Bits): Option<Tree>
    decreases |path|
  {
    if path == [] then Some(t)
    else match t
      case Leaf(_, _) => None
      case Node(_, l, r) => Follow(if path[0] then r else l, path[1..])
  }

  /** Following the rest of a path that extends code + [bit] from a node
      is following the rest of it from the child that bit names. */
  lemma FollowStep(t: Tree, code: Bits, bit: bool, w: Bits)
    requires t.Node? && IsPrefix(code + [bit], w)
    ensures Follow(t, w[|code|..]) == Follow(if bit then t.right else t.left, w[|code| + 1..])
  {
    var n := |code|;
    assert w[n] == (code + [bit])[n] == bit;
    assert w[n..][1..] == w[n + 1..];
  }

  /** No code in the list is a prefix of a different entry's code. */
  predicate PrefixFree(writes: seq<(char, Bits)>) {
    forall i, j | 0 <= i < |writes| && 0 <= j < |writes| && i != j :: !IsPrefix(writes[i].1, writes[j].1)
  }

  /** The leaf codes `setCode` assigns are pairwise prefix-free. */
  lemma {:induction false} CodesArePrefixFree(t: Tree, code: Bits)
    ensures PrefixFree(SetCode(t, code))
  {
    match t
    case Leaf(_, _) =>
    case Node(_, l, r) =>
      var a, b := SetCode(l, code + [false]), SetCode(r, code + [true]);
      CodesArePrefixFree(l, code + [false]);
      CodesArePrefixFree(r, code + [true]);
      var w := a + b;
      forall i, j | 0 <= i < |w| && 0 <= j < |w| && i != j
        ensures !IsPrefix(w[i].1, w[j].1)
      {
        var n := |code|;
        if i < |a| && j >= |a| {
          assert IsPrefix(code + [false], w[i].1) && IsPrefix(code + [true], w[j].1);
          assert w[i].1[n] == (code + [false])[n];
          assert w[j].1[n] == (code + [true])[n];
        } else if i >= |a| && j < |a| {
          assert IsPrefix(code + [true], w[i].1) && IsPrefix(code + [false], w[j].1);
          assert w[i].1[n] == (code + [true])[n];
          assert w[j].1[n] == (code + [false])[n];
        } else if i < |a| {
          assert w[i] == a[i] && w[j] == a[j];
        } else {
          assert w[i] == b[i - |a|] && w[j] == b[j - |a|];
        }
      }
  }

  /** Each leaf's code is its path from the root: following the code from
      the root ends at exactly that leaf. */
  lemma {:induction false} CodeIsRootPath(t: Tree, code: Bits, k: nat)
    requires k < |Leaves(t)|
    ensures IsPrefix(code, SetCode(t, code)[k].1)
    ensures Follow(t, SetCode(t, code)[k].1[|code|..]) == Some(Leaf(Leaves(t)[k].0, Leaves(t)[k].1))
  {
    match t
    case Leaf(_, _) =>
      assert SetCode(t, code)[k].1[|code|..] == [];
    case Node(_, l, r) =>
      var a := SetCode(l, code + [false]);
      var w := SetCode(t, code);
      var n := |code|;
      if k < |a| {
        CodeIsRootPath(l, code + [false], k);
        assert w[k] == a[k];
        assert Leaves(t)[k] == Leaves(l)[k];
        assert w[k].1[n] == false by {
          assert (code + [false])[n] == false;
        }
        assert w[k].1[n..][1..] == w[k].1[n + 1..];
      } else {
        var k' := k - |a|;
        CodeIsRootPath(r, code + [true], k');
        assert w[k] == SetCode(r, code + [true])[k'];
        assert Leaves(t)[k] == Leaves(r)[k'];
        assert w[k].1[n] == true by {
          assert (code + [true])[n] == true;
        }
        assert w[k].1[n..][1..] == w[k].1[n + 1..];
      }
  }

  /** The code `setCode` left in the array for character c: the one of the
      last write for c, if any. */
  function LastCodeFor(writes: seq<(char, Bits)>, c: char): Option<Bits> {
    if writes == [] then None
    else if writes[|writes| - 1].0 == c then Some(writes[|writes| - 1].1)
    else LastCodeFor(writes[..|writes| - 1], c)
  }

  /** Applies the writes to the 256-entry code array, in order. A character
      at or above 256 makes the store throw. */
  function ApplyWrites(writes: seq<(char, Bits)>, arr: seq<Option<Bits>>): (r: Result<seq<Option<Bits>>>)
    requires |arr| == 256
    ensures r.Ok? <==> forall k | 0 <= k < |writes| :: writes[k].0 as int < 256
    ensures r.Thrown? ==> r.error == IndexOutOfBounds
    ensures r.Ok? ==> |r.value| == 256 && forall c | 0 <= c < 256 ::
      r.value[c] == (if LastCodeFor(writes, c as char).Some? then LastCodeFor(writes, c as char) else arr[c])
    decreases |writes|
  {
    if writes == [] then Ok(arr)
    else
      var n := |writes| - 1;
      var (c, code) := writes[n];
      match ApplyWrites(writes[..n], arr)
      case Thrown(e) => Thrown(e)
      case Ok(a) =>
        if c as int < |a| then
          var a' := a[c as int := Some(code)];
          Ok(a')
        else Thrown(IndexOutOfBounds)
  }

  /** `getCode`: null for a null root; otherwise a 256-entry array whose
      entry c is the code of a leaf for c (the rightmost one when several
      leaves carry c) and null where no leaf carries c. A leaf character at
      or above 256 makes the store throw. */
  function GetCode(root: Option<Tree>): (r: Result<Option<seq<Option<Bits>>>>)
    ensures root.None? ==> r == Ok(None)
    ensures root.Some? ==> (r.Ok? <==> forall c | c in LeafChars(root.value) :: c as int < 256)
    ensures r.Ok? && root.Some? ==> r.value.Some? && |r.value.value| == 256 && forall c | 0 <= c < 256 ::
      r.value.value[c] == LastCodeFor(SetCode(root.value, []), c as char)
  {
    match root
    case None => Ok(None)
    case Some(t) =>
      var writes := SetCode(t, []);
      assert forall c | c in LeafChars(t) :: exists k :: 0 <= k < |writes| && writes[k].0 == c;
      assert forall k | 0 <= k < |writes| :: writes[k].0 in LeafChars(t) by {
        forall k | 0 <= k < |writes| ensures writes[k].0 in LeafChars(t) {
          assert writes[k].0 == Leaves(t)[k].0;
        }
      }
      match ApplyWrites(writes, seq(256, _ => None))
      case Thrown(e) => Thrown(e)
      case Ok(a) => Ok(Some(a))
  }

  /** A leaf's code as the array holds it is one `setCode` wrote for it. */
  lemma {:induction false} LastCodeIsWritten(writes: seq<(char, Bits)>, c: char)
    ensures LastCodeFor(writes, c).Some? <==> exists k :: 0 <= k < |writes| && writes[k].0 == c
    ensures LastCodeFor(writes, c).Some? ==> (c, LastCodeFor(writes, c).value) in writes
  {
    if writes != [] {
      var n := |writes| - 1;
      LastCodeIsWritten(writes[..n], c);
      if writes[n].0 != c {
        assert forall k | 0 <= k < n :: writes[..n][k] == writes[k];
        if exists k :: 0 <= k < |writes| && writes[k].0 == c {
          var k :| 0 <= k < |writes| && writes[k].0 == c;
          assert k < n && writes[..n][k].0 == c;
        }
      }
    }
  }

  /** `inOrderSearch(n, c)`: the code of the first node, in pre-order (a
      node before its children, left before right), whose character is c;
      None (null) if there is none. `code` is the code of `t`. */
  function InOrderSearch(t: Tree, c: char, code: Bits): Option<Bits> {
    if NodeChar(t) == c then Some(code)
    else match t
      case Leaf(_, _) => None
      case Node(_, l, r) =>
        var found := InOrderSearch(l, c, code + [false]);
        if found.Some? then found else InOrderSearch(r, c, code + [true])
  }

  /** For a character other than ' ', the search finds a leaf: it answers
      exactly when some leaf carries c, and with a code `setCode` gave such a
      leaf. */
  lemma {:induction false} SearchFindsLeaf(t: Tree, c: char, code: Bits)
    requires c != JoinChar
    ensures InOrderSearch(t, c, code).Some? <==> c in LeafChars(t)
    ensures InOrderSearch(t, c, code).Some? ==> (c, InOrderSearch(t, c, code).value) in SetCode(t, code)
  {
    match t
    case Leaf(_, _) =>
      assert Leaves(t)[0].0 == t.ch;
    case Node(_, l, r) =>
      SearchFindsLeaf(l, c, code + [false]);
      SearchFindsLeaf(r, c, code + [true]);
      LeafCharsOfNode(t);
  }

  lemma LeafCharsOfNode(t: Tree)
    requires t.Node?
    ensures LeafChars(t) == LeafChars(t.left) + LeafChars(t.right)
  {
    var a, b := Leaves(t.left), Leaves(t.right);
    var ab: seq<(char, int)> := a + b;
    assert Leaves(t) == ab;
    forall x | x in LeafChars(t) ensures x in LeafChars(t.left) + LeafChars(t.right) {
      var i: int :| 0 <= i < |ab| && ab[i].0 == x;
      if i < |a| { assert a[i].0 == x; } else { assert b[i - |a|].0 == x; }
    }
    forall x | x in LeafChars(t.left) + LeafChars(t.right) ensures x in LeafChars(t) {
      if x in LeafChars(t.left) {
        var i: int :| 0 <= i < |a| && a[i].0 == x;
        assert ab[i].0 == x;
      } else {
        var i: int :| 0 <= i < |b| && b[i].0 == x;
        assert ab[|a| + i].0 == x;
      }
    }
  }

  /** The quirk of the join marker: searching for ' ' in a tree with joins
      stops at the root, whose code is the empty string. */
  lemma SpaceFindsRoot(t: Tree, code: Bits)
    requires t.Node?
    ensures InOrderSearch(t, JoinChar, code) == Some(code)
  {
  }
}
