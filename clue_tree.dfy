/** The tree of collected clues (`PistaNode`): a binary search tree keyed by
    clue text under `strcmp` order. Insertion drops a text already present,
    and the in-order walk lists the clues in alphabetical order. The C code
    links nodes in place; here the tree is a value and insertion returns the
    new tree, as `inserirPista` returns the new root. */
module ClueTree {
  import opened StringOrder

  datatype Tree = Leaf | Node(text: string, left: Tree, right: Tree)

  /** The set of texts held in the tree. */
  function Elems(t: Tree): set<string> {
    match t
    case Leaf => {}
    case Node(x, l, r) => Elems(l) + {x} + Elems(r)
  }

  /** The number of nodes. */
  function Size(t: Tree): nat {
    match t
    case Leaf => 0
    case Node(_, l, r) => Size(l) + 1 + Size(r)
  }

  /** The search-tree invariant: every text in a left subtree is strictly
      below its node's text, every text in a right subtree strictly above. */
  predicate BST(t: Tree) {
    match t
    case Leaf => true
    case Node(x, l, r) =>
      BST(l) && BST(r) &&
      (forall y :: y in Elems(l) ==> Lt(y, x)) &&
      (forall y :: y in Elems(r) ==> Lt(x, y))
  }

  /** `criarNoPista`: a node holding `p` with no children. */
  function NewNode(p: string): (r: Tree)
    ensures BST(r) && Elems(r) == {p} && Size(r) == 1
    ensures InOrder(r) == [p]
  {
    Node(p, Leaf, Leaf)
  }

  /** `inserirPista`: descend left while `strcmp(p, text) < 0`, right while
      it is positive, and leave the tree as it is when the text is found. */
  function Insert(t: Tree, p: string): (r: Tree)
    ensures Elems(r) == Elems(t) + {p}
    ensures t == Leaf ==> r == NewNode(p)
  {
    match t
    case Leaf => NewNode(p)
    case Node(x, l, rt) =>
      if Compare(p, x) < 0 then Node(x, Insert(l, p), rt)
      else if Compare(p, x) > 0 then Node(x, l, Insert(rt, p))
      else
        CompareZeroIffEqual(p, x);
        t
  }

  /** `exibirPistas`, as the sequence of texts it prints: left subtree,
      node, right subtree. */
  function InOrder(t: Tree): (s: seq<string>)
    ensures |s| == Size(t)
    ensures forall y :: y in s <==> y in Elems(t)
  {
    match t
    case Leaf => []
    case Node(x, l, r) => InOrder(l) + [x] + InOrder(r)
  }

  /** Strictly ascending in `strcmp` order, hence without repeats. */
  ghost predicate Ascending(s: seq<string>) {
    forall i, j :: 0 <= i < j < |s| ==> Lt(s[i], s[j])
  }

  /** Inserting the texts `ps` one after another, as exploration does. */
  function InsertAll(t: Tree, ps: seq<string>): (r: Tree)
    ensures forall y :: y in Elems(r) <==> y in Elems(t) || y in ps
    decreases |ps|
  {
    if ps == [] then t else InsertAll(Insert(t, ps[0]), ps[1..])
  }

  lemma {:induction false} InsertKeepsBST(t: Tree, p: string)
    requires BST(t)
    ensures BST(Insert(t, p))
  {
    match t
    case Leaf =>
    case Node(x, l, r) =>
      if Compare(p, x) < 0 {
        InsertKeepsBST(l, p);
      } else if Compare(p, x) > 0 {
        CompareFlip(p, x);
        InsertKeepsBST(r, p);
      }
  }

  /** A text already in a search tree is found on the search path, so
      neither branch fires and the tree comes back unchanged. */
  lemma {:induction false} InsertExisting(t: Tree, p: string)
    requires BST(t) && p in Elems(t)
    ensures Insert(t, p) == t
  {
    match t
    case Leaf =>
    case Node(x, l, r) =>
      if Compare(p, x) < 0 {
        if p in Elems(r) {
          LtAsymmetric(x, p);
          assert false;
        }
        if p == x {
          LtIrreflexive(p);
          assert false;
        }
        InsertExisting(l, p);
      } else if Compare(p, x) > 0 {
        CompareFlip(p, x);
        if p in Elems(l) {
          LtAsymmetric(x, p);
          assert false;
        }
        if p == x {
          LtIrreflexive(p);
          assert false;
        }
        InsertExisting(r, p);
      }
  }

  /** A new text adds exactly one node. */
  lemma {:induction false} InsertNewGrows(t: Tree, p: string)
    requires p !in Elems(t)
    ensures Size(Insert(t, p)) == Size(t) + 1
  {
    match t
    case Leaf =>
    case Node(x, l, r) =>
      CompareZeroIffEqual(p, x);
      if Compare(p, x) < 0 {
        InsertNewGrows(l, p);
      } else {
        InsertNewGrows(r, p);
      }
  }

  /** The node count grows by one exactly for a text not yet collected. */
  lemma InsertSize(t: Tree, p: string)
    requires BST(t)
    ensures Size(Insert(t, p)) == if p in Elems(t) then Size(t) else Size(t) + 1
  {
    if p in Elems(t) {
      InsertExisting(t, p);
    } else {
      InsertNewGrows(t, p);
    }
  }

  /** Inserting the same text twice is the same as inserting it once. */
  lemma InsertIdempotent(t: Tree, p: string)
    requires BST(t)
    ensures Insert(Insert(t, p), p) == Insert(t, p)
  {
    InsertKeepsBST(t, p);
    InsertExisting(Insert(t, p), p);
  }

  /** The in-order walk of a search tree is strictly ascending. */
  lemma {:induction false} InOrderAscending(t: Tree)
    requires BST(t)
    ensures Ascending(InOrder(t))
  {
    match t
    case Leaf =>
    case Node(x, l, r) =>
      InOrderAscending(l);
      InOrderAscending(r);
      var sl, sr := InOrder(l), InOrder(r);
      var s := sl + [x] + sr;
      forall i, j | 0 <= i < j < |s|
        ensures Lt(s[i], s[j])
      {
        var n := |sl|;
        if j < n {
          assert s[i] == sl[i] && s[j] == sl[j];
        } else if j == n {
          assert s[i] == sl[i] && s[i] in Elems(l);
        } else if i < n {
          assert s[i] == sl[i] && s[i] in Elems(l);
          assert s[j] == sr[j - n - 1] && s[j] in Elems(r);
          LtTransitive(s[i], x, s[j]);
        } else if i == n {
          assert s[j] == sr[j - n - 1] && s[j] in Elems(r);
        } else {
          assert s[i] == sr[i - n - 1] && s[j] == sr[j - n - 1];
        }
      }
  }

  /** In a search tree the node count is the number of distinct texts. */
  lemma {:induction false} BSTSizeIsDistinctCount(t: Tree)
    requires BST(t)
    ensures Size(t) == |Elems(t)|
  {
    match t
    case Leaf =>
    case Node(x, l, r) =>
      BSTSizeIsDistinctCount(l);
      BSTSizeIsDistinctCount(r);
      if x in Elems(l) {
        LtIrreflexive(x);
        assert false;
      }
      if x in Elems(r) {
        LtIrreflexive(x);
        assert false;
      }
      forall y | y in Elems(l) ensures y !in Elems(r) {
        if y in Elems(r) {
          LtTransitive(y, x, y);
          LtIrreflexive(y);
        }
      }
      assert Elems(l) * Elems(r) == {};
      assert |Elems(l) + Elems(r)| == |Elems(l)| + |Elems(r)|;
  }

  /** Two strictly ascending listings of the same texts are equal. */
  lemma {:induction false} AscendingUnique(a: seq<string>, b: seq<string>)
    requires Ascending(a) && Ascending(b)
    requires forall y :: y in a <==> y in b
    ensures a == b
    decreases |a|
  {
    assert |b| > 0 ==> b[0] in b;
    if a != [] {
      assert a[0] in b;
      var k :| 0 <= k < |b| && b[k] == a[0];
      assert b[0] in a;
      var m :| 0 <= m < |a| && a[m] == b[0];
      assert b[0] == a[0] || Lt(b[0], a[0]);
      assert a[0] == b[0] || Lt(a[0], b[0]);
      LtAsymmetric(a[0], b[0]);
      assert a[0] == b[0];
      LtIrreflexive(a[0]);
      forall y ensures y in a[1..] <==> y in b[1..] {
        if y in a[1..] {
          var i :| 1 <= i < |a| && a[i] == y;
          assert Lt(a[0], y);
          assert y != b[0] && y in b;
        }
        if y in b[1..] {
          var i :| 1 <= i < |b| && b[i] == y;
          assert Lt(b[0], y);
          assert y != a[0] && y in a;
        }
      }
      AscendingUnique(a[1..], b[1..]);
      assert a == [a[0]] + a[1..];
      assert b == [b[0]] + b[1..];
    }
  }

  lemma {:induction false} InsertAllKeepsBST(t: Tree, ps: seq<string>)
    requires BST(t)
    ensures BST(InsertAll(t, ps))
    decreases |ps|
  {
    if ps != [] {
      InsertKeepsBST(t, ps[0]);
      InsertAllKeepsBST(Insert(t, ps[0]), ps[1..]);
    }
  }

  /** Collecting clues from an empty tree and listing them yields the
      distinct clues, strictly ascending. */
  lemma ListingIsSortedDistinct(ps: seq<string>)
    ensures Ascending(InOrder(InsertAll(Leaf, ps)))
    ensures forall y :: y in InOrder(InsertAll(Leaf, ps)) <==> y in ps
    ensures |InOrder(InsertAll(Leaf, ps))| == |set y | y in ps|
  {
    var t := InsertAll(Leaf, ps);
    InsertAllKeepsBST(Leaf, ps);
    InOrderAscending(t);
    BSTSizeIsDistinctCount(t);
    assert Elems(t) == set y | y in ps;
  }

  /** The listing does not depend on the order in which the clues were
      found, only on which clues were found. */
  lemma InsertionOrderIrrelevant(ps: seq<string>, qs: seq<string>)
    requires forall y :: y in ps <==> y in qs
    ensures InOrder(InsertAll(Leaf, ps)) == InOrder(InsertAll(Leaf, qs))
  {
    ListingIsSortedDistinct(ps);
    ListingIsSortedDistinct(qs);
    AscendingUnique(InOrder(InsertAll(Leaf, ps)), InOrder(InsertAll(Leaf, qs)));
  }
}
