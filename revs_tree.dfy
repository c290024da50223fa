/**
  The revision tree of a shared document (RevsTree of pkg/sharing/shared.go),
  a CouchDB-style history: every node holds a revision "generation-hash" and
  the ordered list of the revisions whose parent it is. One branch is the
  usual linear history; several branches are a conflict.

  The Go code mutates the tree in place through pointers into the slices of
  branches. Here a tree is a value, an operation returns the new tree, and a
  pointer into the tree is a Path: the list of branch indices that leads
  from the root to the node.
*/
module RevsTrees {

  import opened Wrappers
  import opened Strings

  datatype RevsTree = RevsTree(rev: string, branches: seq<RevsTree>)

  /** The branch indices from the root to a node: a stand-in for a *RevsTree into the tree. */
  type Path = seq<nat>

  function Leaf(rev: string): RevsTree {
    RevsTree(rev, [])
  }

  // ---------------------------------------------------------------------
  // RevGeneration

  /**
    The generation of a revision: the integer before the first hyphen, or 0
    when that prefix is not an integer that strconv.Atoi accepts.
  */
  function RevGeneration(rev: string): (g: int)
    ensures g >= 0
  {
    var parts := SplitFirst(rev, '-');
    assert |parts[0]| > 0 ==> parts[0][0] != '-';
    match Atoi(parts[0])
    case Some(n) => n
    case None => 0
  }

  /** The generation of a revision written "<n>-<hash>" is n. */
  lemma RevGenerationOfRevision(n: int, hash: string)
    requires 0 <= n <= MaxInt64
    ensures RevGeneration(DecimalString(n) + "-" + hash) == n
  {
    var d := DecimalString(n);
    var rev := d + "-" + hash;
    assert rev[|d|] == '-';
    assert forall j :: 0 <= j < |d| ==> rev[j] == d[j];
    var i := FirstIndex(rev, '-');
    assert i == |d|;
    assert rev[..|d|] == d;
    assert SplitFirst(rev, '-')[0] == d;
    AtoiOfDecimalString(n);
  }

  // ---------------------------------------------------------------------
  // Paths into a tree

  predicate ValidPath(t: RevsTree, p: Path)
    decreases p
  {
    p == [] || (p[0] < |t.branches| && ValidPath(t.branches[p[0]], p[1..]))
  }

  /** The sub-tree a path points to. */
  function At(t: RevsTree, p: Path): RevsTree
    requires ValidPath(t, p)
    decreases p
  {
    if p == [] then t else At(t.branches[p[0]], p[1..])
  }

  /** Following p then q is following p + q. */
  lemma {:induction false} AtAppend(t: RevsTree, p: Path, q: Path)
    requires ValidPath(t, p)
    ensures ValidPath(t, p + q) <==> ValidPath(At(t, p), q)
    ensures ValidPath(t, p + q) ==> At(t, p + q) == At(At(t, p), q)
    decreases p
  {
    if p != [] {
      assert (p + q)[0] == p[0] && (p + q)[1..] == p[1..] + q;
      AtAppend(t.branches[p[0]], p[1..], q);
    } else {
      assert p + q == q;
    }
  }

  /** rev occurs somewhere in the tree. */
  predicate Contains(t: RevsTree, rev: string)
    decreases t
  {
    t.rev == rev || exists i :: 0 <= i < |t.branches| && Contains(t.branches[i], rev)
  }

  lemma {:induction false} AtContains(t: RevsTree, p: Path)
    requires ValidPath(t, p)
    ensures Contains(t, At(t, p).rev)
    decreases p
  {
    if p != [] {
      AtContains(t.branches[p[0]], p[1..]);
    }
  }

  /**
    Every node of t is in r at the same place with the same revision: r is
    t with nodes added.
  */
  ghost predicate Extends(t: RevsTree, r: RevsTree) {
    forall q :: ValidPath(t, q) ==> ValidPath(r, q) && At(r, q).rev == At(t, q).rev
  }

  lemma ExtendsTransitive(a: RevsTree, b: RevsTree, c: RevsTree)
    requires Extends(a, b) && Extends(b, c)
    ensures Extends(a, c)
  {
  }

  /** p comes before q in a pre-order (depth-first, left to right) walk. */
  predicate PreOrderBefore(p: Path, q: Path)
    decreases |p|
  {
    if p == [] then q != []
    else q != [] && (p[0] < q[0] || (p[0] == q[0] && PreOrderBefore(p[1..], q[1..])))
  }

  // ---------------------------------------------------------------------
  // Clone, Generation, Find

  /** RevsTree.Clone: a deep copy, which is the same value. */
  function Clone(t: RevsTree): (c: RevsTree)
    ensures c == t
    decreases t
  {
    var bs := seq(|t.branches|, i requires 0 <= i < |t.branches| => Clone(t.branches[i]));
    assert bs == t.branches;
    RevsTree(t.rev, bs)
  }

  function Max(a: int, b: int): int {
    if a < b then b else a
  }

  /**
    RevsTree.Generation: for a leaf, the generation of its revision; for
    another node, the largest generation of its branches (starting from 0),
    ignoring the node's own revision.
  */
  function Generation(t: RevsTree): (g: int)
    ensures g >= 0
    decreases t, |t.branches| + 1
  {
    if |t.branches| == 0 then RevGeneration(t.rev) else MaxGeneration(t, 0)
  }

  /** The largest generation of t.branches[k..], or 0 when there is none. */
  function MaxGeneration(t: RevsTree, k: nat): (g: int)
    requires k <= |t.branches|
    ensures g >= 0
    decreases t, |t.branches| - k
  {
    if k == |t.branches| then 0 else Max(Generation(t.branches[k]), MaxGeneration(t, k + 1))
  }

  predicate IsLeafPath(t: RevsTree, p: Path) {
    ValidPath(t, p) && At(t, p).branches == []
  }

  lemma {:induction false} MaxGenerationBounds(t: RevsTree, k: nat)
    requires k <= |t.branches|
    ensures forall j :: k <= j < |t.branches| ==> Generation(t.branches[j]) <= MaxGeneration(t, k)
    ensures k < |t.branches| ==> exists j :: k <= j < |t.branches| && Generation(t.branches[j]) == MaxGeneration(t, k)
    decreases |t.branches| - k
  {
    if k < |t.branches| {
      MaxGenerationBounds(t, k + 1);
    }
  }

  /**
    The generation of a tree is the largest generation of the revisions at
    its leaves: no leaf has a greater one, and some leaf has exactly it.
  */
  lemma {:induction false} GenerationIsMaxOverLeaves(t: RevsTree)
    ensures forall p :: IsLeafPath(t, p) ==> RevGeneration(At(t, p).rev) <= Generation(t)
    ensures exists p :: IsLeafPath(t, p) && RevGeneration(At(t, p).rev) == Generation(t)
    decreases t
  {
    if |t.branches| == 0 {
      assert IsLeafPath(t, []);
      forall p | IsLeafPath(t, p) ensures p == [] {
      }
    } else {
      MaxGenerationBounds(t, 0);
      forall p | IsLeafPath(t, p)
        ensures RevGeneration(At(t, p).rev) <= Generation(t)
      {
        assert p != [];
        var b := t.branches[p[0]];
        GenerationIsMaxOverLeaves(b);
        assert IsLeafPath(b, p[1..]);
      }
      var j :| 0 <= j < |t.branches| && Generation(t.branches[j]) == MaxGeneration(t, 0);
      GenerationIsMaxOverLeaves(t.branches[j]);
      var q :| IsLeafPath(t.branches[j], q) && RevGeneration(At(t.branches[j], q).rev) == Generation(t.branches[j]);
      assert ([j] + q)[0] == j && ([j] + q)[1..] == q;
      assert IsLeafPath(t, [j] + q);
    }
  }

  /**
    RevsTree.Find: the path of the first node, in pre-order, whose revision
    is rev; None exactly when no node has it.
  */
  function Find(t: RevsTree, rev: string): (r: Option<Path>)
    ensures r.Some? ==> ValidPath(t, r.value) && At(t, r.value).rev == rev
    ensures r.None? <==> !Contains(t, rev)
    ensures r.Some? && r.value != [] ==> t.rev != rev
    decreases t, |t.branches| + 1
  {
    if t.rev == rev then Some([]) else FindIn(t, rev, 0)
  }

  /** The search of Find over the branches t.branches[k..], in order. */
  function FindIn(t: RevsTree, rev: string, k: nat): (r: Option<Path>)
    requires k <= |t.branches|
    ensures r.Some? ==> r.value != [] && k <= r.value[0] < |t.branches|
    ensures r.Some? ==> Find(t.branches[r.value[0]], rev) == Some(r.value[1..])
    ensures r.Some? ==> forall i :: k <= i < r.value[0] ==> !Contains(t.branches[i], rev)
    ensures r.Some? ==> ValidPath(t, r.value) && At(t, r.value).rev == rev
    ensures r.None? <==> forall i :: k <= i < |t.branches| ==> !Contains(t.branches[i], rev)
    decreases t, |t.branches| - k
  {
    if k == |t.branches| then None
    else
      match Find(t.branches[k], rev)
      case Some(p) =>
        assert ([k] + p)[1..] == p;
        Some([k] + p)
      case None => FindIn(t, rev, k + 1)
  }

  /** The node Find returns comes before every other node holding rev, in pre-order. */
  lemma {:induction false} FindIsFirst(t: RevsTree, rev: string, q: Path)
    requires ValidPath(t, q) && At(t, q).rev == rev
    requires Find(t, rev).Some? && Find(t, rev).value != q
    ensures PreOrderBefore(Find(t, rev).value, q)
    decreases t
  {
    var p := Find(t, rev).value;
    if p != [] {
      assert q != [];
      var b := t.branches[q[0]];
      AtContains(b, q[1..]);
      if q[0] == p[0] {
        FindIsFirst(b, rev, q[1..]);
      }
    }
  }

  // ---------------------------------------------------------------------
  // Grafting a new leaf: what every insertion does

  /** The tree with a new leaf rev appended as the last branch of the node at p. */
  function Graft(t: RevsTree, p: Path, rev: string): (r: RevsTree)
    requires ValidPath(t, p)
    ensures r.rev == t.rev
    decreases p
  {
    if p == [] then RevsTree(t.rev, t.branches + [Leaf(rev)])
    else RevsTree(t.rev, t.branches[p[0] := Graft(t.branches[p[0]], p[1..], rev)])
  }

  /** Every path of t stays valid, with the same revision, after a graft. */
  lemma {:induction false} GraftKeepsPath(t: RevsTree, p: Path, rev: string, q: Path)
    requires ValidPath(t, p) && ValidPath(t, q)
    ensures ValidPath(Graft(t, p, rev), q) && At(Graft(t, p, rev), q).rev == At(t, q).rev
    decreases q
  {
    if q != [] && p != [] && p[0] == q[0] {
      GraftKeepsPath(t.branches[p[0]], p[1..], rev, q[1..]);
    }
  }

  lemma GraftExtends(t: RevsTree, p: Path, rev: string)
    requires ValidPath(t, p)
    ensures Extends(t, Graft(t, p, rev))
  {
    forall q | ValidPath(t, q)
      ensures ValidPath(Graft(t, p, rev), q) && At(Graft(t, p, rev), q).rev == At(t, q).rev
    {
      GraftKeepsPath(t, p, rev, q);
    }
  }

  /** The node at p gets the new leaf as its last branch and keeps its other branches. */
  lemma {:induction false} GraftAt(t: RevsTree, p: Path, rev: string)
    requires ValidPath(t, p)
    ensures ValidPath(Graft(t, p, rev), p)
    ensures At(Graft(t, p, rev), p) == RevsTree(At(t, p).rev, At(t, p).branches + [Leaf(rev)])
    decreases p
  {
    if p != [] {
      GraftAt(t.branches[p[0]], p[1..], rev);
    }
  }

  /** The new leaf sits at p extended by the old number of branches of the node at p. */
  lemma GraftNewLeaf(t: RevsTree, p: Path, rev: string)
    requires ValidPath(t, p)
    ensures ValidPath(Graft(t, p, rev), p + [|At(t, p).branches|])
    ensures At(Graft(t, p, rev), p + [|At(t, p).branches|]) == Leaf(rev)
  {
    var n := |At(t, p).branches|;
    GraftAt(t, p, rev);
    AtAppend(Graft(t, p, rev), p, [n]);
  }

  /** The only path a graft adds is the one of the new leaf. */
  lemma {:induction false} GraftOnlyNewPath(t: RevsTree, p: Path, rev: string, q: Path)
    requires ValidPath(t, p) && ValidPath(Graft(t, p, rev), q)
    ensures ValidPath(t, q) || q == p + [|At(t, p).branches|]
    decreases q
  {
    if q != [] {
      if p == [] {
        if q[0] < |t.branches| {
          assert ValidPath(t.branches[q[0]], q[1..]);
        } else {
          assert q[0] == |t.branches|;
          assert q[1..] == [] by {
            assert ValidPath(Leaf(rev), q[1..]);
          }
          assert q == [q[0]] + q[1..];
        }
      } else if p[0] == q[0] {
        GraftOnlyNewPath(t.branches[p[0]], p[1..], rev, q[1..]);
        if !ValidPath(t.branches[p[0]], q[1..]) {
          assert q == [q[0]] + q[1..];
          assert p + [|At(t, p).branches|] == [p[0]] + (p[1..] + [|At(t, p).branches|]);
        }
      }
    }
  }

  /** A graft adds exactly rev to the revisions of the tree. */
  lemma {:induction false} GraftContains(t: RevsTree, p: Path, rev: string, x: string)
    requires ValidPath(t, p)
    ensures Contains(Graft(t, p, rev), x) <==> Contains(t, x) || x == rev
    decreases p
  {
    var g := Graft(t, p, rev);
    if p == [] {
      assert g.branches[|t.branches|] == Leaf(rev);
      if Contains(g, x) && g.rev != x {
        var i :| 0 <= i < |g.branches| && Contains(g.branches[i], x);
        if i < |t.branches| {
          assert g.branches[i] == t.branches[i];
        }
      }
      if Contains(t, x) && t.rev != x {
        var i :| 0 <= i < |t.branches| && Contains(t.branches[i], x);
        assert g.branches[i] == t.branches[i];
      }
    } else {
      var k := p[0];
      GraftContains(t.branches[k], p[1..], rev, x);
      if Contains(g, x) && g.rev != x {
        var i :| 0 <= i < |g.branches| && Contains(g.branches[i], x);
        if i != k {
          assert g.branches[i] == t.branches[i];
        }
      }
      if Contains(t, x) && t.rev != x {
        var i :| 0 <= i < |t.branches| && Contains(t.branches[i], x);
        if i != k {
          assert g.branches[i] == t.branches[i];
        }
      }
      if x == rev {
        assert Contains(g.branches[k], x);
      }
    }
  }

  /**
    Find still returns q after a graft below the node at q: the graft only
    changes nodes that come after q in pre-order.
  */
  lemma {:induction false} FindAfterGraftBelow(t: RevsTree, x: string, q: Path, p: Path, rev: string)
    requires ValidPath(t, p) && Find(t, x) == Some(q)
    requires q <= p
    ensures Find(Graft(t, p, rev), x) == Some(q)
    decreases t
  {
    var g := Graft(t, p, rev);
    if q != [] {
      var k := q[0];
      assert p[0] == k;
      FindAfterGraftBelow(t.branches[k], x, q[1..], p[1..], rev);
      FindInUnchangedPrefix(t, g, x, k, 0, q);
    }
  }

  /**
    FindIn over two trees whose branches agree before index k, where the
    branch k of the second tree has x at path q[1..], finds q in it.
  */
  lemma {:induction false} FindInUnchangedPrefix(t: RevsTree, g: RevsTree, x: string, k: nat, i: nat, q: Path)
    requires k < |t.branches| && k < |g.branches| && i <= k
    requires q != [] && q[0] == k
    requires forall j :: i <= j < k ==> g.branches[j] == t.branches[j] && !Contains(t.branches[j], x)
    requires Find(g.branches[k], x) == Some(q[1..])
    ensures FindIn(g, x, i) == Some(q)
    decreases k - i
  {
    if i < k {
      FindInUnchangedPrefix(t, g, x, k, i + 1, q);
    } else {
      assert [k] + q[1..] == q;
    }
  }

  /** After grafting a revision the tree did not hold, Find returns the new leaf. */
  lemma FindAfterGraftNew(t: RevsTree, p: Path, x: string)
    requires ValidPath(t, p) && !Contains(t, x)
    ensures Find(Graft(t, p, x), x) == Some(p + [|At(t, p).branches|])
  {
    var g := Graft(t, p, x);
    GraftContains(t, p, x, x);
    var q := Find(g, x).value;
    GraftOnlyNewPath(t, p, x, q);
    if ValidPath(t, q) {
      GraftKeepsPath(t, p, x, q);
      AtContains(t, q);
    }
  }

  // ---------------------------------------------------------------------
  // Add

  /** The path that follows the first branch from the root down to a leaf. */
  function MainTip(t: RevsTree): (p: Path)
    ensures ValidPath(t, p) && At(t, p).branches == []
    decreases t
  {
    if t.branches == [] then [] else [0] + MainTip(t.branches[0])
  }

  /**
    RevsTree.Add: appends rev as a new leaf at the end of the main branch
    (following the first branch of every node) and returns the new tree with
    the path of the new node.
  */
  function Add(t: RevsTree, rev: string): (r: (RevsTree, Path))
    ensures ValidPath(r.0, r.1) && At(r.0, r.1) == Leaf(rev)
    decreases t
  {
    if |t.branches| > 0 then
      var (b, p) := Add(t.branches[0], rev);
      assert ([0] + p)[1..] == p;
      (RevsTree(t.rev, t.branches[0 := b]), [0] + p)
    else
      assert [0][1..] == [];
      (RevsTree(t.rev, [Leaf(rev)]), [0])
  }

  /**
    Add is a graft at the tip of the main branch: every other node is
    unchanged and the only new node is rev, which Find now reports.
  */
  lemma {:induction false} AddIsGraftAtTip(t: RevsTree, rev: string)
    ensures Add(t, rev) == (Graft(t, MainTip(t), rev), MainTip(t) + [0])
    ensures Extends(t, Add(t, rev).0)
    ensures Contains(Add(t, rev).0, rev)
    decreases t
  {
    if |t.branches| > 0 {
      AddIsGraftAtTip(t.branches[0], rev);
      var tip := MainTip(t.branches[0]);
      assert MainTip(t) == [0] + tip;
      assert MainTip(t)[1..] == tip;
      assert Graft(t, MainTip(t), rev) == RevsTree(t.rev, t.branches[0 := Graft(t.branches[0], tip, rev)]);
      assert Add(t, rev).1 == [0] + (tip + [0]) == MainTip(t) + [0];
    } else {
      assert t.branches + [Leaf(rev)] == [Leaf(rev)];
      assert MainTip(t) + [0] == [0];
    }
    GraftExtends(t, MainTip(t), rev);
    AtContains(Add(t, rev).0, Add(t, rev).1);
  }

  // ---------------------------------------------------------------------
  // InsertAfter

  /** The node for parent: the one Find returns, or a new one made by Add. */
  function Locate(t: RevsTree, parent: string): (r: (RevsTree, Path))
    ensures ValidPath(r.0, r.1) && At(r.0, r.1).rev == parent
  {
    match Find(t, parent)
    case Some(p) => (t, p)
    case None => Add(t, parent)
  }

  /** After Locate, the tree extends the old one and Find reports the located node. */
  lemma LocateFound(t: RevsTree, parent: string)
    ensures Extends(t, Locate(t, parent).0)
    ensures Find(Locate(t, parent).0, parent) == Some(Locate(t, parent).1)
    ensures Contains(t, parent) ==> Locate(t, parent).0 == t
  {
    if Find(t, parent).None? {
      AddIsGraftAtTip(t, parent);
      FindAfterGraftNew(t, MainTip(t), parent);
    }
  }

  /** The index of the first branch of n whose revision is rev, or |n.branches|. */
  function ChildIndex(n: RevsTree, rev: string): (i: nat)
    ensures i <= |n.branches|
    ensures i < |n.branches| ==> n.branches[i].rev == rev
    ensures forall j :: 0 <= j < i ==> n.branches[j].rev != rev
    decreases |n.branches|
  {
    if |n.branches| == 0 then 0
    else if n.branches[0].rev == rev then 0
    else 1 + ChildIndex(RevsTree(n.rev, n.branches[1..]), rev)
  }

  predicate HasChild(n: RevsTree, rev: string) {
    ChildIndex(n, rev) < |n.branches|
  }

  /**
    The tree after InsertAfter(rev, parent): the node for parent is located
    (and added when absent); rev is appended as its last branch unless it is
    already one of its branches.
  */
  function InsertedAfter(t: RevsTree, rev: string, parent: string): RevsTree {
    var (t1, p) := Locate(t, parent);
    if HasChild(At(t1, p), rev) then t1 else Graft(t1, p, rev)
  }

  /**
    RevsTree.InsertAfter, with the loop over the parent's branches; the
    interior pointer subtree is the path p.
  */
  method InsertAfter(t: RevsTree, rev: string, parent: string) returns (r: RevsTree)
    ensures r == InsertedAfter(t, rev, parent)
  {
    var p: Path;
    var found := Find(t, parent);
    if found.None? {
      r, p := Add(t, parent).0, Add(t, parent).1;
    } else {
      r, p := t, found.value;
    }
    var node := At(r, p);
    var i := 0;
    while i < |node.branches|
      invariant 0 <= i <= |node.branches|
      invariant forall j :: 0 <= j < i ==> node.branches[j].rev != rev
    {
      if node.branches[i].rev == rev {
        return;
      }
      i := i + 1;
    }
    r := Graft(r, p, rev);
  }

  /** What InsertAfter promises: both revisions are in the tree, rev as a branch of parent's node. */
  lemma InsertedAfterPlaces(t: RevsTree, rev: string, parent: string)
    ensures Extends(t, InsertedAfter(t, rev, parent))
    ensures Contains(InsertedAfter(t, rev, parent), rev) && Contains(InsertedAfter(t, rev, parent), parent)
    ensures Find(InsertedAfter(t, rev, parent), parent) == Some(Locate(t, parent).1)
    ensures HasChild(At(InsertedAfter(t, rev, parent), Locate(t, parent).1), rev)
  {
    var (t1, p) := Locate(t, parent);
    LocateFound(t, parent);
    var r := InsertedAfter(t, rev, parent);
    if !HasChild(At(t1, p), rev) {
      GraftExtends(t1, p, rev);
      ExtendsTransitive(t, t1, r);
      GraftAt(t1, p, rev);
      FindAfterGraftBelow(t1, parent, p, p, rev);
      var n := At(t1, p);
      assert At(r, p).branches[|n.branches|].rev == rev;
    }
    AtContains(r, p);
    var i := ChildIndex(At(r, p), rev);
    AtAppend(r, p, [i]);
    AtContains(r, p + [i]);
  }

  /** Without a node for parent, InsertAfter first adds parent with Add. */
  lemma InsertedAfterMissingParent(t: RevsTree, rev: string, parent: string)
    requires !Contains(t, parent)
    ensures InsertedAfter(t, rev, parent) == Graft(Add(t, parent).0, Add(t, parent).1, rev)
  {
  }

  /** A rev that is not yet a branch of parent's node becomes its last branch. */
  lemma InsertedAfterAppendsLast(t: RevsTree, rev: string, parent: string)
    requires Contains(t, parent)
    requires !HasChild(At(t, Find(t, parent).value), rev)
    ensures ValidPath(InsertedAfter(t, rev, parent), Find(t, parent).value)
    ensures var p := Find(t, parent).value;
      At(InsertedAfter(t, rev, parent), p) == RevsTree(parent, At(t, p).branches + [Leaf(rev)])
  {
    GraftAt(t, Find(t, parent).value, rev);
  }

  /** A rev that already is a branch of parent's node changes nothing. */
  lemma InsertedAfterExisting(t: RevsTree, rev: string, parent: string)
    requires Contains(t, parent) && HasChild(At(t, Find(t, parent).value), rev)
    ensures InsertedAfter(t, rev, parent) == t
  {
  }

  /** InsertAfter is idempotent. */
  lemma InsertedAfterIdempotent(t: RevsTree, rev: string, parent: string)
    ensures InsertedAfter(InsertedAfter(t, rev, parent), rev, parent) == InsertedAfter(t, rev, parent)
  {
    InsertedAfterPlaces(t, rev, parent);
  }

  // ---------------------------------------------------------------------
  // InsertChain

  /** q is a branch of the node at p. */
  predicate ChildOf(q: Path, p: Path) {
    |q| == |p| + 1 && q[..|p|] == p
  }

  /** A tree extended from a tree holding x still holds x. */
  lemma ExtendsContains(a: RevsTree, b: RevsTree, x: string)
    requires Extends(a, b) && Contains(a, x)
    ensures Contains(b, x)
  {
    var q := Find(a, x).value;
    AtContains(b, q);
  }

  /**
    The walk of InsertChain (as corrected) below the node at p for the rest
    of the chain: each revision is looked for among the branches of the
    cursor's node; when it is missing it is appended as the last branch, and
    the cursor moves to the branch holding it. Returns the new tree and the
    cursor after each step.
  */
  function ChainFrom(t: RevsTree, p: Path, revs: seq<string>): (r: (RevsTree, seq<Path>))
    requires ValidPath(t, p)
    ensures |r.1| == |revs|
    decreases |revs|
  {
    if revs == [] then (t, [])
    else
      var n := At(t, p);
      var i := ChildIndex(n, revs[0]);
      var t' := if i < |n.branches| then t else Graft(t, p, revs[0]);
      GraftAt(t, p, revs[0]);
      assert ValidPath(At(t', p), [i]);
      AtAppend(t', p, [i]);
      var (r, ps) := ChainFrom(t', p + [i], revs[1..]);
      (r, [p + [i]] + ps)
  }

  /**
    The walk as pkg/sharing/shared.go writes it: after appending a missing
    revision, the cursor moves to the FIRST branch of the node instead of
    the appended one.
  */
  function ChainFromAsWritten(t: RevsTree, p: Path, revs: seq<string>): (r: (RevsTree, seq<Path>))
    requires ValidPath(t, p)
    ensures |r.1| == |revs|
    decreases |revs|
  {
    if revs == [] then (t, [])
    else
      var n := At(t, p);
      var i := ChildIndex(n, revs[0]);
      var t' := if i < |n.branches| then t else Graft(t, p, revs[0]);
      var next := if i < |n.branches| then i else 0;
      GraftAt(t, p, revs[0]);
      assert ValidPath(At(t', p), [next]);
      AtAppend(t', p, [next]);
      var (r, ps) := ChainFromAsWritten(t', p + [next], revs[1..]);
      (r, [p + [next]] + ps)
  }

  /**
    RevsTree.InsertChain (as corrected): the node of the first revision is
    located (or added), then the walk inserts the rest of the chain below
    it. Returns the tree and the path of each revision of the chain.
  */
  function ChainInserted(t: RevsTree, chain: seq<string>): (r: (RevsTree, seq<Path>))
    ensures |r.1| == |chain|
  {
    if chain == [] then (t, [])
    else
      var (t1, p) := Locate(t, chain[0]);
      var (r, ps) := ChainFrom(t1, p, chain[1..]);
      (r, [p] + ps)
  }

  /** RevsTree.InsertChain as written. */
  function ChainInsertedAsWritten(t: RevsTree, chain: seq<string>): (r: (RevsTree, seq<Path>))
    ensures |r.1| == |chain|
  {
    if chain == [] then (t, [])
    else
      var (t1, p) := Locate(t, chain[0]);
      var (r, ps) := ChainFromAsWritten(t1, p, chain[1..]);
      (r, [p] + ps)
  }

  /**
    The corrected walk keeps every node and leaves revs[k] at the k-th
    cursor, every cursor being a branch of the one before it.
  */
  lemma {:induction false} ChainFromPlaces(t: RevsTree, p: Path, revs: seq<string>)
    requires ValidPath(t, p)
    ensures var (r, ps) := ChainFrom(t, p, revs);
      && Extends(t, r)
      && |ps| == |revs|
      && (forall k :: 0 <= k < |revs| ==> ValidPath(r, ps[k]) && At(r, ps[k]).rev == revs[k])
      && (|revs| > 0 ==> ChildOf(ps[0], p))
      && (forall k :: 0 < k < |revs| ==> ChildOf(ps[k], ps[k - 1]))
    decreases |revs|
  {
    if revs != [] {
      var n := At(t, p);
      var i := ChildIndex(n, revs[0]);
      var t' := if i < |n.branches| then t else Graft(t, p, revs[0]);
      GraftAt(t, p, revs[0]);
      AtAppend(t', p, [i]);
      GraftExtends(t, p, revs[0]);
      assert Extends(t, t');
      assert At(t', p + [i]).rev == revs[0];
      ChainFromPlaces(t', p + [i], revs[1..]);
      var (r, ps) := ChainFrom(t', p + [i], revs[1..]);
      ExtendsTransitive(t, t', r);
      assert (p + [i])[..|p|] == p;
    }
  }

  /** Both walks keep every node and leave each revision of revs in the tree. */
  lemma {:induction false} ChainFromAsWrittenContains(t: RevsTree, p: Path, revs: seq<string>)
    requires ValidPath(t, p)
    ensures Extends(t, ChainFromAsWritten(t, p, revs).0)
    ensures forall k :: 0 <= k < |revs| ==> Contains(ChainFromAsWritten(t, p, revs).0, revs[k])
    decreases |revs|
  {
    if revs != [] {
      var n := At(t, p);
      var i := ChildIndex(n, revs[0]);
      var t' := if i < |n.branches| then t else Graft(t, p, revs[0]);
      var next := if i < |n.branches| then i else 0;
      GraftAt(t, p, revs[0]);
      AtAppend(t', p, [next]);
      GraftExtends(t, p, revs[0]);
      if i < |n.branches| {
        AtAppend(t, p, [i]);
        AtContains(t, p + [i]);
      } else {
        GraftContains(t, p, revs[0], revs[0]);
      }
      ChainFromAsWrittenContains(t', p + [next], revs[1..]);
      var r := ChainFromAsWritten(t, p, revs).0;
      ExtendsTransitive(t, t', r);
      ExtendsContains(t', r, revs[0]);
      forall k | 0 <= k < |revs|
        ensures Contains(r, revs[k])
      {
        if k > 0 {
          assert revs[k] == revs[1..][k - 1];
        }
      }
    }
  }

  /**
    After InsertChain (as corrected) nothing of the old tree is lost, and
    the chain is a downward path of the tree: chain[0] at the node Locate
    finds or adds, and every chain[k] at a branch of the node of chain[k-1].
  */
  lemma InsertChainIsPath(t: RevsTree, chain: seq<string>)
    ensures var (r, ps) := ChainInserted(t, chain);
      && Extends(t, r)
      && |ps| == |chain|
      && (forall k :: 0 <= k < |chain| ==> ValidPath(r, ps[k]) && At(r, ps[k]).rev == chain[k])
      && (forall k :: 0 < k < |chain| ==> ChildOf(ps[k], ps[k - 1]))
  {
    if chain != [] {
      var (t1, p) := Locate(t, chain[0]);
      LocateFound(t, chain[0]);
      ChainFromPlaces(t1, p, chain[1..]);
      var (r, ps) := ChainFrom(t1, p, chain[1..]);
      ExtendsTransitive(t, t1, r);
      var all := [p] + ps;
      forall k | 0 < k < |chain|
        ensures ChildOf(all[k], all[k - 1])
      {
        assert all[k] == ps[k - 1];
        if k > 1 {
          assert all[k - 1] == ps[k - 2];
        }
      }
      forall k | 0 <= k < |chain|
        ensures ValidPath(r, all[k]) && At(r, all[k]).rev == chain[k]
      {
        if k > 0 {
          assert all[k] == ps[k - 1] && chain[k] == chain[1..][k - 1];
        }
      }
    }
  }

  /** Every revision of the chain is in the tree after InsertChain (as corrected). */
  lemma InsertChainContainsAll(t: RevsTree, chain: seq<string>)
    ensures forall k :: 0 <= k < |chain| ==> Contains(ChainInserted(t, chain).0, chain[k])
  {
    InsertChainIsPath(t, chain);
    var (r, ps) := ChainInserted(t, chain);
    forall k | 0 <= k < |chain|
      ensures Contains(r, chain[k])
    {
      AtContains(r, ps[k]);
    }
  }

  /** Every revision of the chain is in the tree after InsertChain as written, too. */
  lemma InsertChainAsWrittenContainsAll(t: RevsTree, chain: seq<string>)
    ensures Extends(t, ChainInsertedAsWritten(t, chain).0)
    ensures forall k :: 0 <= k < |chain| ==> Contains(ChainInsertedAsWritten(t, chain).0, chain[k])
  {
    if chain != [] {
      var (t1, p) := Locate(t, chain[0]);
      LocateFound(t, chain[0]);
      ChainFromAsWrittenContains(t1, p, chain[1..]);
      var r := ChainFromAsWritten(t1, p, chain[1..]).0;
      ExtendsTransitive(t, t1, r);
      AtContains(t1, p);
      ExtendsContains(t1, r, chain[0]);
      forall k | 0 < k < |chain|
        ensures Contains(r, chain[k])
      {
        assert chain[k] == chain[1..][k - 1];
      }
    }
  }

  /** The walk finds every revision of revs already in place, one below the other. */
  predicate ChainPresent(t: RevsTree, p: Path, revs: seq<string>)
    requires ValidPath(t, p)
    decreases |revs|
  {
    revs == [] ||
    (var i := ChildIndex(At(t, p), revs[0]);
     i < |At(t, p).branches| &&
     (AtAppend(t, p, [i]);
      ChainPresent(t, p + [i], revs[1..])))
  }

  /** A chain that is already present changes nothing, with either walk. */
  lemma {:induction false} ChainFromPresent(t: RevsTree, p: Path, revs: seq<string>)
    requires ValidPath(t, p) && ChainPresent(t, p, revs)
    ensures ChainFrom(t, p, revs).0 == t
    ensures ChainFromAsWritten(t, p, revs).0 == t
    decreases |revs|
  {
    if revs != [] {
      var i := ChildIndex(At(t, p), revs[0]);
      AtAppend(t, p, [i]);
      ChainFromPresent(t, p + [i], revs[1..]);
    }
  }

  /** InsertChain of a chain whose revisions all hang below each other already is a no-op. */
  lemma InsertChainUnchangedWhenPresent(t: RevsTree, chain: seq<string>)
    requires chain != [] && Contains(t, chain[0])
    requires ChainPresent(t, Find(t, chain[0]).value, chain[1..])
    ensures ChainInserted(t, chain).0 == t
    ensures ChainInsertedAsWritten(t, chain).0 == t
  {
    ChainFromPresent(t, Find(t, chain[0]).value, chain[1..]);
  }

  /** A prefix of a valid path is a valid path. */
  lemma {:induction false} ValidPathPrefix(t: RevsTree, a: Path, b: Path)
    requires a <= b && ValidPath(t, b)
    ensures ValidPath(t, a)
    decreases a
  {
    if a != [] {
      assert a[0] == b[0] && a[1..] <= b[1..];
      ValidPathPrefix(t.branches[a[0]], a[1..], b[1..]);
    }
  }

  /** The first branch holding rev is the one at i when none before it does. */
  lemma ChildIndexIs(n: RevsTree, rev: string, i: nat)
    requires i < |n.branches| && n.branches[i].rev == rev
    requires forall j :: 0 <= j < i ==> n.branches[j].rev != rev
    ensures ChildIndex(n, rev) == i
  {
  }

  /** After the corrected walk, walking the same revisions from the same node finds them all in place. */
  lemma {:induction false} ChainFromMakesPresent(t: RevsTree, p: Path, revs: seq<string>)
    requires ValidPath(t, p)
    ensures ValidPath(ChainFrom(t, p, revs).0, p)
    ensures ChainPresent(ChainFrom(t, p, revs).0, p, revs)
    decreases |revs|
  {
    var r := ChainFrom(t, p, revs).0;
    ChainFromPlaces(t, p, revs);
    if revs != [] {
      var n := At(t, p);
      var i := ChildIndex(n, revs[0]);
      var t' := if i < |n.branches| then t else Graft(t, p, revs[0]);
      ChainFromStep(t, p, revs);
      ChainFromMakesPresent(t', p + [i], revs[1..]);
      assert ChainFrom(t, p, revs).1[0] == p + [i];
      AtAppend(r, p, [i]);
      forall j | 0 <= j < i
        ensures At(r, p).branches[j].rev != revs[0]
      {
        assert ValidPath(n, [j]) by {
          assert [j][1..] == [];
        }
        AtAppend(t, p, [j]);
        AtAppend(r, p, [j]);
      }
      ChildIndexIs(At(r, p), revs[0], i);
    }
  }

  /** The corrected walk below the node Find returns for x leaves Find's answer alone. */
  lemma {:induction false} ChainFromKeepsFind(t: RevsTree, p: Path, revs: seq<string>, x: string, q: Path)
    requires ValidPath(t, p) && Find(t, x) == Some(q) && q <= p
    ensures Find(ChainFrom(t, p, revs).0, x) == Some(q)
    decreases |revs|
  {
    if revs != [] {
      var n := At(t, p);
      var i := ChildIndex(n, revs[0]);
      var t' := if i < |n.branches| then t else Graft(t, p, revs[0]);
      if i == |n.branches| {
        FindAfterGraftBelow(t, x, q, p, revs[0]);
      }
      ChainFromStep(t, p, revs);
      assert q <= p + [i];
      ChainFromKeepsFind(t', p + [i], revs[1..], x, q);
    }
  }

  /** InsertChain (as corrected) is idempotent: a second run over the same chain changes nothing. */
  lemma InsertChainIdempotent(t: RevsTree, chain: seq<string>)
    ensures ChainInserted(ChainInserted(t, chain).0, chain).0 == ChainInserted(t, chain).0
  {
    if chain != [] {
      var (t1, p) := Locate(t, chain[0]);
      LocateFound(t, chain[0]);
      var r := ChainFrom(t1, p, chain[1..]).0;
      ChainFromKeepsFind(t1, p, chain[1..], chain[0], p);
      ChainFromMakesPresent(t1, p, chain[1..]);
      assert Locate(r, chain[0]) == (r, p);
      ChainFromPresent(r, p, chain[1..]);
    }
  }

  /** The only positions the corrected walk adds are its cursors. */
  lemma {:induction false} ChainFromOnlyNewPaths(t: RevsTree, p: Path, revs: seq<string>, q: Path)
    requires ValidPath(t, p) && ValidPath(ChainFrom(t, p, revs).0, q)
    ensures ValidPath(t, q) || q in ChainFrom(t, p, revs).1
    decreases |revs|
  {
    if revs != [] {
      var n := At(t, p);
      var i := ChildIndex(n, revs[0]);
      var t' := if i < |n.branches| then t else Graft(t, p, revs[0]);
      ChainFromStep(t, p, revs);
      assert ChainFrom(t, p, revs).1 == [p + [i]] + ChainFrom(t', p + [i], revs[1..]).1;
      ChainFromOnlyNewPaths(t', p + [i], revs[1..], q);
      if i == |n.branches| && ValidPath(t', q) {
        GraftOnlyNewPath(t, p, revs[0], q);
      }
    }
  }

  /** InsertChain (as corrected) adds no position other than the cursors of the chain. */
  lemma InsertChainOnlyNewPaths(t: RevsTree, chain: seq<string>, q: Path)
    requires ValidPath(ChainInserted(t, chain).0, q)
    ensures ValidPath(t, q) || q in ChainInserted(t, chain).1
  {
    if chain != [] {
      var (t1, p) := Locate(t, chain[0]);
      ChainFromOnlyNewPaths(t1, p, chain[1..], q);
      if !Contains(t, chain[0]) && ValidPath(t1, q) {
        AddIsGraftAtTip(t, chain[0]);
        GraftOnlyNewPath(t, MainTip(t), chain[0], q);
      }
    }
  }

  /** Cursors that are each a branch of the one before are nested: an earlier one is a prefix of a later one. */
  lemma {:induction false} CursorsNested(ps: seq<Path>, k: nat, j: nat)
    requires k <= j < |ps|
    requires forall m :: 0 < m < |ps| ==> ChildOf(ps[m], ps[m - 1])
    ensures ps[k] <= ps[j]
    decreases j - k
  {
    if k < j {
      CursorsNested(ps, k, j - 1);
      assert ChildOf(ps[j], ps[j - 1]);
      assert ps[j][..|ps[j - 1]|][..|ps[k]|] == ps[j][..|ps[k]|];
    }
  }

  /**
    InsertChain (as corrected) reuses the nodes of the chain already in
    place and appends only the missing suffix: a cursor that was in the old
    tree already held its revision there, and every cursor after one that is
    new is new too.
  */
  lemma InsertChainReusesPresentPrefix(t: RevsTree, chain: seq<string>)
    ensures var (r, ps) := ChainInserted(t, chain);
      && (forall k :: 0 <= k < |chain| && ValidPath(t, ps[k]) ==> At(t, ps[k]).rev == chain[k])
      && (forall k, j :: 0 <= k <= j < |chain| && ValidPath(t, ps[j]) ==> ValidPath(t, ps[k]))
  {
    InsertChainIsPath(t, chain);
    var (r, ps) := ChainInserted(t, chain);
    forall k, j | 0 <= k <= j < |chain| && ValidPath(t, ps[j])
      ensures ValidPath(t, ps[k])
    {
      CursorsNested(ps, k, j);
      ValidPathPrefix(t, ps[k], ps[j]);
    }
  }

  /**
    InsertChain as written is not idempotent: on the tree it leaves in the
    example of InsertChainAsWrittenMisplaces, a second run appends 3-c once
    more, below 2-c this time.
  */
  lemma InsertChainAsWrittenNotIdempotent()
    ensures var r1 := RevsTree("1-a", [RevsTree("2-b", [Leaf("3-c")]), Leaf("2-c")]);
      ChainInsertedAsWritten(r1, ["1-a", "2-c", "3-c"]).0
        == RevsTree("1-a", [RevsTree("2-b", [Leaf("3-c")]), RevsTree("2-c", [Leaf("3-c")])])
  {
    var r1 := RevsTree("1-a", [RevsTree("2-b", [Leaf("3-c")]), Leaf("2-c")]);
    var chain := ["1-a", "2-c", "3-c"];
    assert Find(r1, "1-a") == Some([]);
    assert chain[1..] == ["2-c", "3-c"];
    RerunFirstStepAsWritten();
    RerunSecondStepAsWritten();
  }

  /** First step of the second run: 2-c is found as the second branch of 1-a. */
  lemma RerunFirstStepAsWritten()
    ensures var r1 := RevsTree("1-a", [RevsTree("2-b", [Leaf("3-c")]), Leaf("2-c")]);
      ChainFromAsWritten(r1, [], ["2-c", "3-c"]).0 == ChainFromAsWritten(r1, [1], ["3-c"]).0
  {
    var r1 := RevsTree("1-a", [RevsTree("2-b", [Leaf("3-c")]), Leaf("2-c")]);
    assert At(r1, []) == r1;
    assert ChildIndex(RevsTree("1-a", r1.branches[1..]), "2-c") == 0;
    assert ChildIndex(r1, "2-c") == 1;
    assert ["2-c", "3-c"][1..] == ["3-c"];
    assert [] + [1] == [1];
  }

  /** Second step of the second run: 3-c is appended below 2-c. */
  lemma RerunSecondStepAsWritten()
    ensures var r1 := RevsTree("1-a", [RevsTree("2-b", [Leaf("3-c")]), Leaf("2-c")]);
      ChainFromAsWritten(r1, [1], ["3-c"]).0
        == RevsTree("1-a", [RevsTree("2-b", [Leaf("3-c")]), RevsTree("2-c", [Leaf("3-c")])])
  {
    var r1 := RevsTree("1-a", [RevsTree("2-b", [Leaf("3-c")]), Leaf("2-c")]);
    assert [1][1..] == [] && ["3-c"][1..] == [];
    assert At(r1, [1]) == Leaf("2-c");
    assert ChildIndex(Leaf("2-c"), "3-c") == 0;
    assert ChainFromAsWritten(r1, [1], ["3-c"]).0 == Graft(r1, [1], "3-c");
    assert Graft(Leaf("2-c"), [], "3-c") == RevsTree("2-c", [Leaf("3-c")]);
    assert Graft(r1, [1], "3-c") == RevsTree("1-a", r1.branches[1 := RevsTree("2-c", [Leaf("3-c")])]);
    assert r1.branches[1 := RevsTree("2-c", [Leaf("3-c")])] == [RevsTree("2-b", [Leaf("3-c")]), RevsTree("2-c", [Leaf("3-c")])];
  }

  /**
    The discrepancy of InsertChain as written: on the tree 1-a -> 2-b and
    the chain 1-a, 2-c, 3-c, the revision 3-c ends up below 2-b instead of
    below 2-c, where the corrected walk puts it.
  */
  lemma InsertChainAsWrittenMisplaces()
    ensures var t := RevsTree("1-a", [Leaf("2-b")]);
      var chain := ["1-a", "2-c", "3-c"];
      && ChainInsertedAsWritten(t, chain).0 == RevsTree("1-a", [RevsTree("2-b", [Leaf("3-c")]), Leaf("2-c")])
      && ChainInserted(t, chain).0 == RevsTree("1-a", [Leaf("2-b"), RevsTree("2-c", [Leaf("3-c")])])
  {
    var t := RevsTree("1-a", [Leaf("2-b")]);
    var chain := ["1-a", "2-c", "3-c"];
    assert Find(t, "1-a") == Some([]);
    assert chain[1..] == ["2-c", "3-c"];
    MisplacesFirstStep();
    MisplacesSecondStepAsWritten();
    MisplacesSecondStep();
  }

  /** First step of the example: 2-c is appended as the second branch of 1-a. */
  lemma MisplacesFirstStep()
    ensures var t := RevsTree("1-a", [Leaf("2-b")]);
      var t2 := RevsTree("1-a", [Leaf("2-b"), Leaf("2-c")]);
      && ChainFromAsWritten(t, [], ["2-c", "3-c"]).0 == ChainFromAsWritten(t2, [0], ["3-c"]).0
      && ChainFrom(t, [], ["2-c", "3-c"]).0 == ChainFrom(t2, [1], ["3-c"]).0
  {
    var t := RevsTree("1-a", [Leaf("2-b")]);
    assert At(t, []) == t;
    assert ChildIndex(t, "2-c") == 1;
    assert ["2-c", "3-c"][1..] == ["3-c"];
    assert [] + [0] == [0] && [] + [1] == [1];
    assert t.branches + [Leaf("2-c")] == [Leaf("2-b"), Leaf("2-c")];
    assert Graft(t, [], "2-c") == RevsTree("1-a", [Leaf("2-b"), Leaf("2-c")]);
  }

  /** Second step of the example as written: 3-c goes below 2-b. */
  lemma MisplacesSecondStepAsWritten()
    ensures var t2 := RevsTree("1-a", [Leaf("2-b"), Leaf("2-c")]);
      ChainFromAsWritten(t2, [0], ["3-c"]).0 == RevsTree("1-a", [RevsTree("2-b", [Leaf("3-c")]), Leaf("2-c")])
  {
    var t2 := RevsTree("1-a", [Leaf("2-b"), Leaf("2-c")]);
    assert [0][1..] == [] && ["3-c"][1..] == [];
    assert At(t2, [0]) == Leaf("2-b");
    assert ChildIndex(Leaf("2-b"), "3-c") == 0;
    assert ChainFromAsWritten(t2, [0], ["3-c"]).0 == Graft(t2, [0], "3-c");
    assert Graft(Leaf("2-b"), [], "3-c") == RevsTree("2-b", [Leaf("3-c")]);
    assert Graft(t2, [0], "3-c") == RevsTree("1-a", t2.branches[0 := RevsTree("2-b", [Leaf("3-c")])]);
    assert t2.branches[0 := RevsTree("2-b", [Leaf("3-c")])] == [RevsTree("2-b", [Leaf("3-c")]), Leaf("2-c")];
  }

  /** Second step of the example corrected: 3-c goes below 2-c. */
  lemma MisplacesSecondStep()
    ensures var t2 := RevsTree("1-a", [Leaf("2-b"), Leaf("2-c")]);
      ChainFrom(t2, [1], ["3-c"]).0 == RevsTree("1-a", [Leaf("2-b"), RevsTree("2-c", [Leaf("3-c")])])
  {
    var t2 := RevsTree("1-a", [Leaf("2-b"), Leaf("2-c")]);
    assert [1][1..] == [] && ["3-c"][1..] == [];
    assert At(t2, [1]) == Leaf("2-c");
    assert ChildIndex(Leaf("2-c"), "3-c") == 0;
    assert ChainFrom(t2, [1], ["3-c"]).0 == Graft(t2, [1], "3-c");
    assert Graft(Leaf("2-c"), [], "3-c") == RevsTree("2-c", [Leaf("3-c")]);
    assert Graft(t2, [1], "3-c") == RevsTree("1-a", t2.branches[1 := RevsTree("2-c", [Leaf("3-c")])]);
    assert t2.branches[1 := RevsTree("2-c", [Leaf("3-c")])] == [Leaf("2-b"), RevsTree("2-c", [Leaf("3-c")])];
  }

  /** The loop of InsertChain over the branches of a node: the first branch holding rev, or the number of branches. */
  method BranchIndex(n: RevsTree, rev: string) returns (i: nat)
    ensures i == ChildIndex(n, rev)
  {
    i := 0;
    while i < |n.branches| && n.branches[i].rev != rev
      invariant i <= |n.branches|
      invariant forall j :: 0 <= j < i ==> n.branches[j].rev != rev
    {
      i := i + 1;
    }
  }

  /** One step of the corrected walk: the revision's branch is found or appended, and the walk goes on from it. */
  lemma ChainFromStep(t: RevsTree, p: Path, revs: seq<string>)
    requires ValidPath(t, p) && revs != []
    ensures var i := ChildIndex(At(t, p), revs[0]);
      var t' := if i < |At(t, p).branches| then t else Graft(t, p, revs[0]);
      && ValidPath(t', p + [i])
      && ChainFrom(t', p + [i], revs[1..]).0 == ChainFrom(t, p, revs).0
  {
    var i := ChildIndex(At(t, p), revs[0]);
    var t' := if i < |At(t, p).branches| then t else Graft(t, p, revs[0]);
    GraftAt(t, p, revs[0]);
    assert ValidPath(At(t', p), [i]);
    AtAppend(t', p, [i]);
  }

  /** RevsTree.InsertChain (as corrected), with its loops, on the cursor path. */
  method InsertChain(t: RevsTree, chain: seq<string>) returns (r: RevsTree)
    ensures r == ChainInserted(t, chain).0
  {
    if |chain| == 0 {
      return t;
    }
    var p: Path;
    var found := Find(t, chain[0]);
    if found.None? {
      r, p := Add(t, chain[0]).0, Add(t, chain[0]).1;
    } else {
      r, p := t, found.value;
    }
    var k := 1;
    while k < |chain|
      invariant 1 <= k <= |chain|
      invariant ValidPath(r, p)
      invariant ChainFrom(r, p, chain[k..]).0 == ChainInserted(t, chain).0
    {
      var rev := chain[k];
      var node := At(r, p);
      var i := BranchIndex(node, rev);
      var next := if i == |node.branches| then Graft(r, p, rev) else r;
      assert chain[k..][0] == rev && chain[k..][1..] == chain[k + 1..];
      ChainFromStep(r, p, chain[k..]);
      r, p := next, p + [i];
      k := k + 1;
    }
  }
}
