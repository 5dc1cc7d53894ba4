/** Reading a red-black tree: yf_rbtree_min, yf_rbtree_next, yf_rbtree_for_each and
    yf_rbtree_find of src/base_struct/yf_rbtree.h. */
module RbWalk {
  import opened RbShape
  import opened Seqs
  import opened RbZipper
  import opened RbSplice
  import T = RbTree

  /** Every right child inside a tree is below its root, so the root is nobody's child. */
  lemma {:induction false} RightInside(m: Mem, t: Tree, p: Ref, y: Ref)
    requires Rep(m, t, p) && Sep(t) && y in Ids(t)
    ensures y in m && m[y].right in Ids(t) + {NIL} - {t.id}
  {
    if y in Ids(t.l) {
      RightInside(m, t.l, t.id, y);
    } else if y in Ids(t.r) {
      RightInside(m, t.r, t.id, y);
    } else if t.r.Node? {
      assert t.r.id in Ids(t.r);
    }
  }

  /** What line 96 reads once the walk has reached the root. */
  lemma RootTop(tr: T.RbTree, y: Ref)
    requires tr.Valid() && tr.tree.Node? && y == tr.rp && y != NULL
    ensures y > 0 && y in tr.mem && tr.mem[y].right != tr.root
  {
    if y in Ids(tr.tree) {
      RightInside(tr.mem, tr.tree, tr.rp, y);
    }
  }

  lemma ZipInside(c: Ctx, t: Tree, r: Ref)
    requires t.Node? && Sep(Plug(c, t))
    ensures t.id in Ids(Plug(c, t)) && t.id > 0
    ensures c.Frame? ==> c.id in Ids(Plug(c, t)) && c.id > 0
    ensures c.Frame? ==> RootId(t.r) != c.id
  {
    PlugIds(c, t);
    assert t.r.Node? ==> t.r.id in Ids(t.r);
  }

  lemma UpOrder(c: Ctx, t: Tree)
    requires c.Frame?
    ensures !c.isLeft ==> Pre(c.up) + InOrder(UpTree(c, t)) == Pre(c) + InOrder(t) && Post(c.up) == Post(c)
    ensures c.isLeft ==> Post(c) == [c.id] + InOrder(c.sib) + Post(c.up)
    ensures Plug(c.up, UpTree(c, t)) == Plug(c, t)
  {
  }

  /** What follows a node with a right subtree is the least node of that subtree. */
  lemma NextBelow(c: Ctx, t: Tree, c2: Ctx, s: Tree)
    requires t.Node? && t.r == Plug(c2, s) && s.Node? && s.l.Leaf? && Pre(c2) == []
    ensures var o, k := InOrder(Plug(c, t)), |Pre(c)| + |InOrder(t.l)|;
      k + 1 < |o| && o[k] == t.id && o[k + 1] == s.id
  {
    hide InOrder, Pre, Post, Plug;
    LeastFirst(c2, s);
    PlugOrder(c, t);
    OrderOf(t);
    Flatten(Pre(c), InOrder(t.l), [t.id], InOrder(t.r), Post(c));
  }

  lemma NodeAt(c: Ctx, t: Tree)
    requires t.Node?
    ensures var o, k := InOrder(Plug(c, t)), |Pre(c)| + |InOrder(t.l)|;
      && k < |o| && o[k] == t.id
      && (t.r.Leaf? ==> k + 1 == |Pre(c) + InOrder(t)|)
  {
    hide InOrder, Pre, Post, Plug;
    PlugOrder(c, t);
    OrderOf(t);
  }

  lemma {:induction false} OrderOnce(t: Tree)
    requires Sep(t)
    ensures NoDup(InOrder(t))
  {
    if t.Node? {
      OrderOnce(t.l);
      OrderOnce(t.r);
      OrderIds(t.l);
      OrderIds(t.r);
      OnceJoin(InOrder(t.l), t.id, InOrder(t.r));
    }
  }

  lemma OnceJoin(a: seq<Ref>, x: Ref, b: seq<Ref>)
    requires NoDup(a) && NoDup(b) && x !in a && x !in b && forall y :: y in a ==> y !in b
    ensures NoDup(a + [x] + b)
  {
    forall i, j | 0 <= i < j < |a + [x] + b|
      ensures (a + [x] + b)[i] != (a + [x] + b)[j]
    {
      assert i < |a| ==> (a + [x] + b)[i] in a;
      assert j > |a| ==> (a + [x] + b)[j] in b;
    }
  }

  /** yf_rbtree_next. The successor in order; after the last node it is nil exactly when the
      root's parent field is null. Otherwise that field still holds a deleted root, and the
      walk goes back to it, or to the current root. */
  method Next(tr: T.RbTree, node: Ref, ghost k: nat) returns (r: Ref)
    requires tr.Valid() && k < |InOrder(tr.tree)| && InOrder(tr.tree)[k] == node
    ensures k + 1 < |InOrder(tr.tree)| ==> r == InOrder(tr.tree)[k + 1]
    ensures k + 1 == |InOrder(tr.tree)| ==> (r == NIL <==> tr.rp == NULL)
    ensures k + 1 == |InOrder(tr.tree)| && tr.rp != NULL ==> r == tr.rp || (r == tr.root && tr.rp in Ids(tr.tree))
  {
    hide Rep, RepCtx, Sep, SepCtx, HoldsIn, Ids, CIds, RedBlack, InOrder, Plug, Sorted, Append, Pre, Post;
    OrderIds(tr.tree);
    Inhabited(tr.tree, node);
    ghost var c, t := Focus(tr.tree, node);
    ZipAll(tr.mem, tr.root, tr.rp, c, t);
    Neighbours(tr.mem, tr.root, tr.rp, c, t);
    ChildrenNil(tr.mem, tr.root, tr.rp, c, t);
    NodeAt(c, t);
    SameIndex(tr, k, |Pre(c)| + |InOrder(t.l)|);
    if tr.mem[node].right != NIL {
      ZipRight(tr.mem, tr.root, tr.rp, c, t);
      ghost var c2, s;
      r, c2, s := tr.MinBelow(tr.mem[node].right, RightCtx(c, t), t.r);
      NextBelow(c, t, c2, s);
      return;
    }
    r := Climb(tr, node, k, c, t);
  }

  lemma SameIndex(tr: T.RbTree, i: nat, j: nat)
    requires tr.Valid() && i < |InOrder(tr.tree)| && j < |InOrder(tr.tree)|
    requires InOrder(tr.tree)[i] == InOrder(tr.tree)[j]
    ensures i == j
  {
    OrderOnce(tr.tree);
  }

  /** Lines 93-105: up while the node is a right child. */
  method Climb(tr: T.RbTree, start: Ref, ghost k: nat, ghost c0: Ctx, ghost t0: Tree) returns (r: Ref)
    requires tr.Valid() && tr.Holds(c0, t0) && t0.Node? && t0.id == start && Plug(c0, t0) == tr.tree
    requires k + 1 == |Pre(c0) + InOrder(t0)|
    ensures k < |InOrder(tr.tree)|
    ensures k + 1 < |InOrder(tr.tree)| ==> r == InOrder(tr.tree)[k + 1]
    ensures k + 1 == |InOrder(tr.tree)| ==> (r == NIL <==> tr.rp == NULL)
    ensures k + 1 == |InOrder(tr.tree)| && tr.rp != NULL ==> r == tr.rp || (r == tr.root && tr.rp in Ids(tr.tree))
  {
    hide Rep, RepCtx, Sep, SepCtx, HoldsIn, Ids, CIds, RedBlack, InOrder, Plug, Sorted, Pre, Post;
    var node := start;
    ghost var c, t := c0, t0;
    HeldSep(tr);
    Inside(tr, c, t);
    var y := tr.mem[node].parent;
    while y != NULL && node == tr.mem[y].right
      invariant tr.Holds(c, t) && t.Node? && t.id == node && Plug(c, t) == tr.tree && node in tr.mem
      invariant y == ParentOf(c, tr.rp) && (y != NULL ==> y in tr.mem)
      invariant y != NULL ==> (node == tr.mem[y].right <==> c.Frame? && !c.isLeft)
      invariant k + 1 == |Pre(c) + InOrder(t)|
      decreases c
    {
      UpOrder(c, t);
      ZipUp(tr.mem, tr.root, tr.rp, c, t);
      node := y;
      c, t := c.up, UpTree(c, t);
      Inside(tr, c, t);
      assert node != NIL;  // the test at line 97 never succeeds
      y := tr.mem[y].parent;
    }
    PlugOrder(c, t);
    if c.Frame? {
      UpOrder(c, t);
    } else {
      TopEnds(tr, c, t);
    }
    Inside(tr, c, t);
    if y == NULL {
      return NIL;
    }
    if tr.mem[node].right != y {
      node := y;
    }
    return node;
  }

  lemma HeldSep(tr: T.RbTree)
    requires tr.Valid()
    ensures Sep(tr.tree)
  {
  }

  lemma TopEnds(tr: T.RbTree, c: Ctx, t: Tree)
    requires tr.Valid() && tr.Holds(c, t) && Plug(c, t) == tr.tree && t.Node? && c.Top?
    ensures Post(c) == [] && t == tr.tree && t.id == tr.root
    ensures tr.rp == RootId(t.r) ==> tr.rp in Ids(tr.tree) || tr.rp == NIL
  {
    assert t.r.Node? ==> t.r.id in Ids(t.r);
  }

  /** What the walk reads at a position. */
  lemma Inside(tr: T.RbTree, c: Ctx, t: Tree)
    requires tr.Valid() && tr.Holds(c, t) && Plug(c, t) == tr.tree && t.Node?
    ensures t.id > 0 && t.id in tr.mem && tr.mem[t.id].parent == ParentOf(c, tr.rp) && tr.mem[t.id].right == RootId(t.r)
    ensures var y := ParentOf(c, tr.rp);
      y != NULL ==> y > 0 && y in tr.mem && (t.id == tr.mem[y].right <==> c.Frame? && !c.isLeft)
    ensures c.Frame? ==> RootId(t.r) != c.id && c.id > 0
  {
    hide Rep, RepCtx, Sep, SepCtx, HoldsIn, Ids, CIds, RedBlack, InOrder, Plug, Sorted, Pre, Post;
    HeldSep(tr);
    Neighbours(tr.mem, tr.root, tr.rp, c, t);
    ZipInside(c, t, tr.rp);
    if c.Top? && tr.rp != NULL {
      Inhabited(tr.tree, t.id);
      RootTop(tr, tr.rp);
    }
  }

  /** yf_rbtree_for_each with the parent of the root in order: every node once, in order. */
  method Walk(tr: T.RbTree) returns (seen: seq<Ref>)
    requires tr.Valid() && (tr.tree.Node? ==> tr.rp == NULL)
    ensures seen == InOrder(tr.tree) && NoDup(seen) && Sorted(tr.key, seen)
  {
    hide Rep, RepCtx, Sep, SepCtx, Ids, CIds, RedBlack, Plug, Pre, Post, Append;
    seen := [];
    HeldSep(tr);
    OrderOnce(tr.tree);
    EmptyOrNot(tr);
    if tr.root == NIL {
      return;
    }
    var pos;
    ghost var c2, s;
    pos, c2, s := tr.MinBelow(tr.root, Top, tr.tree);
    LeastFirst(c2, s);
    while pos != NIL
      invariant |seen| <= |InOrder(tr.tree)| && seen == InOrder(tr.tree)[..|seen|]
      invariant if |seen| == |InOrder(tr.tree)| then pos == NIL else pos == InOrder(tr.tree)[|seen|] && pos > 0
      decreases |InOrder(tr.tree)| - |seen|
    {
      ghost var k := |seen|;
      seen := seen + [pos];
      pos := Next(tr, pos, k);
      if k + 1 < |InOrder(tr.tree)| {
        Positive(tr, k + 1);
      }
    }
  }

  lemma EmptyOrNot(tr: T.RbTree)
    requires tr.Valid()
    ensures tr.root == RootId(tr.tree) && (tr.root == NIL <==> tr.tree.Leaf?)
    ensures tr.tree.Leaf? ==> InOrder(tr.tree) == []
    ensures forall i :: 0 <= i < |InOrder(tr.tree)| ==> InOrder(tr.tree)[i] > 0
  {
    forall i | 0 <= i < |InOrder(tr.tree)|
      ensures InOrder(tr.tree)[i] > 0
    {
      Positive(tr, i);
    }
  }

  lemma Positive(tr: T.RbTree, i: nat)
    requires tr.Valid() && i < |InOrder(tr.tree)|
    ensures InOrder(tr.tree)[i] > 0
  {
    OrderIds(tr.tree);
    AllPositive(tr.tree, InOrder(tr.tree)[i]);
  }

  lemma {:induction false} AllPositive(t: Tree, x: Ref)
    requires Sep(t) && x in Ids(t)
    ensures x > 0
  {
    if x in Ids(t.l) {
      AllPositive(t.l, x);
    } else if x in Ids(t.r) {
      AllPositive(t.r, x);
    }
  }

  /** Going right leaves only smaller keys behind. */
  lemma BelowRight(key: Ref -> int, c: Ctx, t: Tree, kv: int)
    requires t.Node? && Sorted(key, InOrder(Plug(c, t))) && kv > key(t.id)
    ensures forall y :: y in Pre(RightCtx(c, t)) ==> key(y) < kv
  {
    hide InOrder, Plug, Pre, Post, Sorted;
    SplitAt(key, c, t);
    DownOrder(c, t);
    SortedAround(key, Pre(c) + InOrder(t.l), t.id, InOrder(t.r) + Post(c));
  }

  lemma FirstAbove(key: Ref -> int, s: seq<Ref>, a: seq<Ref>, b: seq<Ref>, kv: int)
    requires Sorted(key, s) && s == a + b && (forall y :: y in a ==> key(y) < kv)
    requires b != [] ==> key(b[0]) >= kv
    ensures b == [] || key(b[0]) > kv ==> forall y :: y in s ==> key(y) != kv
    ensures b != [] ==> |a| < |s| && s[|a|] == b[0] && forall j :: 0 <= j < |a| ==> key(s[j]) < kv
  {
    forall j | 0 <= j < |a|
      ensures key(s[j]) < kv
    {
      assert s[j] == a[j];
    }
    if b != [] {
      forall y | y in b
        ensures key(b[0]) <= key(y)
      {
        var i :| 0 <= i < |b| && b[i] == y;
        assert s[|a|] == b[0] && s[|a| + i] == y;
      }
    }
  }

  /** yf_rbtree_find: the leftmost node with an equivalent key; NULL exactly when there is none. */
  method Find(tr: T.RbTree, kv: int) returns (r: Ref, ghost k: nat)
    requires tr.Valid()
    ensures r == NULL <==> forall y :: y in Ids(tr.tree) ==> tr.key(y) != kv
    ensures r != NULL ==> k < |InOrder(tr.tree)| && InOrder(tr.tree)[k] == r && tr.key(r) == kv
    ensures r != NULL ==> forall j :: 0 <= j < k ==> tr.key(InOrder(tr.tree)[j]) < kv
  {
    hide Rep, RepCtx, Sep, SepCtx, HoldsIn, Ids, CIds, RedBlack, Plug, Pre, Post, InOrder, Sorted;
    EmptyOrNot(tr);
    OrderIds(tr.tree);
    TopIds(tr.tree);
    var y, x := NULL, tr.root;
    ghost var c, t := Top, tr.tree;
    FrameTop();
    while x != NIL
      invariant tr.Holds(c, t) && Plug(c, t) == tr.tree && x == RootId(t) && (x == NIL <==> t.Leaf?)
      invariant forall z :: z in Pre(c) ==> tr.key(z) < kv
      invariant y == NULL ==> Post(c) == []
      invariant y != NULL ==> y > 0 && Post(c) != [] && Post(c)[0] == y && tr.key(y) >= kv
      decreases t
    {
      Inside(tr, c, t);
      Neighbours(tr.mem, tr.root, tr.rp, c, t);
      ChildrenNil(tr.mem, tr.root, tr.rp, c, t);
      DownOrder(c, t);
      DownPlug(c, t);
      if !(tr.key(x) < kv) {
        ZipLeft(tr.mem, tr.root, tr.rp, c, t);
        y, x := x, tr.mem[x].left;
        c, t := LeftCtx(c, t), t.l;
      } else {
        BelowRight(tr.key, c, t, kv);
        ZipRight(tr.mem, tr.root, tr.rp, c, t);
        x := tr.mem[x].right;
        c, t := RightCtx(c, t), t.r;
      }
    }
    PlugOrder(c, t);
    assert InOrder(tr.tree) == Pre(c) + Post(c) by {
      LeafOrder(t);
    }
    FirstAbove(tr.key, InOrder(tr.tree), Pre(c), Post(c), kv);
    k := |Pre(c)|;
    r := if y == NULL || kv < tr.key(y) then NULL else y;
  }

  lemma LeafOrder(t: Tree)
    ensures t.Leaf? ==> InOrder(t) == []
  {
  }

  lemma FrameTop()
    ensures Pre(Top) == [] && Post(Top) == []
  {
  }

  lemma DownPlug(c: Ctx, t: Tree)
    requires t.Node?
    ensures Plug(LeftCtx(c, t), t.l) == Plug(c, t) && Plug(RightCtx(c, t), t.r) == Plug(c, t)
  {
  }

  /** A tree of two nodes loses its root: the walk then leads from the one node left back to the
      deleted node instead of ending. */
  method DeadRootAfterWalk(tr: T.RbTree) returns (gone: Ref, last: Ref, r: Ref)
    requires tr.Valid() && |InOrder(tr.tree)| == 2
    modifies tr
    ensures tr.Valid() && InOrder(tr.tree) == [last] && InOrder(old(tr.tree)) in {[gone, last], [last, gone]}
    ensures r == gone && gone !in Ids(tr.tree)
  {
    hide InOrder, Ids, Sorted, RedBlack, HoldsIn;
    gone := tr.root;
    RootHere(tr);
    var k := tr.Delete(gone);
    OrderIds(tr.tree);
    EmptyOrNot(tr);
    last := tr.root;
    RootHere(tr);
    TwoLessOne(InOrder(old(tr.tree)), k, InOrder(tr.tree), last);
    r := Next(tr, last, 0);
  }

  lemma TwoLessOne(s: seq<Ref>, k: nat, s': seq<Ref>, last: Ref)
    requires |s| == 2 && k < 2 && s' == s[..k] + s[k + 1..] && last in s'
    ensures s' == [last] && s in {[s[k], last], [last, s[k]]}
  {
    assert s == [s[0], s[1]];
  }

  lemma RootHere(tr: T.RbTree)
    requires tr.Valid() && InOrder(tr.tree) != []
    ensures tr.root in Ids(tr.tree) && tr.tree.Node? && tr.root > 0
  {
  }
}
