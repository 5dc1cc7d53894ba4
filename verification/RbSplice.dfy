/** Taking a node out of the tree (src/base_struct/yf_rbtree.c lines 106-197): the shapes before the
    fix-up, and what memory has to hold for them. */
module RbSplice {
  import opened RbShape
  import opened RbZipper
  import opened RbDelete

  /** Context `c2` inside the hole of context `d`. */
  function Append(c2: Ctx, d: Ctx): Ctx {
    if c2.Top? then d else c2.(up := Append(c2.up, d))
  }

  lemma {:induction false} PlugAppend(c2: Ctx, d: Ctx, t: Tree)
    ensures Plug(Append(c2, d), t) == Plug(d, Plug(c2, t))
  {
    if c2.Frame? {
      PlugAppend(c2.up, d, UpTree(c2, t));
    }
  }

  lemma ZipAppend(m: Mem, root: Ref, rp: Ref, c2: Ctx, d: Ctx, t: Tree)
    ensures HoldsIn(m, root, rp, Append(c2, d), t) <==> HoldsIn(m, root, rp, d, Plug(c2, t))
    ensures Ids(t) + CIds(Append(c2, d)) == Ids(Plug(c2, t)) + CIds(d)
  {
    ZipAll(m, root, rp, Append(c2, d), t);
    ZipAll(m, root, rp, d, Plug(c2, t));
    PlugAppend(c2, d, t);
  }

  /** The position of node `x` in the tree. */
  lemma {:induction false} Focus(t: Tree, x: Ref) returns (c: Ctx, s: Tree)
    requires x in Ids(t)
    ensures Plug(c, s) == t && s.Node? && s.id == x
  {
    if x == t.id {
      c, s := Top, t;
    } else if x in Ids(t.l) {
      var c1, s1 := Focus(t.l, x);
      c, s := Append(c1, LeftCtx(Top, t)), s1;
      PlugAppend(c1, LeftCtx(Top, t), s1);
    } else {
      var c1, s1 := Focus(t.r, x);
      c, s := Append(c1, RightCtx(Top, t)), s1;
      PlugAppend(c1, RightCtx(Top, t), s1);
    }
  }

  /** A node with at most one child gives its place to that child. */
  function OnlyChild(t: Tree): Tree
    requires t.Node?
  {
    if t.l.Leaf? then t.r else t.l
  }

  /** The hole's parent now points at the child, and the child back at the parent. */
  lemma SpliceHeld(m: Mem, m': Mem, root: Ref, rp: Ref, c: Ctx, t: Tree)
    requires HoldsIn(m, root, rp, c, t) && t.Node? && (t.l.Leaf? || t.r.Leaf?) && c.Frame?
    requires NIL in m' && !m'[NIL].red && c.id in m
    requires Reholed(m, m', c, RootId(OnlyChild(t)), root, root)
    requires var x := OnlyChild(t); x.Node? ==> x.id in m && x.id in m' && m'[x.id] == m[x.id].(parent := c.id)
    requires forall i {:trigger m'[i]} {:trigger i in m} ::
      i in m && i != NIL && i != t.id && i != c.id && i != RootId(OnlyChild(t)) ==> i in m' && m'[i] == m[i]
    ensures HoldsIn(m', root, rp, c, OnlyChild(t))
    ensures t.id !in Ids(OnlyChild(t)) && t.id !in CIds(c)
    ensures Ids(OnlyChild(t)) + CIds(c) == Ids(t) + CIds(c) - {t.id}
  {
    var x := OnlyChild(t);
    NilOutside(c, t);
    assert Sep(x) && Rep(m, x, t.id) && Ids(t) == Ids(x) + {t.id};
    if x.Node? {
      assert x.id in Ids(x);
      RepReparent(m, m', x, t.id, c.id);
    }
    RepRehole(m, m', c, t.id, RootId(x), rp);
    RootOfFrame(c, t.id, RootId(x));
  }

  ghost function RenameCells(c: Ctx, t: Tree, s: Ref): set<Ref>
    requires t.Node?
  {
    {NIL, t.id, s, RootId(t.l), RootId(t.r)} + if c.Frame? then {c.id} else {}
  }

  lemma RenameSep(c: Ctx, t: Tree, s: Ref)
    requires SepAt(c, t) && t.Node? && s > 0 && s !in Ids(t) && s !in CIds(c)
    ensures SepAt(c, t.(id := s)) && NIL !in Ids(t) && NIL !in CIds(c)
    ensures Ids(t.(id := s)) + CIds(c) == Ids(t) + CIds(c) - {t.id} + {s}
  {
    NilOutside(c, t);
  }

  lemma RenameRep(m: Mem, m': Mem, rp: Ref, c: Ctx, t: Tree, s: Ref)
    requires SepAt(c, t) && RepCtx(m, c, RootId(t), rp) && Rep(m, t, ParentOf(c, rp))
    requires t.Node? && s > 0 && s !in Ids(t) && s !in CIds(c)
    requires t.l.Node? ==> t.l.id in m && t.l.id in m' && m'[t.l.id] == m[t.l.id].(parent := s)
    requires t.r.Node? ==> t.r.id in m && t.r.id in m' && m'[t.r.id] == m[t.r.id].(parent := s)
    requires Reholed(m, m', c, s, NIL, if c.Top? then s else NIL)
    requires forall i {:trigger m'[i]} {:trigger i in m} ::
      i in m && i !in RenameCells(c, t, s) ==> i in m' && m'[i] == m[i]
    ensures RepCtx(m', c, s, rp) && Rep(m', t.l, s) && Rep(m', t.r, s)
  {
    RenameApart(c, t, s);
    assert Rep(m, t.l, t.id) && Rep(m, t.r, t.id) && Sep(t.l) && Sep(t.r);
    hide Ids, CIds, Rep, RepCtx, Sep, SepCtx, RenameCells;
    if t.l.Node? {
      RepReparent(m, m', t.l, t.id, s);
    } else {
      RepLeaf(m', s);
    }
    if t.r.Node? {
      RepReparent(m, m', t.r, t.id, s);
    } else {
      RepLeaf(m', s);
    }
    RepRehole(m, m', c, t.id, s, rp);
  }

  lemma RepLeaf(m: Mem, p: Ref)
    ensures Rep(m, Leaf, p)
  {
  }

  /** The touched cells are the roots of the parts and nothing below them. */
  lemma RenameApart(c: Ctx, t: Tree, s: Ref)
    requires SepAt(c, t) && t.Node? && s > 0 && s !in Ids(t) && s !in CIds(c)
    ensures (Ids(t.l) - {RootId(t.l)}) !! RenameCells(c, t, s)
    ensures (Ids(t.r) - {RootId(t.r)}) !! RenameCells(c, t, s)
    ensures c.Frame? ==> (CIds(c) - {c.id}) !! RenameCells(c, t, s)
  {
    NilOutside(c, t);
    assert t.l.Node? ==> t.l.id in Ids(t.l);
    assert t.r.Node? ==> t.r.id in Ids(t.r);
    if c.Frame? {
      assert c.id in CIds(c);
    }
  }

  /** Node `s`, not in the tree, takes over the place, colour and children of the root of `t`. */
  lemma RenameHeld(m: Mem, m': Mem, root: Ref, root': Ref, rp: Ref, c: Ctx, t: Tree, s: Ref)
    requires HoldsIn(m, root, rp, c, t) && t.Node? && s > 0 && s !in Ids(t) && s !in CIds(c)
    requires NIL in m' && !m'[NIL].red && s in m'
    requires m'[s] == Cell(RootId(t.l), RootId(t.r), ParentOf(c, rp), t.red)
    requires t.l.Node? ==> t.l.id in m && t.l.id in m' && m'[t.l.id] == m[t.l.id].(parent := s)
    requires t.r.Node? ==> t.r.id in m && t.r.id in m' && m'[t.r.id] == m[t.r.id].(parent := s)
    requires Reholed(m, m', c, s, root, root')
    requires forall i {:trigger m'[i]} {:trigger i in m} ::
      i in m && i !in RenameCells(c, t, s) ==> i in m' && m'[i] == m[i]
    ensures HoldsIn(m', root', rp, c, t.(id := s))
    ensures Ids(t.(id := s)) + CIds(c) == Ids(t) + CIds(c) - {t.id} + {s}
  {
    RenameSep(c, t, s);
    RenameRep(m, m', rp, c, t, s);
    if c.Frame? {
      RootOfFrame(c, t.id, s);
    }
  }

  /** Balance and colours do not see which node stands in a frame. */
  lemma {:induction false} FrameIdFree(c2: Ctx, d: Ctx, id: Ref, n: nat, b: bool)
    requires d.Frame?
    ensures BalancedCtx(Append(c2, d.(id := id)), n) <==> BalancedCtx(Append(c2, d), n)
    ensures NoRRCtx(Append(c2, d.(id := id)), b) <==> NoRRCtx(Append(c2, d), b)
    ensures TopBlack(Append(c2, d.(id := id))) <==> TopBlack(Append(c2, d))
    ensures Append(c2, d).Frame?
  {
    if c2.Frame? {
      FrameIdFree(c2.up, d, id, n + if c2.red then 0 else 1, c2.red);
    }
  }

  /** Colours and heights around the child once node `s` with at most one child is gone from
      context `c`: nothing is short if it was red, one black is short if it was black. */
  lemma SplicedColours(c: Ctx, s: Tree)
    requires RedBlack(Plug(c, s)) && s.Node? && (s.l.Leaf? || s.r.Leaf?)
    ensures c.Frame? && !s.red ==> DelInv(c, OnlyChild(s))
    ensures c.Frame? && s.red ==> RedBlack(Plug(c, OnlyChild(s)))
    ensures c.Frame? && s.red ==> OnlyChild(s).Leaf? && BalancedCtx(c, 0) && NoRRCtx(c, false) && TopBlack(c)
    ensures c.Top? ==> RedBlack(Paint(OnlyChild(s), false))
  {
    PlugBalanced(c, s);
    PlugNoRR(c, s);
    PlugRootBlack(c, s);
    if c.Frame? {
      NoRRCtxMono(c, IsRed(s));
      if s.red {
        assert OnlyChild(s).Leaf?;
        PlugBalanced(c, Leaf);
        PlugNoRR(c, Leaf);
        PlugRootBlack(c, Leaf);
      }
    }
  }

  lemma LeafFits(c: Ctx)
    requires c.Frame? && BalancedCtx(c, 0) && NoRRCtx(c, false) && TopBlack(c)
    ensures RedBlack(Plug(c, Leaf))
  {
    PlugBalanced(c, Leaf);
    PlugNoRR(c, Leaf);
    PlugRootBlack(c, Leaf);
  }

  lemma CutAt(s: seq<Ref>, a: seq<Ref>, x: Ref, b: seq<Ref>)
    requires s == a + [x] + b
    ensures |a| < |s| && s[|a|] == x && s[..|a|] + s[|a| + 1..] == a + b
  {
    assert s[..|a|] == a && s[|a| + 1..] == b;
  }

  /** The in-order sequence loses exactly the node, whichever way it was taken out. */
  lemma SplicedOrder(c: Ctx, t: Tree)
    requires t.Node? && (t.l.Leaf? || t.r.Leaf?)
    ensures var s, k := InOrder(Plug(c, t)), |Pre(c)| + |InOrder(t.l)|;
      k < |s| && s[k] == t.id && InOrder(Plug(c, OnlyChild(t))) == s[..k] + s[k + 1..]
  {
    hide InOrder, Pre, Post, Plug;
    PlugOrder(c, t);
    PlugOrder(c, OnlyChild(t));
    OrderOf(t);
    var a, b := Pre(c) + InOrder(t.l), InOrder(t.r) + Post(c);
    Flatten(Pre(c), InOrder(t.l), [t.id], InOrder(t.r), Post(c));
    CutAt(InOrder(Plug(c, t)), a, t.id, b);
    if t.l.Leaf? {
      assert a == Pre(c);
      assert a + b == Pre(c) + InOrder(t.r) + Post(c);
    } else {
      assert b == Post(c);
    }
  }

  lemma ReplacedOrder(c: Ctx, t: Tree, c2: Ctx, s: Tree)
    requires t.Node? && t.r == Plug(c2, s) && s.Node? && s.l.Leaf? && Pre(c2) == []
    ensures var o, k := InOrder(Plug(c, t)), |Pre(c)| + |InOrder(t.l)|;
      k < |o| && o[k] == t.id
      && InOrder(Plug(Append(c2, Frame(false, s.id, t.red, t.l, c)), s.r)) == o[..k] + o[k + 1..]
  {
    hide InOrder, Pre, Post, Plug, Append, UpTree;
    NewWhole(c, t, c2, s);
    LeastFirst(c2, s);
    PlugOrder(c, t);
    OrderOf(t);
    Flatten(Pre(c), InOrder(t.l), [t.id], InOrder(t.r), Post(c));
    CutAt(InOrder(Plug(c, t)), Pre(c) + InOrder(t.l), t.id, InOrder(t.r) + Post(c));
    TailShift(Pre(c) + InOrder(t.l), [s.id], InOrder(Plug(c2, s.r)), Post(c));
  }

  /** The least node comes first in its subtree. */
  lemma LeastFirst(c2: Ctx, s: Tree)
    requires s.Node? && s.l.Leaf? && Pre(c2) == []
    ensures InOrder(Plug(c2, s)) == [s.id] + InOrder(Plug(c2, s.r))
  {
    hide InOrder, Pre, Post, Plug;
    PlugOrder(c2, s);
    PlugOrder(c2, s.r);
    OrderOf(s);
    HeadDrop(Pre(c2), InOrder(s.l), [s.id], InOrder(s.r), Post(c2));
  }

  lemma NewWhole(c: Ctx, t: Tree, c2: Ctx, s: Tree)
    requires t.Node? && s.Node?
    ensures InOrder(Plug(Append(c2, Frame(false, s.id, t.red, t.l, c)), s.r))
         == (Pre(c) + InOrder(t.l)) + [s.id] + (InOrder(Plug(c2, s.r)) + Post(c))
  {
    hide InOrder, Pre, Post, Plug, Append, UpTree;
    var d, r' := Frame(false, s.id, t.red, t.l, c), Plug(c2, s.r);
    PlugAppend(c2, d, s.r);
    PlugOnce(d, r');
    UpRight(d, r');
    var t' := Node(t.l, s.id, t.red, r');
    PlugOrder(c, t');
    OrderOf(t');
    Flatten(Pre(c), InOrder(t.l), [s.id], InOrder(r'), Post(c));
  }

  lemma HeadDrop(a: seq<Ref>, b: seq<Ref>, c: seq<Ref>, d: seq<Ref>, e: seq<Ref>)
    requires a == [] && b == []
    ensures a + (b + c + d) + e == c + (a + d + e)
  {
  }

  lemma TailShift(a: seq<Ref>, b: seq<Ref>, c: seq<Ref>, d: seq<Ref>)
    ensures a + ((b + c) + d) == a + b + (c + d)
  {
  }

  lemma UpRight(d: Ctx, t: Tree)
    requires d.Frame? && !d.isLeft
    ensures UpTree(d, t) == Node(d.sib, d.id, d.red, t)
  {
  }

  lemma PlugOnce(c: Ctx, t: Tree)
    requires c.Frame?
    ensures Plug(c, t) == Plug(c.up, UpTree(c, t))
  {
  }

  lemma SortedWithout(key: Ref -> int, s: seq<Ref>, k: nat)
    requires Sorted(key, s) && k < |s|
    ensures Sorted(key, s[..k] + s[k + 1..])
  {
  }

  lemma MinStart(m: Mem, root: Ref, rp: Ref, c: Ctx, t: Tree)
    requires HoldsIn(m, root, rp, c, t) && t.Node?
    ensures t.id in m && m[t.id].left == RootId(t.l) && (RootId(t.l) == NIL <==> t.l.Leaf?)
    ensures Append(Top, c) == c && Plug(Top, t) == t
  {
    assert Sep(t.l);
  }

  lemma MinStep(m: Mem, root: Ref, rp: Ref, c: Ctx, c2: Ctx, s: Tree)
    requires HoldsIn(m, root, rp, Append(c2, c), s) && s.Node? && s.l.Node? && Pre(c2) == []
    ensures HoldsIn(m, root, rp, Append(LeftCtx(c2, s), c), s.l)
    ensures s.l.id in m && m[s.l.id].left == RootId(s.l.l) && (RootId(s.l.l) == NIL <==> s.l.l.Leaf?)
    ensures Pre(LeftCtx(c2, s)) == [] && Plug(LeftCtx(c2, s), s.l) == Plug(c2, s)
  {
    ZipLeft(m, root, rp, Append(c2, c), s);
    assert Rep(m, s.l, s.id) && Sep(s.l) && Sep(s.l.l);
  }

  /** The cells taking out a node with at most one child works on. */
  lemma LowCells(m: Mem, root: Ref, rp: Ref, c: Ctx, t: Tree)
    requires HoldsIn(m, root, rp, c, t) && t.Node? && (t.l.Leaf? || t.r.Leaf?) && c.Frame?
    ensures NIL in m && !m[NIL].red && t.id > 0 && c.id > 0
    ensures t.id in m && m[t.id].parent == c.id && m[t.id].red == t.red
    ensures c.id in m && c.id != t.id && (m[c.id].left == t.id <==> c.isLeft)
    ensures RootId(OnlyChild(t)) in m && RootId(OnlyChild(t)) != t.id && RootId(OnlyChild(t)) != c.id
    ensures OnlyChild(t).Node? ==> RootId(OnlyChild(t)) > 0
    ensures c.id in CIds(c) && (OnlyChild(t).Node? ==> RootId(OnlyChild(t)) in Ids(OnlyChild(t)))
  {
    var x := OnlyChild(t);
    NilOutside(c, t);
    assert t.id in Ids(t) && c.id in CIds(c) && Sep(x) && Rep(m, x, t.id) && Sep(c.sib);
    assert x.Node? ==> x.id in Ids(x) && x.id in Ids(t);
    assert c.sib.Node? ==> c.sib.id in Ids(c.sib);
  }

  /** The cells a replacement works on. */
  lemma PlaceCells(m: Mem, root: Ref, rp: Ref, c: Ctx, t: Tree, s: Ref)
    requires HoldsIn(m, root, rp, c, t) && t.Node? && s > 0 && s !in Ids(t) && s !in CIds(c)
    ensures NIL in m && !m[NIL].red && t.id > 0 && t.id != s
    ensures t.id in m && m[t.id] == Cell(RootId(t.l), RootId(t.r), ParentOf(c, rp), t.red)
    ensures root == t.id <==> c.Top?
    ensures c.Frame? ==> c.id in m && c.id > 0 && c.id != t.id && c.id != s && (m[c.id].left == t.id <==> c.isLeft)
    ensures c.Frame? ==> c.id != RootId(t.l) && c.id != RootId(t.r)
    ensures t.l.Node? ==> t.l.id in m && t.l.id > 0 && t.l.id != t.id && t.l.id != s && t.l.id != RootId(t.r)
    ensures t.r.Node? ==> t.r.id in m && t.r.id > 0 && t.r.id != t.id && t.r.id != s
  {
    NilOutside(c, t);
    RootOfIsHole(c, t.id);
    assert Sep(t.l) && Sep(t.r) && t.id in Ids(t) && Rep(m, t.l, t.id) && Rep(m, t.r, t.id);
    assert t.l.Node? ==> t.l.id in Ids(t.l);
    assert t.r.Node? ==> t.r.id in Ids(t.r);
    if c.Frame? {
      assert c.id in CIds(c) && Sep(c.sib);
      assert c.sib.Node? ==> c.sib.id in Ids(c.sib);
    }
  }

  lemma AppendTop(c2: Ctx, d: Ctx)
    requires d.Frame?
    ensures Append(c2, d).Frame? && Append(c2, d).id == if c2.Top? then d.id else c2.id
  {
  }

  lemma BelowIds(r: Tree, c2: Ctx, s: Tree)
    requires r == Plug(c2, s) && s.Node? && s.l.Leaf? && Sep(r)
    ensures s.id > 0 && s.id in Ids(r) && Ids(Plug(c2, s.r)) == Ids(r) - {s.id}
    ensures c2.Frame? ==> c2.id in Ids(r)
  {
    hide Ids, CIds, Sep, SepCtx, Plug;
    PlugIds(c2, s);
    PlugIds(c2, s.r);
    Has(s, c2);
    LeftEmpty(s);
  }

  lemma LeftEmpty(s: Tree)
    requires s.Node? && s.l.Leaf? && Sep(s)
    ensures Ids(s) == Ids(s.r) + {s.id} && s.id !in Ids(s.r) && s.id > 0
  {
  }

  lemma Apart(m: Mem, root: Ref, rp: Ref, c: Ctx, t: Tree)
    requires HoldsIn(m, root, rp, c, t) && t.Node?
    ensures Ids(t) == Ids(t.l) + {t.id} + Ids(t.r) && Sep(t.l) && Sep(t.r)
    ensures t.id !in Ids(t.l) && t.id !in Ids(t.r) && Ids(t.l) !! Ids(t.r)
    ensures (Ids(t.l) + {t.id} + Ids(t.r)) !! CIds(c) && t.id > 0
    ensures t.l.Node? ==> t.l.id in Ids(t.l)
    ensures t.r.Node? ==> t.r.id in Ids(t.r)
    ensures c.Frame? ==> c.id in CIds(c)
  {
  }

  lemma DropOne(a: set<Ref>, x: Ref, r: set<Ref>, u: set<Ref>, s: Ref)
    requires s in r && a !! r && x !in r && (a + {x} + r) !! u
    ensures a + {x} + (r - {s}) + u == a + {x} + r + u - {s}
    ensures s !in a + {x} + (r - {s}) && s !in u
  {
  }

  /** The nodes around a replacement, before `s` takes its new place. */
  lemma HighIds(m: Mem, root: Ref, rp: Ref, c: Ctx, t: Tree, c2: Ctx, s: Tree)
    requires HoldsIn(m, root, rp, c, t)
    requires t.Node? && t.r == Plug(c2, s) && s.Node? && s.l.Leaf?
    ensures var t1 := t.(r := Plug(c2, s.r));
      && s.id > 0 && s.id !in Ids(t1) && s.id !in CIds(c) && s.id != t.id && s.id in Ids(t) && t.id > 0
      && (c2.Frame? ==> c2.id != t.id)
      && Ids(t1) + CIds(c) == Ids(t) + CIds(c) - {s.id}
  {
    hide Ids, CIds, HoldsIn, Sep, Plug;
    Apart(m, root, rp, c, t);
    BelowIds(t.r, c2, s);
    DropOne(Ids(t.l), t.id, Ids(t.r), CIds(c), s.id);
    IdsOf(t.(r := Plug(c2, s.r)));
  }

  /** After `s` took its new place, the tree has all nodes but the deleted one. */
  lemma HighWhole(m: Mem, root: Ref, rp: Ref, c: Ctx, t2: Tree, c2: Ctx, x: Tree)
    requires HoldsIn(m, root, rp, c, t2) && t2.Node? && t2.r == Plug(c2, x)
    ensures HoldsIn(m, root, rp, Append(c2, RightCtx(c, t2)), x)
    ensures Ids(x) + CIds(Append(c2, RightCtx(c, t2))) == Ids(t2) + CIds(c)
  {
    hide HoldsIn, Ids, CIds, Plug, Append;
    ZipRight(m, root, rp, c, t2);
    ZipAppend(m, root, rp, c2, RightCtx(c, t2), x);
  }

  /** The nodes next to the places a replacement touches belong to the tree. */
  lemma HighNear(m: Mem, root: Ref, rp: Ref, c: Ctx, t2: Tree, c2: Ctx, x: Tree)
    requires HoldsIn(m, root, rp, c, t2) && t2.Node? && t2.r == Plug(c2, x)
    ensures c2.Frame? ==> c2.id in Ids(t2)
    ensures x.Node? ==> x.id in Ids(t2)
    ensures c.Frame? ==> c.id in CIds(c)
    ensures RootId(t2.l) in Ids(t2) + {NIL} && RootId(t2.r) in Ids(t2) + {NIL} && t2.id in Ids(t2)
  {
    hide HoldsIn, Ids, CIds, Plug;
    PlugIds(c2, x);
    Apart(m, root, rp, c, t2);
    Has(x, c2);
  }

  /** In a red-black tree the root has exactly one child only if there are just two nodes. */
  lemma LoneChild(t: Tree)
    requires RedBlack(t) && t.Node?
    ensures |InOrder(t)| == 2 <==> t.l.Leaf? != t.r.Leaf?
    ensures t.l.Node? && t.r.Node? ==> |InOrder(t)| >= 3
  {
    if t.l.Node? && t.r.Leaf? {
      assert Bh(t.l) == 0;
      BhZero(t.l);
    }
    if t.r.Node? && t.l.Leaf? {
      assert Bh(t.r) == 0;
      BhZero(t.r);
    }
  }

  /** A balanced subtree of black height zero is at most one red node. */
  lemma BhZero(t: Tree)
    requires Balanced(t) && NoRR(t) && Bh(t) == 0 && t.Node?
    ensures t.l.Leaf? && t.r.Leaf? && InOrder(t) == [t.id]
  {
    assert Bh(t.l) == 0 && Bh(t.r) == 0;
  }

  lemma Inhabited(t: Tree, x: Ref)
    requires x in Ids(t)
    ensures t.Node?
  {
  }

  lemma Has(t: Tree, c: Ctx)
    ensures t.Node? ==> t.id in Ids(t)
    ensures c.Frame? ==> c.id in CIds(c)
  {
  }

  lemma HighColours(c: Ctx, t: Tree, c2: Ctx, s: Tree)
    requires t.Node? && t.r == Plug(c2, s) && s.Node? && s.l.Leaf? && RedBlack(Plug(c, t))
    ensures var C := Append(c2, Frame(false, s.id, t.red, t.l, c));
      if s.red then RedBlack(Plug(C, s.r)) else DelInv(C, s.r)
  {
    var d0 := RightCtx(c, t);
    PlugAppend(c2, d0, s);
    assert Plug(d0, t.r) == Plug(c, t);
    FrameIdFree(c2, d0, s.id, Bh(s.r) + 1, false);
    FrameIdFree(c2, d0, s.id, 0, false);
    SplicedColours(Append(c2, d0), s);
    if s.red {
      LeafFits(Append(c2, d0.(id := s.id)));
    }
  }

  lemma ChildrenNil(m: Mem, root: Ref, rp: Ref, c: Ctx, t: Tree)
    requires HoldsIn(m, root, rp, c, t) && t.Node?
    ensures RootId(t.l) == NIL <==> t.l.Leaf?
    ensures RootId(t.r) == NIL <==> t.r.Leaf?
    ensures RootId(t.l) in m && RootId(t.r) in m
  {
    assert Sep(t.l) && Sep(t.r) && Rep(m, t.l, t.id) && Rep(m, t.r, t.id);
  }

  /** Lines 128-139: a root with at most one child. The child becomes the root and keeps the
      address of the deleted node in its parent field. */
  lemma RootGone(m: Mem, root: Ref, rp: Ref, c: Ctx, t: Tree)
    requires HoldsIn(m, root, rp, c, t) && t.Node? && c.Top? && (t.l.Leaf? || t.r.Leaf?)
    ensures var x := OnlyChild(t);
      RootId(x) in m && (
        var m1 := SetRed(m, RootId(x), false);
        t.id in m1 && HoldsIn(m1[t.id := m1[t.id].(left := NULL, right := NULL, parent := NULL)], RootId(x),
          if x.Node? then t.id else rp, Top, Paint(x, false)))
    ensures Ids(OnlyChild(t)) == Ids(t) - {t.id} && RootId(OnlyChild(t)) != t.id
    ensures OnlyChild(t).Node? ==> RootId(OnlyChild(t)) in Ids(OnlyChild(t))
    ensures OnlyChild(t).Leaf? ==> RootId(OnlyChild(t)) == NIL
  {
    var x := OnlyChild(t);
    NilOutside(c, t);
    assert Sep(x) && Rep(m, x, t.id) && Ids(t) == Ids(x) + {t.id};
    var m1 := SetRed(m, RootId(x), false);
    var m2 := m1[t.id := m1[t.id].(left := NULL, right := NULL, parent := NULL)];
    if x.Node? {
      assert x.id in Ids(x);
      RepFrame(m, m2, x.l, x.id);
      RepFrame(m, m2, x.r, x.id);
    }
  }

  lemma NewParent(m: Mem, root: Ref, rp: Ref, c: Ctx, t: Tree)
    requires HoldsIn(m, root, rp, c, t)
    ensures t.Node? ==> t.id in m && t.id > 0 && m[t.id].parent == ParentOf(c, rp)
    ensures NIL in m
  {
  }
}
