/** Shapes of the delete fix-up (src/base_struct/yf_rbtree.c lines 206-275): each case as a step
    on the zipper, with what it keeps. */
module RbDelete {
  import opened RbShape
  import opened RbZipper

  /** The loop invariant: the hole is one black short, and its subtree may have a red root
      over a red child. At the top nothing is short. */
  ghost predicate DelInv(c: Ctx, t: Tree) {
    && Balanced(t) && NoRRBelow(t)
    && (c.Frame? ==> BalancedCtx(c, Bh(t) + 1) && NoRRCtx(c, false) && TopBlack(c))
  }

  /** The position of the sibling. */
  function SibCtx(c: Ctx, t: Tree): Ctx
    requires c.Frame?
  {
    Frame(!c.isLeft, c.id, c.red, t, c.up)
  }

  function Near(c: Ctx): Tree requires c.Frame? && c.sib.Node? { if c.isLeft then c.sib.l else c.sib.r }
  function Outer(c: Ctx): Tree requires c.Frame? && c.sib.Node? { if c.isLeft then c.sib.r else c.sib.l }

  /** A hole one black short has a real sibling, with both children in place. */
  lemma SibIsNode(c: Ctx, t: Tree)
    requires DelInv(c, t) && c.Frame?
    ensures c.sib.Node?
  {
  }

  /** Red sibling: rotate it over the parent. */
  function DelSibRed(c: Ctx): Ctx
    requires c.Frame? && c.sib.Node?
  {
    Frame(c.isLeft, c.id, true, Near(c), Frame(c.isLeft, c.sib.id, false, Outer(c), c.up))
  }

  lemma DelSibRedInv(c: Ctx, t: Tree)
    requires DelInv(c, t) && c.Frame? && IsRed(c.sib)
    ensures DelInv(DelSibRed(c), t) && !IsRed(DelSibRed(c).sib)
  {
    var d, w := DelSibRed(c), c.sib;
    assert !c.red;
    assert Balanced(w) && NoRR(w) && NoRR(w.l) && NoRR(w.r);
    assert NoRRCtx(d.up, true) && BalancedCtx(d.up, Bh(t) + 1) && TopBlack(d.up);
  }

  lemma FrameOrder(c: Ctx)
    requires c.Frame?
    ensures Pre(c) == if c.isLeft then Pre(c.up) else Pre(c.up) + InOrder(c.sib) + [c.id]
    ensures Post(c) == if c.isLeft then [c.id] + InOrder(c.sib) + Post(c.up) else Post(c.up)
    ensures CIds(c) == {c.id} + Ids(c.sib) + CIds(c.up)
  {
  }

  lemma DelSibRedIds(c: Ctx)
    requires c.Frame? && IsRed(c.sib)
    ensures CIds(DelSibRed(c)) == CIds(c)
  {
    hide Ids, CIds;
    var d, w := DelSibRed(c), c.sib;
    FrameOrder(c);
    FrameOrder(d);
    FrameOrder(d.up);
    IdsOf(w);
    UnionNest({c.id}, Ids(w.l), {w.id}, Ids(w.r), CIds(c.up));
  }

  lemma DelSibRedOk(c: Ctx, t: Tree)
    requires DelInv(c, t) && c.Frame? && IsRed(c.sib)
    ensures DelInv(DelSibRed(c), t) && !IsRed(DelSibRed(c).sib)
    ensures InOrder(Plug(DelSibRed(c), t)) == InOrder(Plug(c, t))
    ensures Ids(t) + CIds(DelSibRed(c)) == Ids(t) + CIds(c)
  {
    hide DelInv, InOrder, Pre, Post, Plug, Ids, CIds;
    DelSibRedInv(c, t);
    DelSibRedIds(c);
    var d, w := DelSibRed(c), c.sib;
    PlugOrder(c, t);
    PlugOrder(d, t);
    FrameOrder(c);
    FrameOrder(d);
    FrameOrder(d.up);
    OrderOf(w);
    if c.isLeft {
      Regroup([c.id], InOrder(w.l), [w.id], InOrder(w.r), Post(c.up));
      assert Post(d) == Post(c);
    } else {
      Regroup(Pre(c.up), InOrder(w.l), [w.id], InOrder(w.r), [c.id]);
      assert Pre(d) == Pre(c);
    }
  }

  lemma UnionNest(x: set<Ref>, a: set<Ref>, y: set<Ref>, b: set<Ref>, u: set<Ref>)
    ensures x + (a + y + b) + u == x + a + (y + b + u)
    ensures x + (a + y + b) + u == x + b + (y + a + u)
  {
  }

  lemma UnionSwap(s: set<Ref>, y: set<Ref>, t: set<Ref>, u: set<Ref>)
    ensures s + (y + t + u) == t + (y + s + u)
  {
  }

  lemma IdsOf(t: Tree)
    requires t.Node?
    ensures Ids(t) == Ids(t.l) + {t.id} + Ids(t.r)
  {
  }

  /** Sibling black with black children: recolour it and move up. */
  lemma DelSibBlackOk(c: Ctx, t: Tree)
    requires DelInv(c, t) && c.Frame? && !IsRed(t) && c.sib.Node? && !c.sib.red && !IsRed(c.sib.l) && !IsRed(c.sib.r)
    ensures DelInv(c.up, UpTree(c.(sib := Paint(c.sib, true)), t))
    ensures InOrder(Plug(c.up, UpTree(c.(sib := Paint(c.sib, true)), t))) == InOrder(Plug(c, t))
    ensures Ids(UpTree(c.(sib := Paint(c.sib, true)), t)) + CIds(c.up) == Ids(t) + CIds(c)
  {
    var w' := Paint(c.sib, true);
    PaintSame(c.sib, true);
    assert Balanced(w') && NoRR(w') && Bh(w') == Bh(t);
    PlugReplace(c.up, UpTree(c, t), UpTree(c.(sib := w'), t));
    assert Bh(UpTree(c.(sib := w'), t)) + 1 == Bh(t) + 1 + if c.red then 0 else 1;
    NoRRCtxMono(c.up, c.red);
  }

  /** Sibling's near child red, outer black: turn the sibling so that the outer one is red. */
  function DelInner(c: Ctx): Ctx
    requires c.Frame? && c.sib.Node? && Near(c).Node?
  {
    c.(sib := if c.isLeft then RotRight(Node(Paint(c.sib.l, false), c.sib.id, true, c.sib.r))
              else RotLeft(Node(c.sib.l, c.sib.id, true, Paint(c.sib.r, false))))
  }

  lemma DelInnerShape(c: Ctx, n: nat)
    requires c.Frame? && c.sib.Node? && !c.sib.red && IsRed(Near(c)) && !IsRed(Outer(c))
    requires Balanced(c.sib) && NoRR(c.sib) && Bh(c.sib) == n
    ensures var w := DelInner(c).sib; Balanced(w) && NoRR(w) && Bh(w) == n && !IsRed(w)
    ensures IsRed(Outer(DelInner(c)))
  {
    var w, m, w' := c.sib, Near(c), DelInner(c).sib;
    assert Balanced(m) && NoRR(m) && Bh(m.l) == Bh(m.r) == Bh(m);
    if c.isLeft {
      assert Balanced(w'.r) && NoRR(w'.r) && Bh(w'.r) == Bh(m.r);
    } else {
      assert Balanced(w'.l) && NoRR(w'.l) && Bh(w'.l) == Bh(w.l);
    }
  }

  lemma DelInnerOrder(c: Ctx)
    requires c.Frame? && c.sib.Node? && Near(c).Node?
    ensures InOrder(DelInner(c).sib) == InOrder(c.sib)
  {
    var w, m, w' := c.sib, Near(c), DelInner(c).sib;
    if c.isLeft {
      assert InOrder(w) == (InOrder(m.l) + [m.id] + InOrder(m.r)) + [w.id] + InOrder(w.r);
      assert InOrder(w') == InOrder(m.l) + [m.id] + (InOrder(m.r) + [w.id] + InOrder(w.r));
    } else {
      assert InOrder(w) == InOrder(w.l) + [w.id] + (InOrder(m.l) + [m.id] + InOrder(m.r));
      assert InOrder(w') == (InOrder(w.l) + [w.id] + InOrder(m.l)) + [m.id] + InOrder(m.r);
    }
  }

  lemma DelInnerIds(c: Ctx)
    requires c.Frame? && c.sib.Node? && Near(c).Node?
    ensures Ids(DelInner(c).sib) == Ids(c.sib)
  {
    var w, m, w' := c.sib, Near(c), DelInner(c).sib;
    assert Ids(m) == Ids(m.l) + {m.id} + Ids(m.r);
    if c.isLeft {
      assert Ids(w'.r) == Ids(m.r) + {w.id} + Ids(w.r);
    } else {
      assert Ids(w'.l) == Ids(w.l) + {w.id} + Ids(m.l);
    }
  }

  lemma DelInnerOk(c: Ctx, t: Tree)
    requires DelInv(c, t) && c.Frame? && c.sib.Node? && !c.sib.red && IsRed(Near(c)) && !IsRed(Outer(c))
    ensures DelInv(DelInner(c), t) && !IsRed(DelInner(c).sib) && IsRed(Outer(DelInner(c)))
    ensures InOrder(Plug(DelInner(c), t)) == InOrder(Plug(c, t))
    ensures Ids(t) + CIds(DelInner(c)) == Ids(t) + CIds(c)
  {
    var d := DelInner(c);
    DelInnerShape(c, Bh(t) + 1);
    DelInnerOrder(c);
    DelInnerIds(c);
    PlugReplace(c.up, UpTree(c, t), UpTree(d, t));
  }

  /** Sibling's outer child red: rotate the sibling over the parent; nothing is short any more. */
  function DelOuter(c: Ctx, t: Tree): Tree
    requires c.Frame? && c.sib.Node?
  {
    if c.isLeft then Node(Node(t, c.id, false, c.sib.l), c.sib.id, c.red, Paint(c.sib.r, false))
    else Node(Paint(c.sib.l, false), c.sib.id, c.red, Node(c.sib.r, c.id, false, t))
  }

  lemma DelOuterShape(c: Ctx, t: Tree)
    requires DelInv(c, t) && c.Frame? && !IsRed(t) && c.sib.Node? && !c.sib.red && IsRed(Outer(c))
    ensures var g := DelOuter(c, t);
      Balanced(g) && NoRR(g) && IsRed(g) == c.red && Bh(g) == Bh(t) + 1 + if c.red then 0 else 1
  {
    var g, w, o := DelOuter(c, t), c.sib, Outer(c);
    assert Balanced(w) && NoRR(w) && Bh(w.l) == Bh(w.r) && Bh(w) == Bh(t) + 1;
    assert Balanced(o) && NoRR(o) && Balanced(Paint(o, false)) && NoRR(Paint(o, false));
    assert Balanced(Near(c)) && NoRR(Near(c)) && NoRR(t) && Bh(Paint(o, false)) == Bh(o) + 1;
    var inner := if c.isLeft then g.l else g.r;
    assert Balanced(inner) && NoRR(inner) && Bh(inner) == Bh(t) + 1;
  }

  lemma DelOuterOrder(c: Ctx, t: Tree)
    requires c.Frame? && c.sib.Node?
    ensures InOrder(DelOuter(c, t)) == InOrder(UpTree(c, t))
  {
    var w := c.sib;
    PaintSame(Outer(c), false);
    if c.isLeft {
      Chain(InOrder(t), [c.id], InOrder(w.l), [w.id], InOrder(w.r));
    } else {
      Chain(InOrder(w.l), [w.id], InOrder(w.r), [c.id], InOrder(t));
    }
  }

  lemma Chain(a: seq<Ref>, b: seq<Ref>, c: seq<Ref>, d: seq<Ref>, e: seq<Ref>)
    ensures (a + b + c) + d + e == a + b + (c + d + e)
  {
  }

  lemma DelOuterIds(c: Ctx, t: Tree)
    requires c.Frame? && c.sib.Node?
    ensures Ids(DelOuter(c, t)) + CIds(c.up) == Ids(t) + CIds(c)
  {
    var g, w := DelOuter(c, t), c.sib;
    PaintSame(Outer(c), false);
    if c.isLeft {
      assert Ids(g.l) == Ids(t) + {c.id} + Ids(w.l);
    } else {
      assert Ids(g.r) == Ids(w.r) + {c.id} + Ids(t);
    }
  }

  lemma DelOuterOk(c: Ctx, t: Tree)
    requires DelInv(c, t) && c.Frame? && !IsRed(t) && c.sib.Node? && !c.sib.red && IsRed(Outer(c))
    ensures DelInv(Top, Plug(c.up, DelOuter(c, t)))
    ensures InOrder(Plug(c.up, DelOuter(c, t))) == InOrder(Plug(c, t))
    ensures Ids(DelOuter(c, t)) + CIds(c.up) == Ids(t) + CIds(c)
  {
    var g := DelOuter(c, t);
    DelOuterShape(c, t);
    DelOuterOrder(c, t);
    DelOuterIds(c, t);
    assert NoRRCtx(c.up, c.red) && BalancedCtx(c.up, Bh(g));
    PlugBalanced(c.up, g);
    PlugNoRR(c.up, g);
    PlugReplace(c.up, UpTree(c, t), g);
  }

  /** `temp` stands at the zipper's position and knows its parent, even when it is the sentinel. */
  ghost predicate TempAt(m: Mem, temp: Ref, c: Ctx, t: Tree) {
    temp == RootId(t) && (c.Frame? ==> temp in m && m[temp].parent == c.id)
  }

  /** The sentinel's parent field survives whatever the fix-up does to the tree's own cells. */
  lemma TempStays(m: Mem, m': Mem, root: Ref, root': Ref, rp: Ref, c: Ctx, t: Tree, c': Ctx, temp: Ref)
    requires HoldsIn(m, root, rp, c, t) && TempAt(m, temp, c, t) && Within(m, m', c, t)
    requires HoldsIn(m', root', rp, c', t) && c.Frame? && c'.Frame? && c'.id == c.id
    ensures TempAt(m', temp, c', t)
  {
    NilOutside(c, t);
  }

  /** Moving the zipper to the sibling. */
  lemma ZipSib(m: Mem, root: Ref, rp: Ref, c: Ctx, t: Tree)
    requires HoldsIn(m, root, rp, c, t) && c.Frame?
    ensures HoldsIn(m, root, rp, SibCtx(c, t), c.sib)
    ensures Ids(c.sib) + CIds(SibCtx(c, t)) == Ids(t) + CIds(c)
  {
  }

  lemma FixIds(c: Ctx, t: Tree, s: Tree, red: bool)
    requires c.Frame? && Ids(s) == Ids(c.sib)
    ensures Ids(UpTree(c.(sib := s), t)) + CIds(c.up) == Ids(t) + CIds(c)
    ensures Ids(Paint(UpTree(c.(sib := s), t), red)) + CIds(c.up) == Ids(t) + CIds(c)
  {
  }

  lemma SibIds(c: Ctx, t: Tree, w1: Tree, w2: Tree)
    requires c.Frame? && c.sib.Node? && Near(c).Node?
    requires w1 == (if c.isLeft then c.sib.(l := Paint(c.sib.l, false)) else c.sib.(r := Paint(c.sib.r, false)))
    requires w2 == Paint(w1, true)
    ensures Ids(w1) + CIds(SibCtx(c, t)) == Ids(t) + CIds(c)
    ensures Ids(w2) + CIds(SibCtx(c, t)) == Ids(t) + CIds(c)
  {
    hide Ids, CIds, Paint;
    PaintSame(Near(c), false);
    PaintSame(w1, true);
    IdsOf(w1);
    IdsOf(c.sib);
    FrameOrder(c);
    FrameOrder(SibCtx(c, t));
    UnionSwap(Ids(c.sib), {c.id}, Ids(t), CIds(c.up));
  }

  /** The zipper at the sibling's outer child, the sibling already in the parent's colour and the
      parent black. */
  function OuterCtx(c: Ctx, t: Tree): Ctx
    requires c.Frame? && c.sib.Node?
  {
    Frame(!c.isLeft, c.sib.id, c.red, Near(c), Frame(!c.isLeft, c.id, false, t, c.up))
  }

  lemma OuterShapes(c: Ctx, t: Tree, red: bool)
    requires c.Frame? && c.sib.Node?
    ensures var oc := OuterCtx(c, t);
      Ids(UpTree(oc.up, UpTree(oc, Outer(c)))) == Ids(UpTree(c, t))
      && Ids(UpTree(oc.up, UpTree(oc, Paint(Outer(c), red)))) == Ids(UpTree(c, t))
  {
    var oc, o := OuterCtx(c, t), Outer(c);
    PaintSame(o, red);
    assert Ids(UpTree(oc, o)) == Ids(c.sib);
    assert Ids(UpTree(oc, Paint(o, red))) == Ids(c.sib);
  }

  lemma OuterIds(c: Ctx, t: Tree)
    requires c.Frame? && c.sib.Node?
    ensures Ids(Outer(c)) + CIds(OuterCtx(c, t)) == Ids(t) + CIds(c)
  {
    hide Ids, CIds, UpTree, Outer, Near;
    var oc := OuterCtx(c, t);
    OuterShapes(c, t, false);
    UpIds(c, t);
    UpIds(oc, Outer(c));
    UpIds(oc.up, UpTree(oc, Outer(c)));
  }

  lemma OuterTurnedIds(c: Ctx, t: Tree)
    requires c.Frame? && c.sib.Node?
    ensures var oc := OuterCtx(c, t);
      Ids(UpTree(oc.up, UpTree(oc, Paint(Outer(c), false)))) + CIds(c.up) == Ids(t) + CIds(c)
  {
    hide Ids, CIds, UpTree, Outer, Near;
    OuterShapes(c, t, false);
    UpIds(c, t);
  }

  lemma UpIds(c: Ctx, t: Tree)
    requires c.Frame?
    ensures Ids(UpTree(c, t)) + CIds(c.up) == Ids(t) + CIds(c)
  {
  }

  /** What the loop reads around `temp`. */
  lemma DelNeighbours(m: Mem, root: Ref, rp: Ref, c: Ctx, t: Tree, temp: Ref)
    requires HoldsIn(m, root, rp, c, t) && TempAt(m, temp, c, t) && c.Frame? && c.sib.Node?
    ensures temp in m && m[temp].red == IsRed(t) && c.id in m
    ensures (temp == m[c.id].left <==> c.isLeft) && c.sib.id in m && m[c.sib.id].red == c.sib.red
    ensures c.sib.id == if c.isLeft then m[c.id].right else m[c.id].left
    ensures m[c.sib.id].left == RootId(c.sib.l) && m[c.sib.id].right == RootId(c.sib.r)
    ensures RootId(c.sib.l) in m && m[RootId(c.sib.l)].red == IsRed(c.sib.l)
    ensures RootId(c.sib.r) in m && m[RootId(c.sib.r)].red == IsRed(c.sib.r)
    ensures m[c.id].red == c.red
  {
    assert Rep(m, c.sib, c.id) && Sep(c.sib);
    assert Rep(m, c.sib.l, c.sib.id) && Rep(m, c.sib.r, c.sib.id);
    assert c.sib.id in Ids(c.sib) && c.sib.id in CIds(c);
    NilNotIn(t);
    NilNotIn(c.sib);
  }

  lemma RootMeansTop(m: Mem, root: Ref, rp: Ref, c: Ctx, t: Tree)
    requires HoldsIn(m, root, rp, c, t)
    ensures c.Top? ==> RootId(t) == root
    ensures c.Frame? ==> RootId(t) != root
  {
    if c.Frame? {
      RootOfIn(c.up, c.id);
      NilOutside(c, t);
      assert c.id in CIds(c);
      if t.Node? {
        assert t.id in Ids(t);
      }
    }
  }

  lemma RedSibHasChildren(c: Ctx, t: Tree)
    requires DelInv(c, t) && c.Frame? && IsRed(c.sib)
    ensures Near(c).Node? && DelSibRed(c).sib.Node?
    ensures Depth(DelSibRed(c).up) == Depth(c) && DelSibRed(c).red
  {
    assert Balanced(c.sib) && Bh(c.sib.l) == Bh(c.sib.r) == Bh(c.sib);
  }

  lemma TempInMem(m: Mem, root: Ref, rp: Ref, c: Ctx, t: Tree, temp: Ref)
    requires HoldsIn(m, root, rp, c, t) && temp == RootId(t)
    ensures temp in m && m[temp].red == IsRed(t)
  {
  }

  lemma NodeNotNil(m: Mem, root: Ref, rp: Ref, c: Ctx, t: Tree, temp: Ref)
    requires HoldsIn(m, root, rp, c, t) && temp == RootId(t) && temp != NIL
    ensures t.Node?
  {
  }

  lemma NilPainted(m: Mem, root: Ref, rp: Ref, c: Ctx, t: Tree)
    requires HoldsIn(m, root, rp, c, t) && RootId(t) == NIL
    ensures t == Leaf && HoldsIn(SetRed(m, NIL, false), root, rp, c, t)
  {
    assert SetRed(m, NIL, false) == m;
    NilNotIn(t);
  }

  /** When the loop stops, blackening `t` completes the tree. */
  lemma DelFinish(c: Ctx, t: Tree)
    requires DelInv(c, t) && (c.Frame? ==> IsRed(t))
    ensures RedBlack(Plug(c, Paint(t, false)))
    ensures InOrder(Plug(c, Paint(t, false))) == InOrder(Plug(c, t))
  {
    var t' := Paint(t, false);
    PaintSame(t, false);
    PlugReplace(c, t, t');
    PlugBalanced(c, t');
    PlugNoRR(c, t');
    PlugRootBlack(c, t');
  }
}
