/** Zippers held by memory, the rotations and the insert fix-up of src/base_struct/yf_rbtree.c as
    steps on them. */
module RbZipper {
  import opened RbShape

  function SetLeft(m: Mem, x: Ref, v: Ref): Mem requires x in m { m[x := m[x].(left := v)] }
  function SetRight(m: Mem, x: Ref, v: Ref): Mem requires x in m { m[x := m[x].(right := v)] }
  function SetParent(m: Mem, x: Ref, v: Ref): Mem requires x in m { m[x := m[x].(parent := v)] }
  function SetRed(m: Mem, x: Ref, v: bool): Mem requires x in m { m[x := m[x].(red := v)] }

  /** The shape after a left rotation at its root. */
  function RotLeft(t: Tree): Tree
    requires t.Node? && t.r.Node?
  {
    Node(Node(t.l, t.id, t.red, t.r.l), t.r.id, t.r.red, t.r.r)
  }

  function RotRight(t: Tree): Tree
    requires t.Node? && t.l.Node?
  {
    Node(t.l.l, t.l.id, t.l.red, Node(t.l.r, t.id, t.red, t.r))
  }

  /** Only cells of the shape at hand changed. */
  ghost predicate Within(m: Mem, m': Mem, c: Ctx, t: Tree) {
    && m'.Keys == m.Keys
    && forall i {:trigger m'[i]} :: i in m && i !in Ids(t) && i !in CIds(c) ==> m'[i] == m[i]
  }

  /** A zipper held by memory: links, separation, root pointer and a black sentinel. */
  ghost predicate HoldsIn(m: Mem, root: Ref, rp: Ref, c: Ctx, t: Tree) {
    && NIL in m && !m[NIL].red
    && root == RootOf(c, RootId(t)) && SepAt(c, t)
    && RepCtx(m, c, RootId(t), rp) && Rep(m, t, ParentOf(c, rp))
  }

  /** The context's top cell got a new child in the hole. */
  lemma RepRehole(m: Mem, m': Mem, c: Ctx, h: Ref, h': Ref, rp: Ref)
    requires RepCtx(m, c, h, rp) && SepCtx(c)
    requires c.Frame? ==>
      && c.id in m' && m'[c.id] == (if c.isLeft then m[c.id].(left := h') else m[c.id].(right := h'))
      && Same(m, m', CIds(c) - {c.id})
    ensures RepCtx(m', c, h', rp)
  {
    if c.Frame? {
      RepFrame(m, m', c.sib, c.id);
      RepCtxFrame(m, m', c.up, c.id, rp);
    }
  }

  lemma RootOfIsHole(c: Ctx, h: Ref)
    requires h !in CIds(c)
    ensures RootOf(c, h) == h <==> c.Top?
  {
    if c.Frame? {
      RootOfIn(c.up, c.id);
    }
  }

  lemma {:induction false} RootOfIn(c: Ctx, h: Ref)
    ensures RootOf(c, h) == h || RootOf(c, h) in CIds(c)
  {
    if c.Frame? {
      RootOfIn(c.up, c.id);
    }
  }

  lemma RootOfFrame(c: Ctx, h: Ref, h': Ref)
    requires c.Frame?
    ensures RootOf(c, h) == RootOf(c, h')
  {
  }

  /** The cells a rotation touches: the pair itself, the subtree changing sides, the parent. */
  ghost function Touched(c: Ctx, a: Ref, b: Ref, mid: Tree): set<Ref> {
    {a, b} + (if mid.Node? then {mid.id} else {}) + (if c.Frame? then {c.id} else {})
  }

  ghost predicate Reholed(m: Mem, m': Mem, c: Ctx, h: Ref, root: Ref, root': Ref) {
    && (c.Top? ==> root' == h)
    && (c.Frame? ==> root' == root && c.id in m && c.id in m')
    && (c.Frame? ==> m'[c.id] == if c.isLeft then m[c.id].(left := h) else m[c.id].(right := h))
  }

  lemma RotLeftSep(t: Tree)
    requires Sep(t) && t.Node? && t.r.Node?
    ensures Sep(RotLeft(t)) && Ids(RotLeft(t)) == Ids(t)
  {
    var t' := RotLeft(t);
    assert Sep(t.r);
    assert Ids(t.r) == Ids(t.r.l) + {t.r.id} + Ids(t.r.r);
    assert Ids(t'.l) == Ids(t.l) + {t.id} + Ids(t.r.l);
    assert Sep(t'.l);
  }

  lemma RotRightSep(t: Tree)
    requires Sep(t) && t.Node? && t.l.Node?
    ensures Sep(RotRight(t)) && Ids(RotRight(t)) == Ids(t)
  {
    var t' := RotRight(t);
    assert Sep(t.l);
    assert Ids(t.l) == Ids(t.l.l) + {t.l.id} + Ids(t.l.r);
    assert Ids(t'.r) == Ids(t.l.r) + {t.id} + Ids(t.r);
    assert Sep(t'.r);
  }

  /** The cells a left rotation works on: what they hold, and that they are all different. */
  lemma RotLeftCells(m: Mem, root: Ref, rp: Ref, c: Ctx, t: Tree)
    requires HoldsIn(m, root, rp, c, t) && t.Node? && t.r.Node?
    ensures var x, y, mid := t.id, t.r.id, t.r.l;
      && x in m && y in m && x != y && x > 0 && y > 0
      && m[x] == Cell(RootId(t.l), y, ParentOf(c, rp), t.red)
      && m[y] == Cell(RootId(mid), RootId(t.r.r), x, t.r.red)
      && (mid.Node? ==> mid.id in m && mid.id > 0 && mid.id != x && mid.id != y && m[mid.id].parent == y)
      && (root == x <==> c.Top?)
      && (c.Frame? ==> c.id in m && c.id != x && c.id != y && RootId(mid) != c.id)
      && (c.Frame? ==> (m[c.id].left == x <==> c.isLeft) && (m[c.id].right == x <==> !c.isLeft))
  {
    var mid := t.r.l;
    assert Rep(m, t.r, t.id) && Rep(m, mid, t.r.id) && Sep(t.r) && Sep(mid);
    assert mid.Node? ==> mid.id in Ids(mid) && mid.id in Ids(t.r);
    RootOfIsHole(c, t.id);
    if c.Frame? {
      assert Sep(c.sib) && c.id > 0;
      assert c.sib.Node? ==> c.sib.id in Ids(c.sib);
    }
  }

  lemma RotRightCells(m: Mem, root: Ref, rp: Ref, c: Ctx, t: Tree)
    requires HoldsIn(m, root, rp, c, t) && t.Node? && t.l.Node?
    ensures var x, y, mid := t.id, t.l.id, t.l.r;
      && x in m && y in m && x != y && x > 0 && y > 0
      && m[x] == Cell(y, RootId(t.r), ParentOf(c, rp), t.red)
      && m[y] == Cell(RootId(t.l.l), RootId(mid), x, t.l.red)
      && (mid.Node? ==> mid.id in m && mid.id > 0 && mid.id != x && mid.id != y && m[mid.id].parent == y)
      && (root == x <==> c.Top?)
      && (c.Frame? ==> c.id in m && c.id != x && c.id != y && RootId(mid) != c.id)
      && (c.Frame? ==> (m[c.id].left == x <==> c.isLeft) && (m[c.id].right == x <==> !c.isLeft))
  {
    var mid := t.l.r;
    assert Rep(m, t.l, t.id) && Rep(m, mid, t.l.id) && Sep(t.l) && Sep(mid);
    assert mid.Node? ==> mid.id in Ids(mid) && mid.id in Ids(t.l);
    RootOfIsHole(c, t.id);
    if c.Frame? {
      assert Sep(c.sib) && c.id > 0;
      assert c.sib.Node? ==> c.sib.id in Ids(c.sib);
    }
  }

  lemma OwnId(c: Ctx)
    ensures c.Frame? ==> c.id in CIds(c)
  {
  }

  /** Outside the cells a rotation touches, memory is the same. */
  lemma TouchedSame(m: Mem, m': Mem, c: Ctx, t: Tree, a: Ref, b: Ref, mid: Tree)
    requires SepAt(c, t) && a in Ids(t) && b in Ids(t) && (mid.Node? ==> mid.id in Ids(t)) && m'.Keys == m.Keys
    requires forall i {:trigger m'[i]} :: i in m && i !in Touched(c, a, b, mid) ==> m'[i] == m[i]
    ensures Same(m, m', Ids(t) - {a, b, RootId(mid)})
    ensures c.Frame? ==> Same(m, m', CIds(c) - {c.id})
    ensures Within(m, m', c, t)
  {
    hide Ids, CIds, Sep, SepCtx;
    OwnId(c);
  }

  lemma SameLess(m: Mem, m': Mem, s: set<Ref>, s': set<Ref>)
    requires Same(m, m', s) && s' <= s
    ensures Same(m, m', s')
  {
  }

  lemma PairSets(whole: set<Ref>, far: set<Ref>, a: Ref, x: set<Ref>, mid: set<Ref>, b: Ref, out: set<Ref>, k: Ref)
    requires whole == far + {a} + x && x == mid + {b} + out
    requires a !in far && a !in x && far !! x
    requires b !in mid && b !in out && mid !! out && k !in far && k !in out
    ensures far <= whole - {a, b, k}
    ensures out <= whole - {a, b, k}
    ensures mid - {k} <= whole - {a, b, k}
    ensures b in whole && (k in mid ==> k in whole)
  {
    assert far !! {b} && far !! mid && far !! out;
  }

  lemma RootIn(t: Tree)
    requires Sep(t)
    ensures NIL !in Ids(t) && (t.Node? ==> t.id in Ids(t) && t.id > 0)
  {
    NilNotIn(t);
  }

  lemma RotLeftRep(m: Mem, m': Mem, t: Tree, p: Ref)
    requires Rep(m, t, p) && Sep(t) && t.Node? && t.r.Node? && m'.Keys == m.Keys
    requires t.id in m && t.r.id in m
    requires m'[t.id] == Cell(RootId(t.l), RootId(t.r.l), t.r.id, t.red)
    requires m'[t.r.id] == Cell(t.id, RootId(t.r.r), p, t.r.red)
    requires t.r.l.Node? ==> t.r.l.id in m && m'[t.r.l.id] == m[t.r.l.id].(parent := t.id)
    requires Same(m, m', Ids(t) - {t.id, t.r.id, RootId(t.r.l)})
    ensures Rep(m', RotLeft(t), p)
  {
    hide Ids, Sep;
    var s := Ids(t) - {t.id, t.r.id, RootId(t.r.l)};
    RootIn(t);
    SepParts(t);
    SepParts(t.r);
    RootIn(t.r.l);
    PairSets(Ids(t), Ids(t.l), t.id, Ids(t.r), Ids(t.r.l), t.r.id, Ids(t.r.r), RootId(t.r.l));
    SameLess(m, m', s, Ids(t.l));
    SameLess(m, m', s, Ids(t.r.r));
    RepFrame(m, m', t.l, t.id);
    RepFrame(m, m', t.r.r, t.r.id);
    if t.r.l.Node? {
      SameLess(m, m', s, Ids(t.r.l) - {t.r.l.id});
      RepReparent(m, m', t.r.l, t.r.id, t.id);
    }
    assert Rep(m', RotLeft(t).l, t.r.id);
  }

  lemma RotRightRep(m: Mem, m': Mem, t: Tree, p: Ref)
    requires Rep(m, t, p) && Sep(t) && t.Node? && t.l.Node? && m'.Keys == m.Keys
    requires t.id in m && t.l.id in m
    requires m'[t.id] == Cell(RootId(t.l.r), RootId(t.r), t.l.id, t.red)
    requires m'[t.l.id] == Cell(RootId(t.l.l), t.id, p, t.l.red)
    requires t.l.r.Node? ==> t.l.r.id in m && m'[t.l.r.id] == m[t.l.r.id].(parent := t.id)
    requires Same(m, m', Ids(t) - {t.id, t.l.id, RootId(t.l.r)})
    ensures Rep(m', RotRight(t), p)
  {
    hide Ids, Sep;
    var s := Ids(t) - {t.id, t.l.id, RootId(t.l.r)};
    RootIn(t);
    SepParts(t);
    SepParts(t.l);
    RootIn(t.l.r);
    PairSets(Ids(t), Ids(t.r), t.id, Ids(t.l), Ids(t.l.r), t.l.id, Ids(t.l.l), RootId(t.l.r));
    SameLess(m, m', s, Ids(t.r));
    SameLess(m, m', s, Ids(t.l.l));
    RepFrame(m, m', t.r, t.id);
    RepFrame(m, m', t.l.l, t.l.id);
    if t.l.r.Node? {
      SameLess(m, m', s, Ids(t.l.r) - {t.l.r.id});
      RepReparent(m, m', t.l.r, t.l.id, t.id);
    }
    assert Rep(m', RotRight(t).r, t.l.id);
  }

  /** A subtree of the same nodes in the same hole, with a new root. */
  lemma ReplacedHeld(m: Mem, m': Mem, root: Ref, root': Ref, rp: Ref, c: Ctx, t: Tree, t': Tree)
    requires HoldsIn(m, root, rp, c, t) && m'.Keys == m.Keys && Reholed(m, m', c, RootId(t'), root, root')
    requires Rep(m', t', ParentOf(c, rp)) && Sep(t') && Ids(t') == Ids(t)
    requires Within(m, m', c, t) && (c.Frame? ==> Same(m, m', CIds(c) - {c.id}))
    ensures HoldsIn(m', root', rp, c, t')
  {
    hide Ids, CIds, Rep, RepCtx, Sep, SepCtx;
    NilOutside(c, t);
    RepRehole(m, m', c, RootId(t), RootId(t'), rp);
    if c.Frame? {
      RootOfFrame(c, RootId(t), RootId(t'));
    }
  }

  lemma RotLeftHeld(m: Mem, m': Mem, root: Ref, root': Ref, rp: Ref, c: Ctx, t: Tree)
    requires HoldsIn(m, root, rp, c, t) && t.Node? && t.r.Node? && m'.Keys == m.Keys
    requires t.id in m && m'[t.id] == Cell(RootId(t.l), RootId(t.r.l), t.r.id, t.red)
    requires t.r.id in m && m'[t.r.id] == Cell(t.id, RootId(t.r.r), ParentOf(c, rp), t.r.red)
    requires t.r.l.Node? ==> t.r.l.id in m && m'[t.r.l.id] == m[t.r.l.id].(parent := t.id)
    requires Reholed(m, m', c, t.r.id, root, root')
    requires forall i {:trigger m'[i]} :: i in m && i !in Touched(c, t.id, t.r.id, t.r.l) ==> m'[i] == m[i]
    ensures HoldsIn(m', root', rp, c, RotLeft(t)) && Within(m, m', c, t)
  {
    hide Ids, CIds, Rep, RepCtx, Sep, SepCtx, Touched, Within, Same, Reholed;
    HeldParts(m, root, rp, c, t);
    SepParts(t);
    SepParts(t.r);
    RootIn(t.r.l);
    TouchedSame(m, m', c, t, t.id, t.r.id, t.r.l);
    RotLeftRep(m, m', t, ParentOf(c, rp));
    RotLeftSep(t);
    ReplacedHeld(m, m', root, root', rp, c, t, RotLeft(t));
  }

  lemma RotRightHeld(m: Mem, m': Mem, root: Ref, root': Ref, rp: Ref, c: Ctx, t: Tree)
    requires HoldsIn(m, root, rp, c, t) && t.Node? && t.l.Node? && m'.Keys == m.Keys
    requires t.id in m && m'[t.id] == Cell(RootId(t.l.r), RootId(t.r), t.l.id, t.red)
    requires t.l.id in m && m'[t.l.id] == Cell(RootId(t.l.l), t.id, ParentOf(c, rp), t.l.red)
    requires t.l.r.Node? ==> t.l.r.id in m && m'[t.l.r.id] == m[t.l.r.id].(parent := t.id)
    requires Reholed(m, m', c, t.l.id, root, root')
    requires forall i {:trigger m'[i]} :: i in m && i !in Touched(c, t.id, t.l.id, t.l.r) ==> m'[i] == m[i]
    ensures HoldsIn(m', root', rp, c, RotRight(t)) && Within(m, m', c, t)
  {
    hide Ids, CIds, Rep, RepCtx, Sep, SepCtx, Touched, Within, Same, Reholed;
    HeldParts(m, root, rp, c, t);
    SepParts(t);
    SepParts(t.l);
    RootIn(t.l.r);
    TouchedSame(m, m', c, t, t.id, t.l.id, t.l.r);
    RotRightRep(m, m', t, ParentOf(c, rp));
    RotRightSep(t);
    ReplacedHeld(m, m', root, root', rp, c, t, RotRight(t));
  }

  /** What a rotation's writes need of the cells they touch: `node`, its child `temp` on the one side,
      that one's child `mid`, and the parent. */
  ghost predicate CanTurn(m: Mem, root: Ref, node: Ref, temp: Ref, mid: Ref) {
    && node in m && temp in m && mid in m && node != NIL && temp != NIL && node != temp && mid != node && mid != temp
    && (node != root ==> var p := m[node].parent; p in m && p != node && p != temp && p != mid)
  }

  /** What they come to, cell by cell, but for `node` and `temp`. */
  ghost predicate Turned(m: Mem, root: Ref, m': Mem, root': Ref, node: Ref, temp: Ref, mid: Ref)
    requires node in m
  {
    var p := m[node].parent;
    && m'.Keys == m.Keys && root' == (if node == root then temp else root)
    && (mid != NIL && mid in m ==> m'[mid] == m[mid].(parent := node))
    && (node != root && p in m ==> m'[p] == if m[p].left == node then m[p].(left := temp) else m[p].(right := temp))
    && forall i {:trigger m'[i]} ::
         i in m && i != node && i != temp && (i != mid || mid == NIL) && (i != p || node == root) ==>
         m'[i] == m[i]
  }

  lemma TurnLeftCells(m: Mem, root: Ref, m': Mem, node: Ref)
    requires node in m && m[node].right in m && CanTurn(m, root, node, m[node].right, m[m[node].right].left)
    requires var temp, p := m[node].right, m[node].parent;
      var mid := m[temp].left;
      var m0 := m[node := m[node].(right := mid)];
      var m1 := if mid == NIL then m0 else m0[mid := m0[mid].(parent := node)];
      var m2 := m1[temp := m1[temp].(parent := p)];
      var m3 := if node == root then m2
                else m2[p := if node == m2[p].left then m2[p].(left := temp) else m2[p].(right := temp)];
      m' == m3[temp := m3[temp].(left := node)][node := m3[node].(parent := temp)]
    ensures var x := m[node]; var y := m[x.right];
      && Turned(m, root, m', if node == root then x.right else root, node, x.right, y.left)
      && m'[node] == x.(right := y.left, parent := x.right) && m'[x.right] == y.(left := node, parent := x.parent)
  {
  }

  lemma TurnRightCells(m: Mem, root: Ref, m': Mem, node: Ref)
    requires node in m && m[node].left in m && CanTurn(m, root, node, m[node].left, m[m[node].left].right)
    requires node != root ==> (m[m[node].parent].left == node <==> m[m[node].parent].right != node)
    requires var temp, p := m[node].left, m[node].parent;
      var mid := m[temp].right;
      var m0 := m[node := m[node].(left := mid)];
      var m1 := if mid == NIL then m0 else m0[mid := m0[mid].(parent := node)];
      var m2 := m1[temp := m1[temp].(parent := p)];
      var m3 := if node == root then m2
                else m2[p := if node == m2[p].right then m2[p].(right := temp) else m2[p].(left := temp)];
      m' == m3[temp := m3[temp].(right := node)][node := m3[node].(parent := temp)]
    ensures var x := m[node]; var y := m[x.left];
      && Turned(m, root, m', if node == root then x.left else root, node, x.left, y.right)
      && m'[node] == x.(left := y.right, parent := x.left) && m'[x.left] == y.(right := node, parent := x.parent)
  {
  }

  lemma HeldParts(m: Mem, root: Ref, rp: Ref, c: Ctx, t: Tree)
    requires HoldsIn(m, root, rp, c, t)
    ensures SepAt(c, t) && Sep(t) && Rep(m, t, ParentOf(c, rp)) && NIL in m && !m[NIL].red
  {
  }

  lemma SepParts(t: Tree)
    requires Sep(t) && t.Node?
    ensures Ids(t) == Ids(t.l) + {t.id} + Ids(t.r) && t.id in Ids(t)
    ensures t.id !in Ids(t.l) && t.id !in Ids(t.r) && Ids(t.l) !! Ids(t.r) && Sep(t.l) && Sep(t.r)
  {
  }

  // ----- moving the zipper -----

  function UpTree(c: Ctx, t: Tree): Tree
    requires c.Frame?
  {
    if c.isLeft then Node(t, c.id, c.red, c.sib) else Node(c.sib, c.id, c.red, t)
  }

  function LeftCtx(c: Ctx, t: Tree): Ctx requires t.Node? { Frame(true, t.id, t.red, t.r, c) }
  function RightCtx(c: Ctx, t: Tree): Ctx requires t.Node? { Frame(false, t.id, t.red, t.l, c) }

  lemma ZipUp(m: Mem, root: Ref, rp: Ref, c: Ctx, t: Tree)
    requires HoldsIn(m, root, rp, c, t) && c.Frame?
    ensures HoldsIn(m, root, rp, c.up, UpTree(c, t))
    ensures Ids(UpTree(c, t)) + CIds(c.up) == Ids(t) + CIds(c)
  {
  }

  lemma ZipLeft(m: Mem, root: Ref, rp: Ref, c: Ctx, t: Tree)
    requires HoldsIn(m, root, rp, c, t) && t.Node?
    ensures HoldsIn(m, root, rp, LeftCtx(c, t), t.l)
    ensures Ids(t.l) + CIds(LeftCtx(c, t)) == Ids(t) + CIds(c)
  {
  }

  lemma ZipRight(m: Mem, root: Ref, rp: Ref, c: Ctx, t: Tree)
    requires HoldsIn(m, root, rp, c, t) && t.Node?
    ensures HoldsIn(m, root, rp, RightCtx(c, t), t.r)
    ensures Ids(t.r) + CIds(RightCtx(c, t)) == Ids(t) + CIds(c)
  {
  }

  lemma ZipAll(m: Mem, root: Ref, rp: Ref, c: Ctx, t: Tree)
    ensures HoldsIn(m, root, rp, c, t) <==> HoldsIn(m, root, rp, Top, Plug(c, t))
    ensures Ids(Plug(c, t)) == Ids(t) + CIds(c)
  {
    RepPlug(m, c, t, rp);
    PlugIds(c, t);
  }

  function Paint(t: Tree, red: bool): Tree {
    if t.Leaf? then t else t.(red := red)
  }

  lemma PaintHeld(m: Mem, root: Ref, rp: Ref, c: Ctx, t: Tree, red: bool)
    requires HoldsIn(m, root, rp, c, t) && t.Node? && t.id in m
    ensures HoldsIn(SetRed(m, t.id, red), root, rp, c, Paint(t, red))
    ensures Within(m, SetRed(m, t.id, red), c, t)
  {
    var m' := SetRed(m, t.id, red);
    RepFrame(m, m', t.l, t.id);
    RepFrame(m, m', t.r, t.id);
    RepCtxFrame(m, m', c, t.id, rp);
  }

  /** What the node at a position can read of its surroundings. */
  lemma Neighbours(m: Mem, root: Ref, rp: Ref, c: Ctx, t: Tree)
    requires HoldsIn(m, root, rp, c, t) && t.Node?
    ensures t.id in m && m[t.id] == Cell(RootId(t.l), RootId(t.r), ParentOf(c, rp), t.red)
    ensures t.id == root <==> c.Top?
    ensures c.Frame? ==> c.id in m && c.id != NIL && m[c.id].red == c.red
    ensures c.Frame? ==> (t.id == m[c.id].left <==> c.isLeft) && (t.id == m[c.id].right <==> !c.isLeft)
    ensures c.Frame? ==> RootId(c.sib) in m && m[RootId(c.sib)].red == IsRed(c.sib)
    ensures c.Frame? ==> RootId(c.sib) == if c.isLeft then m[c.id].right else m[c.id].left
  {
    RootOfIsHole(c, t.id);
    if c.Frame? {
      assert Rep(m, c.sib, c.id) && Sep(c.sib);
      assert c.sib.Node? ==> c.sib.id in Ids(c.sib);
      assert t.id in Ids(t);
    }
  }

  lemma {:induction false} NilOutside(c: Ctx, t: Tree)
    requires SepAt(c, t)
    ensures NIL !in Ids(t) && NIL !in CIds(c)
  {
    NilNotIn(t);
    if c.Frame? {
      NilNotIn(c.sib);
      NilOutside(c.up, Leaf);
    }
  }

  lemma {:induction false} NilNotIn(t: Tree)
    requires Sep(t)
    ensures NIL !in Ids(t)
  {
    if t.Node? {
      NilNotIn(t.l);
      NilNotIn(t.r);
    }
  }

  /** Replacing the subtree in the hole by one of equal in-order sequence. */
  lemma PlugReplace(c: Ctx, t: Tree, t': Tree)
    requires InOrder(t) == InOrder(t')
    ensures InOrder(Plug(c, t)) == InOrder(Plug(c, t'))
  {
    PlugOrder(c, t);
    PlugOrder(c, t');
  }

  // ----- insertion -----

  /** The loop invariant of the insert fix-up: all is well but for a red `t` below a possibly
      red parent. */
  ghost predicate InsInv(c: Ctx, t: Tree) {
    && t.Node? && t.red && Balanced(t) && NoRR(t)
    && BalancedCtx(c, Bh(t)) && NoRRCtx(c, false) && TopBlack(c)
  }

  /** Red uncle: colour flip at the grandparent. */
  function InsFlip(c: Ctx, t: Tree): Tree
    requires c.Frame? && c.up.Frame?
  {
    var p := Paint(UpTree(c, t), false);
    if c.up.isLeft then Node(p, c.up.id, true, Paint(c.up.sib, false))
    else Node(Paint(c.up.sib, false), c.up.id, true, p)
  }

  lemma InsFlipOk(c: Ctx, t: Tree)
    requires InsInv(c, t) && c.Frame? && c.red && c.up.Frame? && IsRed(c.up.sib)
    ensures InsInv(c.up.up, InsFlip(c, t))
    ensures InOrder(InsFlip(c, t)) == InOrder(UpTree(c.up, UpTree(c, t)))
  {
    InsUp(c, t);
    var p, u := UpTree(c, t), c.up.sib;
    assert InOrder(Paint(p, false)) == InOrder(p) && InOrder(Paint(u, false)) == InOrder(u);
    assert Balanced(Paint(p, false)) && NoRR(Paint(p, false));
    assert Balanced(Paint(u, false)) && NoRR(Paint(u, false));
    assert BalancedCtx(c.up.up, Bh(p) + 1) && NoRRCtx(c.up.up, false);
  }

  /** What the invariant says one level up, below a red parent. */
  lemma InsUp(c: Ctx, t: Tree)
    requires InsInv(c, t) && c.Frame? && c.red && c.up.Frame?
    ensures Balanced(UpTree(c, t)) && BalancedCtx(c.up, Bh(t)) && Bh(UpTree(c, t)) == Bh(t)
    ensures NoRR(Paint(UpTree(c, t), false)) && !IsRed(c.sib) && NoRR(c.sib)
    ensures !c.up.red && NoRR(c.up.sib) && NoRRCtx(c.up, true) && TopBlack(c.up)
  {
    assert NoRRCtx(c.up, c.red);
  }

  /** Black uncle, after the inner rotation if there was one: the outer rotation at the
      grandparent, with parent and grandparent recoloured. */
  function InsTurn(c: Ctx, t: Tree): Tree
    requires c.Frame? && c.up.Frame? && c.isLeft == c.up.isLeft
  {
    if c.isLeft then Node(t, c.id, false, Node(c.sib, c.up.id, true, c.up.sib))
    else Node(Node(c.up.sib, c.up.id, true, c.sib), c.id, false, t)
  }

  /** The zipper for the node once its parent took its place by the inner rotation. */
  function InsInnerCtx(c: Ctx, t: Tree): Ctx
    requires c.Frame? && t.Node?
  {
    if c.isLeft then Frame(false, t.id, t.red, t.l, c.up) else Frame(true, t.id, t.red, t.r, c.up)
  }

  function InsInnerTree(c: Ctx, t: Tree): Tree
    requires c.Frame? && t.Node?
  {
    if c.isLeft then Node(t.r, c.id, c.red, c.sib) else Node(c.sib, c.id, c.red, t.l)
  }

  lemma InsInnerInv(c: Ctx, t: Tree)
    requires InsInv(c, t) && c.Frame? && c.red && c.up.Frame? && c.isLeft != c.up.isLeft
    ensures t.Node? && InsInv(InsInnerCtx(c, t), InsInnerTree(c, t))
  {
    InsUp(c, t);
    var c', t' := InsInnerCtx(c, t), InsInnerTree(c, t);
    assert Balanced(t') && NoRR(t');
    assert BalancedCtx(c', Bh(t')) && NoRRCtx(c', false) && TopBlack(c');
  }

  lemma InsInnerOk(c: Ctx, t: Tree)
    requires InsInv(c, t) && c.Frame? && c.red && c.up.Frame? && c.isLeft != c.up.isLeft
    ensures InsInv(InsInnerCtx(c, t), InsInnerTree(c, t))
    ensures InOrder(UpTree(InsInnerCtx(c, t), InsInnerTree(c, t))) == InOrder(UpTree(c, t))
  {
    hide InsInv, InOrder;
    InsInnerInv(c, t);
    OrderOf(t);
    OrderOf(UpTree(c, t));
    OrderOf(InsInnerTree(c, t));
    OrderOf(UpTree(InsInnerCtx(c, t), InsInnerTree(c, t)));
    if c.isLeft {
      assert InOrder(t.l) + [t.id] + (InOrder(t.r) + [c.id] + InOrder(c.sib))
          == (InOrder(t.l) + [t.id] + InOrder(t.r)) + [c.id] + InOrder(c.sib);
    } else {
      assert (InOrder(c.sib) + [c.id] + InOrder(t.l)) + [t.id] + InOrder(t.r)
          == InOrder(c.sib) + [c.id] + (InOrder(t.l) + [t.id] + InOrder(t.r));
    }
  }

  lemma InsTurnShape(c: Ctx, t: Tree)
    requires InsInv(c, t) && c.Frame? && c.red && c.up.Frame? && c.isLeft == c.up.isLeft && !IsRed(c.up.sib)
    ensures var u, g := c.up, InsTurn(c, t);
      Balanced(g) && NoRR(g) && !g.red && BalancedCtx(u.up, Bh(g)) && NoRRCtx(u.up, false) && TopBlack(u.up)
  {
    InsUp(c, t);
    var u, g := c.up, InsTurn(c, t);
    assert BalancedCtx(u.up, Bh(t) + 1) && NoRRCtx(u.up, false) && TopBlack(u.up);
    assert Balanced(u.sib) && Bh(u.sib) == Bh(t) && Balanced(c.sib) && Bh(c.sib) == Bh(t);
    if c.isLeft {
      assert Balanced(g.r) && NoRR(g.r);
    } else {
      assert Balanced(g.l) && NoRR(g.l);
    }
  }

  lemma InsTurnOk(c: Ctx, t: Tree)
    requires InsInv(c, t) && c.Frame? && c.red && c.up.Frame? && c.isLeft == c.up.isLeft && !IsRed(c.up.sib)
    ensures RedBlack(Plug(c.up.up, InsTurn(c, t)))
    ensures InOrder(InsTurn(c, t)) == InOrder(UpTree(c.up, UpTree(c, t)))
  {
    hide InsInv, InOrder, Balanced, NoRR, BalancedCtx, NoRRCtx, Bh, TopBlack;
    InsTurnShape(c, t);
    var u, g := c.up, InsTurn(c, t);
    PlugBalanced(u.up, g);
    PlugNoRR(u.up, g);
    PlugRootBlack(u.up, g);
    OrderOf(g);
    OrderOf(if c.isLeft then g.r else g.l);
    OrderOf(UpTree(c, t));
    OrderOf(UpTree(u, UpTree(c, t)));
    var a, b, d := InOrder(t), InOrder(c.sib), InOrder(u.sib);
    if c.isLeft {
      assert a + [c.id] + (b + [u.id] + d) == (a + [c.id] + b) + [u.id] + d;
    } else {
      assert (d + [u.id] + b) + [c.id] + a == d + [u.id] + (b + [c.id] + a);
    }
  }

  // ----- order -----

  ghost predicate Sorted(key: Ref -> int, s: seq<Ref>) {
    forall i, j :: 0 <= i < j < |s| ==> key(s[i]) <= key(s[j])
  }

  /** In a sorted sequence everything before an element is at most it, everything after at least. */
  lemma SortedAround(key: Ref -> int, a: seq<Ref>, x: Ref, b: seq<Ref>)
    requires Sorted(key, a + [x] + b)
    ensures forall y :: y in a ==> key(y) <= key(x)
    ensures forall y :: y in b ==> key(x) <= key(y)
  {
    var s := a + [x] + b;
    assert s[|a|] == x;
    assert forall i :: 0 <= i < |a| ==> s[i] == a[i];
    assert forall i :: 0 <= i < |b| ==> s[|a| + 1 + i] == b[i];
  }

  /** The gap for `node`: nothing before it is larger, everything after it is. */
  ghost predicate Gap(key: Ref -> int, pre: seq<Ref>, node: Ref, post: seq<Ref>) {
    && (forall y :: y in pre ==> key(y) <= key(node))
    && (forall y :: y in post ==> key(node) < key(y))
  }

  lemma GapSorted(key: Ref -> int, pre: seq<Ref>, node: Ref, post: seq<Ref>)
    requires Sorted(key, pre + post) && Gap(key, pre, node, post)
    ensures Sorted(key, pre + [node] + post)
  {
    var s, s' := pre + post, pre + [node] + post;
    forall i, j | 0 <= i < j < |s'|
      ensures key(s'[i]) <= key(s'[j])
    {
      assert i < |pre| ==> s'[i] == s[i] && s'[i] in pre;
      assert j < |pre| ==> s'[j] == s[j];
      assert i > |pre| ==> s'[i] == s[i - 1];
      assert j > |pre| ==> s'[j] == s[j - 1] && s'[j] in post;
    }
  }

  lemma OrderOf(t: Tree)
    requires t.Node?
    ensures InOrder(t) == InOrder(t.l) + [t.id] + InOrder(t.r) && InOrder(Leaf) == []
  {
  }

  lemma Flatten(a: seq<Ref>, b: seq<Ref>, c: seq<Ref>, d: seq<Ref>, e: seq<Ref>)
    ensures a + (b + c + d) + e == (a + b) + c + (d + e)
  {
  }

  /** The tree's in-order sequence, split at the node of a position. */
  lemma SplitAt(key: Ref -> int, c: Ctx, t: Tree)
    requires t.Node? && Sorted(key, InOrder(Plug(c, t)))
    ensures Sorted(key, Pre(c) + InOrder(t.l) + [t.id] + (InOrder(t.r) + Post(c)))
  {
    hide InOrder, Plug, Pre, Post, Sorted;
    PlugOrder(c, t);
    OrderOf(t);
    Flatten(Pre(c), InOrder(t.l), [t.id], InOrder(t.r), Post(c));
  }

  lemma DownOrder(c: Ctx, t: Tree)
    requires t.Node?
    ensures Pre(LeftCtx(c, t)) == Pre(c) && Post(LeftCtx(c, t)) == [t.id] + InOrder(t.r) + Post(c)
    ensures Pre(RightCtx(c, t)) == Pre(c) + InOrder(t.l) + [t.id] && Post(RightCtx(c, t)) == Post(c)
  {
  }

  /** Going down one level keeps the gap around the new position. */
  lemma GapDown(key: Ref -> int, c: Ctx, t: Tree, node: Ref)
    requires t.Node? && Sorted(key, InOrder(Plug(c, t))) && Gap(key, Pre(c), node, Post(c))
    ensures key(node) < key(t.id) ==> Gap(key, Pre(LeftCtx(c, t)), node, Post(LeftCtx(c, t)))
    ensures key(node) >= key(t.id) ==> Gap(key, Pre(RightCtx(c, t)), node, Post(RightCtx(c, t)))
  {
    hide InOrder, Plug, Pre, Post, Sorted;
    SplitAt(key, c, t);
    DownOrder(c, t);
    var a, b := Pre(c) + InOrder(t.l), InOrder(t.r) + Post(c);
    SortedAround(key, a, t.id, b);
    assert forall y :: y in InOrder(t.l) ==> y in a;
    assert forall y :: y in InOrder(t.r) ==> y in b;
  }

  /** In unique mode going right leaves only smaller keys behind. */
  lemma StrictDown(key: Ref -> int, c: Ctx, t: Tree, node: Ref)
    requires t.Node? && Sorted(key, InOrder(Plug(c, t))) && key(node) > key(t.id)
    ensures forall y :: y in Pre(RightCtx(c, t)) ==> key(y) < key(node)
  {
    hide InOrder, Plug, Pre, Post, Sorted;
    SplitAt(key, c, t);
    DownOrder(c, t);
    SortedAround(key, Pre(c) + InOrder(t.l), t.id, InOrder(t.r) + Post(c));
  }

  lemma GapTop(key: Ref -> int, node: Ref)
    ensures Gap(key, Pre(Top), node, Post(Top)) && Pre(Top) == []
  {
  }

  lemma PreLeft(c: Ctx, t: Tree)
    requires t.Node?
    ensures Pre(LeftCtx(c, t)) == Pre(c)
  {
  }

  lemma PlugHas(c: Ctx, t: Tree)
    requires t.Node?
    ensures t.id in Ids(Plug(c, t))
  {
    PlugIds(c, t);
  }

  lemma ChildNil(t: Tree)
    requires Sep(t)
    ensures RootId(t) == NIL <==> t.Leaf?
  {
  }

  lemma NoEqual(key: Ref -> int, c: Ctx, node: Ref)
    requires Gap(key, Pre(c), node, Post(c)) && forall y :: y in Pre(c) ==> key(y) < key(node)
    ensures forall y :: y in Ids(Plug(c, Leaf)) ==> key(y) != key(node)
  {
    PlugOrder(c, Leaf);
    OrderIds(Plug(c, Leaf));
  }

  lemma FirstNode(m: Mem, root: Ref, rp: Ref, key: Ref -> int, t: Tree, node: Ref)
    requires HoldsIn(m, root, rp, Top, t) && root == NIL && node > 0 && node in m
    ensures t == Leaf && InOrder(t) == [] && Ids(t) == {}
    ensures var n := Node(Leaf, node, false, Leaf);
      && HoldsIn(m[node := Cell(NIL, NIL, NULL, false)], node, NULL, Top, n)
      && RedBlack(n) && InOrder(n) == [node] && Ids(n) == {node} && Sorted(key, [node])
    ensures Gap(key, [], node, [])
  {
    ChildNil(t);
  }

  lemma EmptyGap(key: Ref -> int, node: Ref)
    ensures Gap(key, [], node, [])
  {
  }

  lemma InsertedAt(s: seq<Ref>, pre: seq<Ref>, node: Ref, post: seq<Ref>)
    requires s == pre + InOrder(Leaf) + post
    ensures s[..|pre|] == pre && s[|pre|..] == post && s == pre + post
  {
  }

  lemma InsertIds(c: Ctx, node: Ref)
    ensures Ids(Node(Leaf, node, true, Leaf)) + CIds(c) == Ids(Plug(c, Leaf)) + {node}
    ensures InOrder(Node(Leaf, node, true, Leaf)) == [node]
    ensures c.Frame? ==> c.id in CIds(c)
  {
    PlugIds(c, Leaf);
  }

  lemma AttachHeld(m: Mem, root: Ref, rp: Ref, c: Ctx, node: Ref)
    requires HoldsIn(m, root, rp, c, Leaf) && c.Frame? && node > 0 && node in m && node !in CIds(c)
    ensures c.id in m
    ensures var m1 := if c.isLeft then SetLeft(m, c.id, node) else SetRight(m, c.id, node);
      HoldsIn(m1[node := Cell(NIL, NIL, c.id, true)], root, rp, c, Node(Leaf, node, true, Leaf))
  {
    var m1 := if c.isLeft then SetLeft(m, c.id, node) else SetRight(m, c.id, node);
    var m2 := m1[node := Cell(NIL, NIL, c.id, true)];
    RepRehole(m, m2, c, NIL, node, rp);
    RootOfFrame(c, NIL, node);
  }

  /** A fresh red node in a gap of a red-black tree meets the fix-up's invariant. */
  lemma InsStart(c: Ctx, node: Ref)
    requires c.Frame? && RedBlack(Plug(c, Leaf))
    ensures InsInv(c, Node(Leaf, node, true, Leaf))
  {
    PlugBalanced(c, Leaf);
    PlugNoRR(c, Leaf);
    PlugRootBlack(c, Leaf);
  }

  /** When the loop stops, blackening the root of the whole tree completes it. */
  lemma InsFinish(c: Ctx, t: Tree, done: bool)
    requires if done then RedBlack(Plug(c, t)) else InsInv(c, t)
    requires c.Frame? ==> !c.red
    ensures RedBlack(Paint(Plug(c, t), false)) && (t.Node? ==> Plug(c, t).Node?)
  {
    PlugBalanced(c, t);
    PlugNoRR(c, t);
    PlugRootBlack(c, t);
    PlugIds(c, t);
    if t.Node? {
      assert t.id in Ids(t);
      assert Ids(Plug(c, t)) != {};
    }
  }

  lemma PaintSame(t: Tree, red: bool)
    ensures InOrder(Paint(t, red)) == InOrder(t) && Ids(Paint(t, red)) == Ids(t)
  {
  }

  lemma TopIds(t: Tree)
    ensures Ids(t) + CIds(Top) == Ids(t) && Plug(Top, t) == t
  {
  }

  lemma WithinRefl(m: Mem, c: Ctx, t: Tree)
    ensures Within(m, m, c, t)
  {
  }

  lemma FlipIds(c: Ctx, t: Tree)
    requires c.Frame? && c.up.Frame?
    ensures Ids(InsFlip(c, t)) + CIds(c.up.up) == Ids(t) + CIds(c)
  {
    PaintSame(UpTree(c, t), false);
    PaintSame(c.up.sib, false);
  }

  lemma PlugTwice(c: Ctx, t: Tree)
    requires c.Frame? && c.up.Frame?
    ensures Plug(c, t) == Plug(c.up.up, UpTree(c.up, UpTree(c, t))) && Depth(c.up.up) < Depth(c)
  {
  }

  /** Below a red parent there is a grandparent. */
  lemma RedHasParent(c: Ctx)
    requires TopBlack(c) && c.Frame? && c.red
    ensures c.up.Frame?
  {
  }

  lemma SameIds(c: Ctx, t: Tree, c': Ctx, t': Tree)
    requires c.Frame? && t.Node? && c' == InsInnerCtx(c, t) && t' == InsInnerTree(c, t)
    ensures Ids(t') + CIds(c') == Ids(t) + CIds(c)
  {
  }

  lemma TurnIds(c: Ctx, t: Tree)
    requires c.Frame? && c.up.Frame? && c.isLeft == c.up.isLeft
    ensures Ids(InsTurn(c, t)) + CIds(c.up.up) == Ids(t) + CIds(c)
  {
    var g := InsTurn(c, t);
    if c.isLeft {
      assert Ids(g) == Ids(t) + {c.id} + Ids(g.r);
    } else {
      assert Ids(g) == Ids(g.l) + {c.id} + Ids(t);
    }
  }

  lemma WithinTrans(m: Mem, m1: Mem, m2: Mem, c: Ctx, t: Tree, c1: Ctx, t1: Tree)
    requires Within(m, m1, c, t) && Within(m1, m2, c1, t1)
    requires Ids(t1) + CIds(c1) == Ids(t) + CIds(c)
    ensures Within(m, m2, c, t)
  {
    assert forall i :: i in Ids(t1) + CIds(c1) <==> i in Ids(t1) || i in CIds(c1);
    assert forall i :: i in Ids(t) + CIds(c) <==> i in Ids(t) || i in CIds(c);
  }
}
