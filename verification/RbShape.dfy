/** Shapes of red-black trees and what node memory looks like when it holds one. A position in
    a tree is a zipper: the subtree there and the context above it. */
module RbShape {

  /** Addresses of nodes; NIL is the tree's shared sentinel, NULL the null pointer. */
  type Ref = int
  const NULL: Ref := -1
  const NIL: Ref := 0

  /** struct yf_rbtree_node_s */
  datatype Cell = Cell(left: Ref, right: Ref, parent: Ref, red: bool)

  type Mem = map<Ref, Cell>

  datatype Tree = Leaf | Node(l: Tree, id: Ref, red: bool, r: Tree)

  /** The way from a position up to the root; `isLeft` says the position is the left child. */
  datatype Ctx = Top | Frame(isLeft: bool, id: Ref, red: bool, sib: Tree, up: Ctx)

  function RootId(t: Tree): Ref { if t.Leaf? then NIL else t.id }

  predicate IsRed(t: Tree) { t.Node? && t.red }

  function InOrder(t: Tree): seq<Ref> {
    if t.Leaf? then [] else InOrder(t.l) + [t.id] + InOrder(t.r)
  }

  function Ids(t: Tree): set<Ref> {
    if t.Leaf? then {} else Ids(t.l) + {t.id} + Ids(t.r)
  }

  function CIds(c: Ctx): set<Ref> {
    if c.Top? then {} else {c.id} + Ids(c.sib) + CIds(c.up)
  }

  function Plug(c: Ctx, t: Tree): Tree {
    if c.Top? then t
    else Plug(c.up, if c.isLeft then Node(t, c.id, c.red, c.sib) else Node(c.sib, c.id, c.red, t))
  }

  /** In-order sequence before and after the hole. */
  function Pre(c: Ctx): seq<Ref> {
    if c.Top? then [] else if c.isLeft then Pre(c.up) else Pre(c.up) + InOrder(c.sib) + [c.id]
  }

  function Post(c: Ctx): seq<Ref> {
    if c.Top? then [] else if c.isLeft then [c.id] + InOrder(c.sib) + Post(c.up) else Post(c.up)
  }

  function Depth(c: Ctx): nat { if c.Top? then 0 else 1 + Depth(c.up) }

  function RootOf(c: Ctx, h: Ref): Ref { if c.Top? then h else RootOf(c.up, c.id) }

  /** Parent of the position; `rp` is whatever the root's parent field holds. */
  function ParentOf(c: Ctx, rp: Ref): Ref { if c.Top? then rp else c.id }

  // ----- separation -----

  ghost predicate Sep(t: Tree) {
    t.Node? ==>
      && t.id > 0 && t.id !in Ids(t.l) && t.id !in Ids(t.r)
      && Ids(t.l) !! Ids(t.r) && Sep(t.l) && Sep(t.r)
  }

  ghost predicate SepCtx(c: Ctx) {
    c.Frame? ==>
      && c.id > 0 && c.id !in Ids(c.sib) && c.id !in CIds(c.up)
      && Ids(c.sib) !! CIds(c.up) && Sep(c.sib) && SepCtx(c.up)
  }

  ghost predicate SepAt(c: Ctx, t: Tree) {
    Sep(t) && SepCtx(c) && Ids(t) !! CIds(c)
  }

  // ----- memory -----

  /** Memory holds subtree `t` below parent `p`. */
  ghost predicate Rep(m: Mem, t: Tree, p: Ref) {
    t.Node? ==>
      && t.id in m && m[t.id] == Cell(RootId(t.l), RootId(t.r), p, t.red)
      && Rep(m, t.l, t.id) && Rep(m, t.r, t.id)
  }

  /** Memory holds the context, with `h` in its hole. */
  ghost predicate RepCtx(m: Mem, c: Ctx, h: Ref, rp: Ref) {
    c.Frame? ==>
      && c.id in m
      && m[c.id] == (if c.isLeft then Cell(h, RootId(c.sib), ParentOf(c.up, rp), c.red)
                     else Cell(RootId(c.sib), h, ParentOf(c.up, rp), c.red))
      && Rep(m, c.sib, c.id) && RepCtx(m, c.up, c.id, rp)
  }

  ghost predicate Same(m: Mem, m': Mem, s: set<Ref>) {
    forall i {:trigger i in m} {:trigger i in m'} :: i in s && i in m ==> i in m' && m'[i] == m[i]
  }

  lemma {:induction false} RepFrame(m: Mem, m': Mem, t: Tree, p: Ref)
    requires Rep(m, t, p) && Same(m, m', Ids(t))
    ensures Rep(m', t, p)
  {
    if t.Node? {
      RepFrame(m, m', t.l, t.id);
      RepFrame(m, m', t.r, t.id);
    }
  }

  lemma {:induction false} RepCtxFrame(m: Mem, m': Mem, c: Ctx, h: Ref, rp: Ref)
    requires RepCtx(m, c, h, rp) && Same(m, m', CIds(c))
    ensures RepCtx(m', c, h, rp)
  {
    if c.Frame? {
      RepFrame(m, m', c.sib, c.id);
      RepCtxFrame(m, m', c.up, c.id, rp);
    }
  }

  /** Only the parent pointer of the subtree's root changed. */
  lemma RepReparent(m: Mem, m': Mem, t: Tree, p: Ref, p': Ref)
    requires Rep(m, t, p) && Sep(t) && t.Node?
    requires t.id in m' && m'[t.id] == m[t.id].(parent := p') && Same(m, m', Ids(t) - {t.id})
    ensures Rep(m', t, p')
  {
    RepFrame(m, m', t.l, t.id);
    RepFrame(m, m', t.r, t.id);
  }

  lemma {:induction false} RepPlug(m: Mem, c: Ctx, t: Tree, rp: Ref)
    ensures RepCtx(m, c, RootId(t), rp) && Rep(m, t, ParentOf(c, rp)) <==> Rep(m, Plug(c, t), rp)
  {
    if c.Frame? {
      RepPlug(m, c.up, if c.isLeft then Node(t, c.id, c.red, c.sib) else Node(c.sib, c.id, c.red, t), rp);
    }
  }

  lemma {:induction false} PlugIds(c: Ctx, t: Tree)
    ensures Ids(Plug(c, t)) == Ids(t) + CIds(c)
    ensures Sep(Plug(c, t)) <==> SepAt(c, t)
    ensures RootId(Plug(c, t)) == RootOf(c, RootId(t))
  {
    if c.Frame? {
      PlugIds(c.up, if c.isLeft then Node(t, c.id, c.red, c.sib) else Node(c.sib, c.id, c.red, t));
    }
  }

  lemma Regroup<T>(a: seq<T>, b: seq<T>, c: seq<T>, d: seq<T>, e: seq<T>)
    ensures a + (b + c + d) + e == a + b + (c + d + e)
    ensures a + (b + c + d) + e == (a + b + c) + d + e
  {
  }

  lemma {:induction false} PlugOrder(c: Ctx, t: Tree)
    ensures InOrder(Plug(c, t)) == Pre(c) + InOrder(t) + Post(c)
  {
    if c.Frame? {
      if c.isLeft {
        PlugOrder(c.up, Node(t, c.id, c.red, c.sib));
        Regroup(Pre(c.up), InOrder(t), [c.id], InOrder(c.sib), Post(c.up));
      } else {
        PlugOrder(c.up, Node(c.sib, c.id, c.red, t));
        Regroup(Pre(c.up), InOrder(c.sib), [c.id], InOrder(t), Post(c.up));
      }
    }
  }

  lemma {:induction false} OrderIds(t: Tree)
    ensures forall x :: x in InOrder(t) <==> x in Ids(t)
  {
    if t.Node? {
      OrderIds(t.l);
      OrderIds(t.r);
    }
  }

  // ----- colours and black heights -----

  function Bh(t: Tree): nat {
    if t.Leaf? then 0 else Bh(t.l) + if t.red then 0 else 1
  }

  ghost predicate Balanced(t: Tree) {
    t.Node? ==> Balanced(t.l) && Balanced(t.r) && Bh(t.l) == Bh(t.r)
  }

  /** No red node has a red child. */
  ghost predicate NoRR(t: Tree) {
    t.Node? ==> NoRR(t.l) && NoRR(t.r) && (t.red ==> !IsRed(t.l) && !IsRed(t.r))
  }

  /** No red-red pair strictly below the subtree's root. */
  ghost predicate NoRRBelow(t: Tree) {
    t.Node? ==> NoRR(t.l) && NoRR(t.r)
  }

  /** The context is balanced around a hole of black height `n`. */
  ghost predicate BalancedCtx(c: Ctx, n: nat) {
    c.Frame? ==> Balanced(c.sib) && Bh(c.sib) == n && BalancedCtx(c.up, n + if c.red then 0 else 1)
  }

  ghost predicate NoRRCtx(c: Ctx, holeRed: bool) {
    c.Frame? ==> NoRR(c.sib) && (c.red ==> !IsRed(c.sib) && !holeRed) && NoRRCtx(c.up, c.red)
  }

  ghost predicate RedBlack(t: Tree) {
    Balanced(t) && NoRR(t) && !IsRed(t)
  }

  /** The root of the whole tree is black, as far as the context shows it. */
  ghost predicate TopBlack(c: Ctx) {
    c.Frame? ==> (c.up.Top? ==> !c.red) && TopBlack(c.up)
  }

  lemma {:induction false} PlugBalanced(c: Ctx, t: Tree)
    ensures Balanced(Plug(c, t)) <==> Balanced(t) && BalancedCtx(c, Bh(t))
  {
    if c.Frame? {
      PlugBalanced(c.up, if c.isLeft then Node(t, c.id, c.red, c.sib) else Node(c.sib, c.id, c.red, t));
    }
  }

  lemma {:induction false} PlugNoRR(c: Ctx, t: Tree)
    ensures NoRR(Plug(c, t)) <==> NoRR(t) && NoRRCtx(c, IsRed(t))
  {
    if c.Frame? {
      PlugNoRR(c.up, if c.isLeft then Node(t, c.id, c.red, c.sib) else Node(c.sib, c.id, c.red, t));
    }
  }

  lemma {:induction false} PlugRootBlack(c: Ctx, t: Tree)
    ensures c.Top? ==> Plug(c, t) == t
    ensures c.Frame? ==> (IsRed(Plug(c, t)) <==> !TopBlack(c))
  {
    if c.Frame? {
      PlugRootBlack(c.up, if c.isLeft then Node(t, c.id, c.red, c.sib) else Node(c.sib, c.id, c.red, t));
    }
  }

  /** A lighter colour in the hole never hurts the context. */
  lemma NoRRCtxMono(c: Ctx, b: bool)
    requires NoRRCtx(c, b)
    ensures NoRRCtx(c, false)
  {
  }

  // ----- height -----

  function Height(t: Tree): nat {
    if t.Leaf? then 0 else 1 + if Height(t.l) > Height(t.r) then Height(t.l) else Height(t.r)
  }

  function Pow2(n: nat): nat { if n == 0 then 1 else 2 * Pow2(n - 1) }

  lemma {:induction false} HeightBh(t: Tree)
    requires Balanced(t) && NoRR(t)
    ensures Height(t) <= 2 * Bh(t) + if IsRed(t) then 1 else 0
    ensures Pow2(Bh(t)) <= |InOrder(t)| + 1
  {
    if t.Node? {
      HeightBh(t.l);
      HeightBh(t.r);
    }
  }

  lemma {:induction false} Pow2Mono(a: nat, b: nat)
    requires a <= b
    ensures Pow2(a) <= Pow2(b)
  {
    if a < b {
      Pow2Mono(a, b - 1);
    }
  }

  /** A red-black tree of n nodes is at most 2 * log2(n + 1) high. */
  lemma HeightBound(t: Tree)
    requires RedBlack(t)
    ensures Pow2((Height(t) + 1) / 2) <= |InOrder(t)| + 1
  {
    HeightBh(t);
    Pow2Mono((Height(t) + 1) / 2, Bh(t));
  }
}
