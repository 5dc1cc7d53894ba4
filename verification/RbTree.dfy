/** The red-black tree of src/base_struct/yf_rbtree.c: nodes in memory with parent pointers and
    one shared sentinel. Each step of the fix-up loops is proved as a step on the zipper. */
module RbTree {
  import opened RbShape
  import opened RbZipper
  import opened RbDelete
  import opened RbSplice

  class RbTree {
    const key: Ref -> int
    var mem: Mem
    var root: Ref
    ghost var rp: Ref   // what the root's parent field holds

    ghost predicate Holds(c: Ctx, t: Tree)
      reads this
    {
      HoldsIn(mem, root, rp, c, t)
    }

    /** Lines 326-332: the child between them changes sides. */
    method GiveRight(node: Ref, temp: Ref)
      requires node in mem && temp in mem && mem[temp].left in mem && node != temp && mem[temp].left != node
      requires mem[temp].left != temp
      modifies `mem
      ensures var mid := old(mem)[temp].left; var m := old(mem)[node := old(mem)[node].(right := mid)];
        mem == if mid == NIL then m else m[mid := m[mid].(parent := node)]
    {
      mem := SetRight(mem, node, mem[temp].left);
      if mem[temp].left != NIL {
        mem := SetParent(mem, mem[temp].left, node);
      }
    }

    /** Lines 360-366 */
    method GiveLeft(node: Ref, temp: Ref)
      requires node in mem && temp in mem && mem[temp].right in mem && node != temp && mem[temp].right != node
      requires mem[temp].right != temp
      modifies `mem
      ensures var mid := old(mem)[temp].right; var m := old(mem)[node := old(mem)[node].(left := mid)];
        mem == if mid == NIL then m else m[mid := m[mid].(parent := node)]
    {
      mem := SetLeft(mem, node, mem[temp].right);
      if mem[temp].right != NIL {
        mem := SetParent(mem, mem[temp].right, node);
      }
    }

    /** yf_rbtree_left_rotate */
    method TurnLeft(node: Ref)
      requires node in mem && mem[node].right in mem
      requires CanTurn(mem, root, node, mem[node].right, mem[mem[node].right].left)
      modifies `mem, `root
      ensures var x := old(mem)[node]; var y := old(mem)[x.right];
        && Turned(old(mem), old(root), mem, root, node, x.right, y.left)
        && mem[node] == x.(right := y.left, parent := x.right) && mem[x.right] == y.(left := node, parent := x.parent)
    {
      hide Turned;
      var temp := mem[node].right;
      GiveRight(node, temp);
      mem := SetParent(mem, temp, mem[node].parent);
      ReplaceInParent(node, temp);
      mem := SetLeft(mem, temp, node);
      mem := SetParent(mem, node, temp);
      TurnLeftCells(old(mem), old(root), mem, node);
    }

    method LeftRotate(node: Ref, ghost c: Ctx, ghost t: Tree)
      requires Holds(c, t) && t.Node? && t.r.Node? && node == t.id
      modifies `mem, `root
      ensures Holds(c, RotLeft(t)) && Within(old(mem), mem, c, t)
    {
      hide Rep, RepCtx, Sep, SepCtx, Ids, CIds, RootOf, HoldsIn, Within;
      RotLeftCells(mem, root, rp, c, t);
      HeldParts(mem, root, rp, c, t);
      TurnLeft(node);
      RotLeftHeld(old(mem), mem, old(root), root, rp, c, t);
    }

    /** yf_rbtree_right_rotate */
    method TurnRight(node: Ref)
      requires node in mem && mem[node].left in mem
      requires CanTurn(mem, root, node, mem[node].left, mem[mem[node].left].right)
      requires node != root ==> (mem[mem[node].parent].left == node <==> mem[mem[node].parent].right != node)
      modifies `mem, `root
      ensures var x := old(mem)[node]; var y := old(mem)[x.left];
        && Turned(old(mem), old(root), mem, root, node, x.left, y.right)
        && mem[node] == x.(left := y.right, parent := x.left) && mem[x.left] == y.(right := node, parent := x.parent)
    {
      hide Turned;
      var temp := mem[node].left;
      GiveLeft(node, temp);
      mem := SetParent(mem, temp, mem[node].parent);
      ReplaceRightFirst(node, temp);
      mem := SetRight(mem, temp, node);
      mem := SetParent(mem, node, temp);
      TurnRightCells(old(mem), old(root), mem, node);
    }

    method RightRotate(node: Ref, ghost c: Ctx, ghost t: Tree)
      requires Holds(c, t) && t.Node? && t.l.Node? && node == t.id
      modifies `mem, `root
      ensures Holds(c, RotRight(t)) && Within(old(mem), mem, c, t)
    {
      hide Rep, RepCtx, Sep, SepCtx, Ids, CIds, RootOf, HoldsIn, Within;
      RotRightCells(mem, root, rp, c, t);
      HeldParts(mem, root, rp, c, t);
      TurnRight(node);
      RotRightHeld(old(mem), mem, old(root), root, rp, c, t);
    }

    /** yf_rbt_red and yf_rbt_black */
    method PaintNode(x: Ref, red: bool, ghost c: Ctx, ghost t: Tree)
      requires Holds(c, t) && t.Node? && x == t.id
      modifies `mem
      ensures Holds(c, Paint(t, red)) && Within(old(mem), mem, c, t)
    {
      PaintHeld(mem, root, rp, c, t, red);
      mem := SetRed(mem, x, red);
    }

    /** Lines 47-53 and 69-75: recolour parent, uncle and grandparent; the fix-up moves on to
        the grandparent. */
    method FlipColours(node: Ref, ghost c: Ctx, ghost t: Tree) returns (g: Ref)
      requires Holds(c, t) && InsInv(c, t) && node == t.id && c.Frame? && c.red && c.up.Frame? && IsRed(c.up.sib)
      modifies `mem
      ensures g == c.up.id && Holds(c.up.up, InsFlip(c, t))
      ensures Within(old(mem), mem, c, t)
    {
      ghost var P, u := UpTree(c, t), c.up;
      ZipUp(mem, root, rp, c, t);
      ZipUp(mem, root, rp, u, P);
      var p := mem[node].parent;
      g := mem[p].parent;
      var temp := if p == mem[g].left then mem[g].right else mem[g].left;
      PaintNode(p, false, u, P);
      ghost var P' := Paint(P, false);
      ZipUp(mem, root, rp, u, P');
      ghost var uc := if u.isLeft then RightCtx(u.up, UpTree(u, P')) else LeftCtx(u.up, UpTree(u, P'));
      if u.isLeft {
        ZipRight(mem, root, rp, u.up, UpTree(u, P'));
      } else {
        ZipLeft(mem, root, rp, u.up, UpTree(u, P'));
      }
      PaintNode(temp, false, uc, u.sib);
      ZipUp(mem, root, rp, uc, Paint(u.sib, false));
      PaintNode(g, true, u.up, UpTree(uc, Paint(u.sib, false)));
    }

    /** Lines 55-59 and 77-81: rotate the parent so that `node` and it lie in line. */
    method TurnInner(node: Ref, ghost c: Ctx, ghost t: Tree) returns (p: Ref)
      requires Holds(c, t) && t.Node? && node == t.id && c.Frame?
      modifies `mem, `root
      ensures p == c.id && Holds(InsInnerCtx(c, t), InsInnerTree(c, t))
      ensures Within(old(mem), mem, c, t)
    {
      Neighbours(mem, root, rp, c, t);
      ZipUp(mem, root, rp, c, t);
      p := mem[node].parent;
      ghost var P := UpTree(c, t);
      if node == mem[p].left {
        RightRotate(p, c.up, P);
        ZipRight(mem, root, rp, c.up, RotRight(P));
      } else {
        LeftRotate(p, c.up, P);
        ZipLeft(mem, root, rp, c.up, RotLeft(P));
      }
    }

    /** Lines 61-63 and 83-85: recolour, then rotate the grandparent over the parent. */
    method TurnOuter(node: Ref, ghost c: Ctx, ghost t: Tree)
      requires Holds(c, t) && t.Node? && node == t.id && c.Frame? && c.up.Frame? && c.isLeft == c.up.isLeft
      modifies `mem, `root
      ensures Holds(c.up.up, InsTurn(c, t))
      ensures Within(old(mem), mem, c, t)
    {
      ghost var P, u := UpTree(c, t), c.up;
      ZipUp(mem, root, rp, c, t);
      ZipUp(mem, root, rp, u, P);
      var p := mem[node].parent;
      var g := mem[p].parent;
      PaintNode(p, false, u, P);
      ghost var P' := Paint(P, false);
      Neighbours(mem, root, rp, u, P');
      ZipUp(mem, root, rp, u, P');
      PaintNode(g, true, u.up, UpTree(u, P'));
      ghost var G := Paint(UpTree(u, P'), true);
      if p == mem[g].left {
        RightRotate(g, u.up, G);
      } else {
        LeftRotate(g, u.up, G);
      }
    }

    /** The black-uncle branches of the loop, lines 54-64 and 76-86. */
    method TurnUncleBlack(node: Ref, ghost c: Ctx, ghost t: Tree) returns (node': Ref, ghost c': Ctx, ghost t': Tree)
      requires Holds(c, t) && InsInv(c, t) && node == t.id && c.Frame? && c.red && c.up.Frame? && !IsRed(c.up.sib)
      modifies `mem, `root
      ensures Holds(c', t') && t'.Node? && node' == t'.id && c'.Frame? && !c'.red
      ensures RedBlack(Plug(c', t')) && InOrder(Plug(c', t')) == InOrder(Plug(c, t))
      ensures Within(old(mem), mem, c, t) && Ids(t') + CIds(c') == Ids(t) + CIds(c)
    {
      hide Sep, SepCtx, Rep, RepCtx, Balanced, NoRR, BalancedCtx, NoRRCtx, Ids, InOrder, CIds, TopBlack, Bh;
      node', c', t' := node, c, t;
      ghost var u := c.up;
      Neighbours(mem, root, rp, c, t);
      ZipUp(mem, root, rp, c, t);
      Neighbours(mem, root, rp, u, UpTree(c, t));
      var p := mem[node].parent;
      var g := mem[p].parent;
      if p == mem[g].left {
        if node == mem[p].right {
          InsInnerOk(c, t);
          PlugReplace(u, UpTree(c, t), UpTree(InsInnerCtx(c, t), InsInnerTree(c, t)));
          node' := TurnInner(node, c, t);
          c', t' := InsInnerCtx(c, t), InsInnerTree(c, t);
          SameIds(c, t, c', t');
        }
      } else {
        if node == mem[p].left {
          InsInnerOk(c, t);
          PlugReplace(u, UpTree(c, t), UpTree(InsInnerCtx(c, t), InsInnerTree(c, t)));
          node' := TurnInner(node, c, t);
          c', t' := InsInnerCtx(c, t), InsInnerTree(c, t);
          SameIds(c, t, c', t');
        }
      }
      InsTurnOk(c', t');
      PlugReplace(u.up, UpTree(u, UpTree(c', t')), InsTurn(c', t'));
      ghost var m1 := mem;
      TurnOuter(node', c', t');
      ghost var G := InsTurn(c', t');
      TurnIds(c', t');
      WithinTrans(old(mem), m1, mem, c, t, c', t');
      if c'.isLeft {
        ZipLeft(mem, root, rp, u.up, G);
        c' := LeftCtx(u.up, G);
      } else {
        ZipRight(mem, root, rp, u.up, G);
        c' := RightCtx(u.up, G);
      }
    }

    /** The re-balancing loop of __yf_rbtree_insert (lines 41-90). */
    method InsertFix(node0: Ref, ghost c0: Ctx, ghost t0: Tree) returns (ghost whole: Tree)
      requires Holds(c0, t0) && InsInv(c0, t0) && node0 == t0.id
      modifies `mem, `root
      ensures Holds(Top, whole) && RedBlack(whole)
      ensures InOrder(whole) == InOrder(Plug(c0, t0))
      ensures Within(old(mem), mem, c0, t0) && Ids(whole) == Ids(t0) + CIds(c0)
    {
      hide Sep, SepCtx, Rep, RepCtx, Balanced, NoRR, BalancedCtx, NoRRCtx, Ids, InOrder, CIds, TopBlack, Bh, Plug,
        Within, RedBlack;
      var node := node0;
      ghost var c, t, done := c0, t0, false;
      Neighbours(mem, root, rp, c, t);
      WithinRefl(mem, c, t);
      while node != root && mem[mem[node].parent].red
        invariant Holds(c, t) && t.Node? && node == t.id && node in mem
        invariant node != root ==> mem[node].parent in mem
        invariant if done then RedBlack(Plug(c, t)) && c.Frame? && !c.red else InsInv(c, t)
        invariant InOrder(Plug(c, t)) == InOrder(Plug(c0, t0))
        invariant Ids(t) + CIds(c) == Ids(t0) + CIds(c0) && Within(old(mem), mem, c0, t0)
        decreases !done, Depth(c)
      {
        Neighbours(mem, root, rp, c, t);
        RedHasParent(c);
        PlugTwice(c, t);
        ghost var u, m1 := c.up, mem;
        ZipUp(mem, root, rp, c, t);
        Neighbours(mem, root, rp, u, UpTree(c, t));
        var p := mem[node].parent;
        var g := mem[p].parent;
        var temp := if p == mem[g].left then mem[g].right else mem[g].left;
        if mem[temp].red {
          InsFlipOk(c, t);
          PlugReplace(u.up, UpTree(u, UpTree(c, t)), InsFlip(c, t));
          node := FlipColours(node, c, t);
          WithinTrans(old(mem), m1, mem, c0, t0, c, t);
          FlipIds(c, t);
          c, t := u.up, InsFlip(c, t);
        } else {
          ghost var c1, t1 := c, t;
          node, c, t := TurnUncleBlack(node, c, t);
          WithinTrans(old(mem), m1, mem, c0, t0, c1, t1);
          done := true;
        }
        Neighbours(mem, root, rp, c, t);
      }
      Neighbours(mem, root, rp, c, t);
      ZipAll(mem, root, rp, c, t);
      InsFinish(c, t, done);
      ghost var m2 := mem;
      Neighbours(mem, root, rp, Top, Plug(c, t));
      PaintNode(root, false, Top, Plug(c, t));
      whole := Paint(Plug(c, t), false);
      PaintSame(Plug(c, t), false);
      TopIds(Plug(c, t));
      WithinTrans(old(mem), m2, mem, c0, t0, Top, Plug(c, t));
    }

    ghost var tree: Tree   // the shape the memory holds

    /** What the root's parent field may hold: null, or the address of an old root that has
        been deleted (lines 128-139), whether or not that node is in use again. */
    ghost predicate RootParentOk()
      reads this
    {
      tree.Node? && rp != NULL ==> rp > 0 && (rp in Ids(tree) || (rp in mem && mem[rp].right == NULL))
    }

    ghost predicate Valid()
      reads this
    {
      Holds(Top, tree) && RedBlack(tree) && Sorted(key, InOrder(tree)) && RootParentOk()
    }

    /** yf_rbtree_init: no nodes, the sentinel black. `cells` is whatever memory the nodes live in. */
    constructor (order: Ref -> int, cells: Mem)
      requires NIL in cells
      ensures Valid() && tree == Leaf && key == order && mem == SetRed(cells, NIL, false) && root == NIL
    {
      key, root, rp, tree := order, NIL, NULL, Leaf;
      mem := SetRed(cells, NIL, false);
    }

    /** yf_rbtree_insert_value: find the gap; in unique mode stop at an equivalent key. */
    method FindGap(node: Ref, uniq: bool) returns (ok: bool, temp: Ref, left: bool, ghost c: Ctx)
      requires Valid() && tree.Node?
      ensures !ok ==> uniq && exists y :: y in Ids(tree) && key(y) == key(node)
      ensures ok ==> Holds(c, Leaf) && c.Frame? && temp == c.id && left == c.isLeft
      ensures ok ==> Plug(c, Leaf) == tree && Gap(key, Pre(c), node, Post(c))
      ensures ok && uniq ==> forall y :: y in Ids(tree) ==> key(y) != key(node)
    {
      hide Sep, SepCtx, Rep, RepCtx, RedBlack, Ids, InOrder, CIds, Pre, Post, Gap, Sorted;
      temp, left := root, false;
      c := Top;
      ghost var t := tree;
      GapTop(key, node);
      while true
        invariant Holds(c, t) && t.Node? && temp == t.id && Plug(c, t) == tree
        invariant Gap(key, Pre(c), node, Post(c))
        invariant uniq ==> forall y :: y in Pre(c) ==> key(y) < key(node)
        decreases t
      {
        Neighbours(mem, root, rp, c, t);
        GapDown(key, c, t, node);
        var cmp := key(node) < key(temp);
        if uniq && cmp == (key(temp) < key(node)) {
          PlugHas(c, t);
          return false, temp, left, c;
        }
        left := cmp;
        if left {
          ZipLeft(mem, root, rp, c, t);
          PreLeft(c, t);
          c, t := LeftCtx(c, t), t.l;
        } else {
          ZipRight(mem, root, rp, c, t);
          if uniq {
            StrictDown(key, c, t, node);
          }
          c, t := RightCtx(c, t), t.r;
        }
        var next := if left then mem[temp].left else mem[temp].right;
        ChildNil(t);
        if next == NIL {
          if uniq {
            NoEqual(key, c, node);
          }
          return true, temp, left, c;
        }
        temp := next;
      }
    }

    /** Lines 22-29: the first node. */
    method InsertFirst(node: Ref)
      requires Valid() && node > 0 && node in mem && root == NIL
      modifies this
      ensures Valid() && old(tree) == Leaf && InOrder(tree) == [node] && Ids(tree) == {node} && rp == NULL
      ensures mem == old(mem)[node := Cell(NIL, NIL, NULL, false)] && InOrder(old(tree)) == [] && Ids(old(tree)) == {}
    {
      hide Sep, SepCtx, Rep, RepCtx, RedBlack, Sorted, Ids, InOrder;
      FirstNode(mem, root, rp, key, tree, node);
      mem := mem[node := Cell(NIL, NIL, NULL, false)];
      root := node;
      rp, tree := NULL, Node(Leaf, node, false, Leaf);
    }

    /** The node goes into its gap, red and without children. */
    method Attach(node: Ref, temp: Ref, left: bool, ghost c: Ctx)
      requires Holds(c, Leaf) && c.Frame? && temp == c.id && left == c.isLeft && node > 0 && node in mem
      requires node !in CIds(c)
      modifies `mem
      ensures Holds(c, Node(Leaf, node, true, Leaf)) && mem.Keys == old(mem.Keys)
      ensures forall i :: i in old(mem) && i != node && i != c.id ==> mem[i] == old(mem)[i]
    {
      hide Sep, SepCtx, Rep, RepCtx, CIds;
      AttachHeld(mem, root, rp, c, node);
      if left {
        mem := SetLeft(mem, temp, node);
      } else {
        mem := SetRight(mem, temp, node);
      }
      mem := mem[node := Cell(NIL, NIL, temp, true)];
    }


    /** __yf_rbtree_insert. On success the node is in the one gap of the in-order sequence with
        nothing larger before it and nothing equal or smaller after it. */
    method Insert(node: Ref, uniq: bool) returns (ok: bool, ghost k: nat)
      requires Valid() && node > 0 && node in mem && node !in Ids(tree)
      modifies this
      ensures Valid()
      ensures !ok <==> uniq && exists y :: y in Ids(old(tree)) && key(y) == key(node)
      ensures !ok ==> mem == old(mem) && root == old(root) && tree == old(tree)
      ensures ok ==> k <= |InOrder(old(tree))|
      ensures ok ==> InOrder(tree) == InOrder(old(tree))[..k] + [node] + InOrder(old(tree))[k..]
      ensures ok ==> Gap(key, InOrder(old(tree))[..k], node, InOrder(old(tree))[k..])
      ensures ok ==> Ids(tree) == Ids(old(tree)) + {node}
      ensures rp == if old(tree).Leaf? then NULL else old(rp)
      ensures forall i :: i in old(mem) && i !in Ids(tree) ==> i in mem && mem[i] == old(mem)[i]
    {
      hide Sep, SepCtx, Rep, RepCtx, RedBlack, CIds, Pre, Post, Gap, Sorted, Ids, InOrder, InsInv;
      k := 0;
      if root == NIL {
        EmptyGap(key, node);
        InsertFirst(node);
        return true, 0;
      }
      ChildNil(tree);
      ghost var c;
      var temp, left;
      ok, temp, left, c := FindGap(node, uniq);
      if !ok {
        return;
      }
      PlugIds(c, Leaf);
      PlugOrder(c, Leaf);
      InsStart(c, node);
      ghost var S, N := InOrder(tree), Node(Leaf, node, true, Leaf);
      Attach(node, temp, left, c);
      PlugOrder(c, N);
      k := |Pre(c)|;
      InsertedAt(S, Pre(c), node, Post(c));
      GapSorted(key, Pre(c), node, Post(c));
      tree := InsertFix(node, c, N);
      InsertIds(c, node);
    }

    /** Lines 212-218 and 244-250: a red sibling changes places with the parent. */
    method FixSibRed(temp: Ref, ghost c: Ctx, ghost t: Tree) returns (w: Ref)
      requires Holds(c, t) && TempAt(mem, temp, c, t) && c.Frame? && IsRed(c.sib) && Near(c).Node?
      modifies `mem, `root
      ensures Holds(DelSibRed(c), t) && TempAt(mem, temp, DelSibRed(c), t) && w == RootId(Near(c))
      ensures Within(old(mem), mem, c, t)
    {
      hide Rep, RepCtx, Sep, SepCtx, HoldsIn, Ids, CIds;
      DelNeighbours(mem, root, rp, c, t, temp);
      var p := mem[temp].parent;
      var left := temp == mem[p].left;
      w := if left then mem[p].right else mem[p].left;
      ghost var sc, P, P1 := SibCtx(c, t), UpTree(c, t), UpTree(c.(sib := Paint(c.sib, false)), t);
      ZipUp(mem, root, rp, c, t);
      ZipSib(mem, root, rp, c, t);
      PaintNode(w, false, sc, c.sib);
      ghost var m1 := mem;
      ZipUp(mem, root, rp, sc, Paint(c.sib, false));
      PaintNode(p, true, c.up, P1);
      ghost var P2, m2 := Paint(P1, true), mem;
      if left {
        LeftRotate(p, c.up, P2);
        ZipLeft(mem, root, rp, c.up, RotLeft(P2));
        ZipLeft(mem, root, rp, LeftCtx(c.up, RotLeft(P2)), RotLeft(P2).l);
      } else {
        RightRotate(p, c.up, P2);
        ZipRight(mem, root, rp, c.up, RotRight(P2));
        ZipRight(mem, root, rp, RightCtx(c.up, RotRight(P2)), RotRight(P2).r);
      }
      PaintSame(c.sib, false);
      FixIds(c, t, Paint(c.sib, false), true);
      WithinTrans(old(mem), old(mem), m1, c, t, sc, c.sib);
      WithinTrans(old(mem), m1, m2, c, t, c.up, P1);
      WithinTrans(old(mem), m2, mem, c, t, c.up, P2);
      TempStays(old(mem), mem, old(root), root, rp, c, t, DelSibRed(c), temp);
      DelNeighbours(mem, root, rp, DelSibRed(c), t, temp);
      w := if left then mem[mem[temp].parent].right else mem[mem[temp].parent].left;
    }

    /** Lines 222-223 and 254-255: recolour the sibling; the hole moves to the parent. */
    method FixSibBlack(temp: Ref, w: Ref, ghost c: Ctx, ghost t: Tree) returns (p: Ref)
      requires Holds(c, t) && TempAt(mem, temp, c, t) && c.Frame? && c.sib.Node? && w == c.sib.id
      modifies `mem
      ensures p == c.id && Holds(c.up, UpTree(c.(sib := Paint(c.sib, true)), t))
      ensures Within(old(mem), mem, c, t)
    {
      hide Rep, RepCtx, Sep, SepCtx, HoldsIn, Ids, CIds;
      ghost var sc := SibCtx(c, t);
      ZipSib(mem, root, rp, c, t);
      p := mem[temp].parent;
      PaintNode(w, true, sc, c.sib);
      ZipUp(mem, root, rp, sc, Paint(c.sib, true));
      WithinTrans(old(mem), old(mem), mem, c, t, sc, c.sib);
    }

    /** Lines 228-231 and 260-263: turn a sibling whose near child is red. */
    method FixInner(temp: Ref, w0: Ref, ghost c: Ctx, ghost t: Tree) returns (w: Ref)
      requires Holds(c, t) && TempAt(mem, temp, c, t) && c.Frame? && c.sib.Node? && w0 == c.sib.id && Near(c).Node?
      modifies `mem, `root
      ensures Holds(DelInner(c), t) && TempAt(mem, temp, DelInner(c), t) && w == DelInner(c).sib.id
      ensures Within(old(mem), mem, c, t)
    {
      hide Rep, RepCtx, Sep, SepCtx, HoldsIn, Ids, CIds;
      w := w0;
      DelNeighbours(mem, root, rp, c, t, temp);
      ghost var sc, n := SibCtx(c, t), Near(c);
      ZipSib(mem, root, rp, c, t);
      var p := mem[temp].parent;
      var left := temp == mem[p].left;
      ghost var nc := if left then LeftCtx(sc, c.sib) else RightCtx(sc, c.sib);
      if left {
        ZipLeft(mem, root, rp, sc, c.sib);
        PaintNode(mem[w].left, false, nc, n);
      } else {
        ZipRight(mem, root, rp, sc, c.sib);
        PaintNode(mem[w].right, false, nc, n);
      }
      ghost var m1, w1 := mem, UpTree(nc, Paint(n, false));
      PaintSame(n, false);
      ZipUp(mem, root, rp, nc, Paint(n, false));
      PaintNode(w, true, sc, w1);
      ghost var m2, w2 := mem, Paint(w1, true);
      if left {
        RightRotate(w, sc, w2);
        ZipUp(mem, root, rp, sc, RotRight(w2));
        ZipLeft(mem, root, rp, c.up, UpTree(sc, RotRight(w2)));
      } else {
        LeftRotate(w, sc, w2);
        ZipUp(mem, root, rp, sc, RotLeft(w2));
        ZipRight(mem, root, rp, c.up, UpTree(sc, RotLeft(w2)));
      }
      SibIds(c, t, w1, w2);
      WithinTrans(old(mem), old(mem), m1, c, t, nc, n);
      WithinTrans(old(mem), m1, m2, c, t, sc, w1);
      WithinTrans(old(mem), m2, mem, c, t, sc, w2);
      TempStays(old(mem), mem, old(root), root, rp, c, t, DelInner(c), temp);
      DelNeighbours(mem, root, rp, DelInner(c), t, temp);
      w := if left then mem[mem[temp].parent].right else mem[mem[temp].parent].left;
    }

    /** Lines 234-237 and 266-269: the last turn. */
    method FixOuter(temp: Ref, w: Ref, ghost c: Ctx, ghost t: Tree)
      requires Holds(c, t) && TempAt(mem, temp, c, t) && c.Frame? && c.sib.Node? && w == c.sib.id && Outer(c).Node?
      modifies `mem, `root
      ensures Holds(c.up, DelOuter(c, t)) && Within(old(mem), mem, c, t)
    {
      hide Rep, RepCtx, Sep, SepCtx, HoldsIn, Ids, CIds;
      DelNeighbours(mem, root, rp, c, t, temp);
      ghost var sc, o := SibCtx(c, t), Outer(c);
      var p := mem[temp].parent;
      var left := temp == mem[p].left;
      ZipSib(mem, root, rp, c, t);
      PaintNode(w, mem[p].red, sc, c.sib);
      ghost var m1, w1 := mem, Paint(c.sib, c.red);
      PaintSame(c.sib, c.red);
      ZipUp(mem, root, rp, sc, w1);
      PaintNode(p, false, c.up, UpTree(sc, w1));
      ghost var m2, P2 := mem, Paint(UpTree(sc, w1), false);
      FixIds(c, t, w1, false);
      ghost var sc2, oc;
      if left {
        ZipRight(mem, root, rp, c.up, P2);
        sc2 := RightCtx(c.up, P2);
        ZipRight(mem, root, rp, sc2, w1);
        oc := RightCtx(sc2, w1);
        Neighbours(mem, root, rp, sc2, w1);
        PaintNode(mem[w].right, false, oc, o);
      } else {
        ZipLeft(mem, root, rp, c.up, P2);
        sc2 := LeftCtx(c.up, P2);
        ZipLeft(mem, root, rp, sc2, w1);
        oc := LeftCtx(sc2, w1);
        Neighbours(mem, root, rp, sc2, w1);
        PaintNode(mem[w].left, false, oc, o);
      }
      ghost var m3, w3 := mem, UpTree(oc, Paint(o, false));
      PaintSame(o, false);
      ZipUp(mem, root, rp, oc, Paint(o, false));
      ZipUp(mem, root, rp, sc2, w3);
      ghost var P3 := UpTree(sc2, w3);
      if left {
        LeftRotate(p, c.up, P3);
      } else {
        RightRotate(p, c.up, P3);
      }
      OuterIds(c, t);
      OuterTurnedIds(c, t);
      WithinTrans(old(mem), old(mem), m1, c, t, sc, c.sib);
      WithinTrans(old(mem), m1, m2, c, t, c.up, UpTree(sc, w1));
      WithinTrans(old(mem), m2, m3, c, t, oc, o);
      WithinTrans(old(mem), m3, mem, c, t, c.up, P3);
    }

    /** One round of the delete fix-up loop (lines 208-272). */
    method DeleteRound(temp: Ref, ghost c: Ctx, ghost t: Tree) returns (temp': Ref, ghost c': Ctx, ghost t': Tree)
      requires Holds(c, t) && TempAt(mem, temp, c, t) && DelInv(c, t) && c.Frame? && !IsRed(t)
      modifies `mem, `root
      ensures Holds(c', t') && TempAt(mem, temp', c', t') && DelInv(c', t')
      ensures InOrder(Plug(c', t')) == InOrder(Plug(c, t))
      ensures Within(old(mem), mem, c, t) && Ids(t') + CIds(c') == Ids(t) + CIds(c)
      ensures c'.Top? || IsRed(t') || Depth(c') < Depth(c)
    {
      hide Rep, RepCtx, Sep, SepCtx, HoldsIn, Ids, CIds, DelInv, Balanced, NoRR, BalancedCtx, NoRRCtx, Plug, InOrder,
        Within;
      c', t' := c, t;
      SibIsNode(c, t);
      DelNeighbours(mem, root, rp, c, t, temp);
      var p := mem[temp].parent;
      var left := temp == mem[p].left;
      var w := if left then mem[p].right else mem[p].left;
      if mem[w].red {
        DelSibRedOk(c, t);
        RedSibHasChildren(c, t);
        w := FixSibRed(temp, c, t);
        c' := DelSibRed(c);
        DelNeighbours(mem, root, rp, c', t, temp);
      } else {
        WithinRefl(mem, c, t);
      }
      ghost var c1, m1 := c', mem;
      if !mem[mem[w].left].red && !mem[mem[w].right].red {
        DelSibBlackOk(c1, t);
        temp' := FixSibBlack(temp, w, c1, t);
        c', t' := c1.up, UpTree(c1.(sib := Paint(c1.sib, true)), t);
        WithinTrans(old(mem), m1, mem, c, t, c1, t);
        Neighbours(mem, root, rp, c', t');
      } else {
        if (if left then !mem[mem[w].right].red else !mem[mem[w].left].red) {
          DelInnerOk(c1, t);
          w := FixInner(temp, w, c1, t);
          WithinTrans(old(mem), m1, mem, c, t, c1, t);
          c' := DelInner(c1);
        }
        ghost var c2, m2 := c', mem;
        DelOuterOk(c2, t);
        FixOuter(temp, w, c2, t);
        WithinTrans(old(mem), m2, mem, c, t, c2, t);
        temp' := root;
        ZipAll(mem, root, rp, c2.up, DelOuter(c2, t));
        c', t' := Top, Plug(c2.up, DelOuter(c2, t));
        RootMeansTop(mem, root, rp, c', t');
        TopIds(t');
      }
    }

    /** The fix-up of yf_rbtree_delete (lines 206-275). */
    method DeleteFix(temp0: Ref, ghost c0: Ctx, ghost t0: Tree) returns (ghost whole: Tree)
      requires Holds(c0, t0) && TempAt(mem, temp0, c0, t0) && DelInv(c0, t0)
      modifies `mem, `root
      ensures Holds(Top, whole) && RedBlack(whole) && InOrder(whole) == InOrder(Plug(c0, t0))
      ensures Ids(whole) == Ids(t0) + CIds(c0)
      ensures forall i ::
        i in old(mem) && i != NIL && i !in Ids(t0) && i !in CIds(c0) ==> i in mem && mem[i] == old(mem)[i]
    {
      hide Rep, RepCtx, Sep, SepCtx, HoldsIn, Ids, CIds, DelInv, Balanced, NoRR, BalancedCtx, NoRRCtx, InOrder,
        RedBlack;
      var temp := temp0;
      ghost var c, t := c0, t0;
      RootMeansTop(mem, root, rp, c, t);
      TempInMem(mem, root, rp, c, t, temp);
      while temp != root && !mem[temp].red
        invariant Holds(c, t) && TempAt(mem, temp, c, t) && DelInv(c, t) && temp in mem
        invariant mem[temp].red == IsRed(t)
        invariant (temp == root) == c.Top?
        invariant InOrder(Plug(c, t)) == InOrder(Plug(c0, t0))
        invariant Within(old(mem), mem, c0, t0) && Ids(t) + CIds(c) == Ids(t0) + CIds(c0)
        decreases if c.Top? || IsRed(t) then 0 else 1 + Depth(c)
      {
        ghost var c1, t1, m1 := c, t, mem;
        temp, c, t := DeleteRound(temp, c, t);
        WithinTrans(old(mem), m1, mem, c0, t0, c1, t1);
        RootMeansTop(mem, root, rp, c, t);
        TempInMem(mem, root, rp, c, t, temp);
      }
      DelFinish(c, t);
      PaintSame(t, false);
      ghost var m2 := mem;
      if temp == NIL {
        mem := SetRed(mem, temp, false);
        NilPainted(m2, root, rp, c, t);
      } else {
        NodeNotNil(mem, root, rp, c, t, temp);
        PaintNode(temp, false, c, t);
        WithinTrans(old(mem), m2, mem, c0, t0, c, t);
      }
      whole := Plug(c, Paint(t, false));
      ZipAll(mem, root, rp, c, Paint(t, false));
    }

    /** __yf_rbtree_min */
    method MinBelow(x: Ref, ghost c: Ctx, ghost t: Tree) returns (m: Ref, ghost c2: Ctx, ghost s: Tree)
      requires Holds(c, t) && t.Node? && x == t.id
      ensures Plug(c2, s) == t && s.Node? && s.id == m && s.l.Leaf? && Pre(c2) == []
      ensures Holds(Append(c2, c), s)
      ensures |InOrder(t)| > 0 && m == InOrder(t)[0]
    {
      hide Rep, RepCtx, Sep, SepCtx, HoldsIn, Ids, CIds;
      MinStart(mem, root, rp, c, t);
      m, c2, s := x, Top, t;
      while mem[m].left != NIL
        invariant Holds(Append(c2, c), s) && s.Node? && s.id == m && m in mem
        invariant mem[m].left == RootId(s.l) && (RootId(s.l) == NIL <==> s.l.Leaf?)
        invariant Plug(c2, s) == t && Pre(c2) == []
        decreases s
      {
        MinStep(mem, root, rp, c, c2, s);
        m, c2, s := mem[m].left, LeftCtx(c2, s), s.l;
      }
      PlugOrder(c2, s);
    }

    /** Lines 199-202 and the fix-up: with the node out of the tree and `temp` in the hole. */
    method FinishDelete(temp: Ref, red: bool, ghost c: Ctx, ghost x: Tree) returns (ghost whole: Tree)
      requires Holds(c, x) && TempAt(mem, temp, c, x)
      requires if red then RedBlack(Plug(c, x)) else DelInv(c, x)
      modifies `mem, `root
      ensures Holds(Top, whole) && RedBlack(whole) && InOrder(whole) == InOrder(Plug(c, x))
      ensures Ids(whole) == Ids(x) + CIds(c)
      ensures forall i ::
        i in old(mem) && i != NIL && i !in Ids(x) && i !in CIds(c) ==> i in mem && mem[i] == old(mem)[i]
    {
      if red {
        whole := Plug(c, x);
        ZipAll(mem, root, rp, c, x);
        return;
      }
      whole := DeleteFix(temp, c, x);
    }

    /** Lines 141-154: the node has at most one child, `temp`, which takes its place. */
    method DeleteLow(node: Ref, temp: Ref, ghost c: Ctx, ghost t: Tree) returns (ghost whole: Tree)
      requires Holds(c, t) && t.Node? && t.id == node && (t.l.Leaf? || t.r.Leaf?) && c.Frame?
      requires temp == RootId(OnlyChild(t)) && RedBlack(Plug(c, t))
      modifies `mem, `root
      ensures Holds(Top, whole) && RedBlack(whole) && InOrder(whole) == InOrder(Plug(c, OnlyChild(t)))
      ensures Ids(whole) == Ids(t) + CIds(c) - {node}
      ensures node in mem && mem[node].left == mem[node].right == mem[node].parent == NULL
      ensures forall i ::
        i in old(mem) && i != NIL && i != node && i !in Ids(whole) ==> i in mem && mem[i] == old(mem)[i]
    {
      hide Rep, RepCtx, Sep, SepCtx, HoldsIn, Ids, CIds, RedBlack, InOrder, DelInv, Plug;
      LowCells(mem, root, rp, c, t);
      var red := mem[node].red;
      var p := mem[node].parent;
      if node == mem[p].left {
        mem := SetLeft(mem, p, temp);
      } else {
        mem := SetRight(mem, p, temp);
      }
      mem := SetParent(mem, temp, p);
      mem := mem[node := mem[node].(left := NULL, right := NULL, parent := NULL)];
      SpliceHeld(old(mem), mem, root, rp, c, t);
      SplicedColours(c, t);
      whole := FinishDelete(temp, red, c, OnlyChild(t));
    }

    /** Lines 164-167 */
    method CopyCell(node: Ref, subst: Ref)
      requires node in mem && subst in mem && node != subst
      modifies `mem
      ensures mem == old(mem)[subst := old(mem)[node]]
    {
      mem := SetLeft(mem, subst, mem[node].left);
      mem := SetRight(mem, subst, mem[node].right);
      mem := SetParent(mem, subst, mem[node].parent);
      mem := SetRed(mem, subst, mem[node].red);
    }

    /** Lines 169-181; a left rotation has the same at lines 336-347. */
    method ReplaceInParent(node: Ref, subst: Ref)
      requires node in mem && (node != root ==> mem[node].parent in mem && mem[node].parent != node)
      modifies `mem, `root
      ensures mem.Keys == old(mem.Keys)
      ensures root == if node == old(root) then subst else old(root)
      ensures node == old(root) ==> mem == old(mem)
      ensures node != old(root) ==> var p := old(mem)[node].parent;
        var x := old(mem)[p];
        mem == old(mem)[p := if node == x.left then x.(left := subst) else x.(right := subst)]
    {
      if node == root {
        root := subst;
      } else {
        if node == mem[mem[node].parent].left {
          mem := SetLeft(mem, mem[node].parent, subst);
        } else {
          mem := SetRight(mem, mem[node].parent, subst);
        }
      }
    }

    /** Lines 369-380 */
    method ReplaceRightFirst(node: Ref, temp: Ref)
      requires node in mem && (node != root ==> mem[node].parent in mem && mem[node].parent != node)
      modifies `mem, `root
      ensures mem.Keys == old(mem.Keys)
      ensures root == if node == old(root) then temp else old(root)
      ensures node == old(root) ==> mem == old(mem)
      ensures node != old(root) ==> var p := old(mem)[node].parent;
        var x := old(mem)[p];
        mem == old(mem)[p := if node == x.right then x.(right := temp) else x.(left := temp)]
    {
      if node == root {
        root := temp;
      } else if node == mem[mem[node].parent].right {
        mem := SetRight(mem, mem[node].parent, temp);
      } else {
        mem := SetLeft(mem, mem[node].parent, temp);
      }
    }

    /** Lines 183-191 */
    method ParentKids(subst: Ref)
      requires subst in mem && subst != NIL
      requires mem[subst].left in mem && mem[subst].right in mem && mem[subst].left != subst
      requires mem[subst].right != subst
      requires mem[subst].left != NIL ==> mem[subst].left != mem[subst].right
      modifies `mem
      ensures mem.Keys == old(mem.Keys)
      ensures forall i {:trigger mem[i]} {:trigger i in mem} :: i in mem ==>
        mem[i] == if i != NIL && (i == old(mem)[subst].left || i == old(mem)[subst].right)
                  then old(mem)[i].(parent := subst) else old(mem)[i]
    {
      if mem[subst].left != NIL {
        mem := SetParent(mem, mem[subst].left, subst);
      }
      if mem[subst].right != NIL {
        mem := SetParent(mem, mem[subst].right, subst);
      }
    }

    /** Lines 164-197, cell by cell. */
    method MoveCells(node: Ref, subst: Ref)
      requires node in mem && subst in mem && node != subst && subst != NIL && node != NIL
      requires var x := mem[node];
        && x.left in mem && x.right in mem && x.left != subst && x.right != subst && x.left != node && x.right != node
        && (x.left != NIL ==> x.left != x.right)
      requires node != root ==> var p := mem[node].parent;
        p in mem && p != node && p != subst && p != NIL && p != mem[node].left && p != mem[node].right
      modifies `mem, `root
      ensures mem.Keys == old(mem.Keys) && root == if node == old(root) then subst else old(root)
      ensures mem[subst] == old(mem)[node] && mem[node] == old(mem)[node].(left := NULL, right := NULL, parent := NULL)
      ensures var x := old(mem)[node];
        && (node != old(root) ==> var p := x.parent;
              mem[p] == if node == old(mem)[p].left then old(mem)[p].(left := subst) else old(mem)[p].(right := subst))
        && forall i {:trigger mem[i]} {:trigger i in mem} ::
             i in mem && i != node && i != subst && (i != x.parent || node == old(root)) ==>
             mem[i] == if i != NIL && (i == x.left || i == x.right) then old(mem)[i].(parent := subst) else old(mem)[i]
    {
      CopyCell(node, subst);
      ReplaceInParent(node, subst);
      ParentKids(subst);
      mem := mem[node := mem[node].(left := NULL, right := NULL, parent := NULL)];
    }

    /** Lines 164-197: `subst`, already out of its old place, takes over that of `node`. `m1` is
        memory as a tree without `subst`; only the child's parent field may be ahead of it. */
    method TakePlace(node: Ref, subst: Ref, ghost m1: Mem, ghost c: Ctx, ghost t: Tree)
      requires HoldsIn(m1, root, rp, c, t) && t.Node? && t.id == node
      requires subst > 0 && subst in m1 && subst !in Ids(t) && subst !in CIds(c)
      requires RootId(t.r) in m1 && (mem == m1 || mem == SetParent(m1, RootId(t.r), subst))
      modifies `mem, `root
      ensures Holds(c, t.(id := subst))
      ensures Ids(t.(id := subst)) + CIds(c) == Ids(t) + CIds(c) - {node} + {subst}
      ensures node in mem && mem[node].left == mem[node].right == mem[node].parent == NULL
      ensures NIL in mem && NIL in old(mem) && mem[NIL] == old(mem)[NIL]
      ensures forall i {:trigger i in m1} {:trigger mem[i]} ::
        i in m1 && i !in RenameCells(c, t, subst) ==> i in mem && mem[i] == m1[i]
    {
      hide Rep, RepCtx, Sep, SepCtx, HoldsIn, Ids, CIds, InOrder;
      PlaceCells(m1, root, rp, c, t, subst);
      MoveCells(node, subst);
      RenameHeld(m1, mem, old(root), root, rp, c, t, subst);
    }

    /** Lines 143-162: `subst` leaves its place to `temp`, whose parent will be `subst` itself if
        that is a child of `node`. */
    method LeavePlace(node: Ref, subst: Ref, temp: Ref, ghost c: Ctx, ghost s: Tree) returns (ghost m1: Mem)
      requires Holds(c, s) && s.Node? && s.id == subst && s.l.Leaf? && c.Frame? && temp == RootId(s.r)
      modifies `mem
      ensures HoldsIn(m1, root, rp, c, s.r) && temp in m1 && m1.Keys == old(mem.Keys)
      ensures mem == if c.id == node then SetParent(m1, temp, subst) else m1
      ensures m1[temp].parent == c.id
      ensures forall i {:trigger i in old(mem)} {:trigger m1[i]} ::
        i in old(mem) && i != NIL && i != subst && i != c.id && i != temp ==> i in m1 && m1[i] == old(mem)[i]
    {
      hide Rep, RepCtx, Sep, SepCtx, HoldsIn, Ids, CIds;
      LowCells(mem, root, rp, c, s);
      var sp := mem[subst].parent;
      if subst == mem[sp].left {
        mem := SetLeft(mem, sp, temp);
      } else {
        mem := SetRight(mem, sp, temp);
      }
      m1 := SetParent(mem, temp, sp);
      if mem[subst].parent == node {
        mem := SetParent(mem, temp, subst);
      } else {
        mem := SetParent(mem, temp, mem[subst].parent);
      }
      SpliceHeld(old(mem), m1, root, rp, c, s);
    }

    /** Lines 143-162 for a node with two children: memory `m1` is that of the tree without `subst`. */
    method TakeOut(node: Ref, subst: Ref, temp: Ref, ghost c: Ctx, ghost t: Tree, ghost c2: Ctx, ghost s: Tree)
      returns (ghost m1: Mem)
      requires Holds(c, t) && t.Node? && t.id == node && t.r == Plug(c2, s)
      requires s.Node? && s.id == subst && s.l.Leaf? && temp == RootId(s.r)
      requires Holds(Append(c2, RightCtx(c, t)), s)
      modifies `mem
      ensures var t1 := t.(r := Plug(c2, s.r));
        && HoldsIn(m1, root, rp, c, t1) && subst > 0 && subst in m1 && subst !in Ids(t1) && subst !in CIds(c)
        && RootId(t1.r) in m1 && (mem == m1 || mem == SetParent(m1, RootId(t1.r), subst))
        && Ids(t1) + CIds(c) == Ids(t) + CIds(c) - {subst} && subst in Ids(t)
      ensures temp in m1 && m1[temp].parent == (if c2.Top? then node else c2.id) && m1.Keys == old(mem.Keys)
      ensures c2.Top? ==> mem == SetParent(m1, temp, subst)
      ensures c2.Frame? ==> mem == m1 && c2.id != node
      ensures var p := if c2.Top? then node else c2.id;
        forall i {:trigger i in old(mem)} {:trigger m1[i]} ::
          i in old(mem) && i != NIL && i != subst && i != p && i != temp ==> i in m1 && m1[i] == old(mem)[i]
    {
      hide Rep, RepCtx, Sep, SepCtx, HoldsIn, Ids, CIds, Plug, Append;
      ghost var d0 := RightCtx(c, t);
      AppendTop(c2, d0);
      Neighbours(mem, root, rp, Append(c2, d0), s);
      HighIds(mem, root, rp, c, t, c2, s);
      TopIds(s.r);
      m1 := LeavePlace(node, subst, temp, Append(c2, d0), s);
      ZipAppend(m1, root, rp, c2, d0, s.r);
      ZipUp(m1, root, rp, d0, Plug(c2, s.r));
      ChildrenNil(m1, root, rp, c, t.(r := Plug(c2, s.r)));
    }

    /** Lines 141-197 for a node with two children: `subst`, the least node of its right subtree,
        leaves its place to `temp` and takes the node's. */
    method SwapOut(node: Ref, subst: Ref, temp: Ref, ghost c: Ctx, ghost t: Tree, ghost c2: Ctx, ghost s: Tree)
      requires Holds(c, t) && t.Node? && t.id == node && t.r == Plug(c2, s)
      requires s.Node? && s.id == subst && s.l.Leaf? && temp == RootId(s.r)
      requires Holds(Append(c2, RightCtx(c, t)), s)
      modifies `mem, `root
      ensures var d := Append(c2, Frame(false, s.id, t.red, t.l, c));
        && Holds(d, s.r) && TempAt(mem, temp, d, s.r) && Ids(s.r) + CIds(d) == Ids(t) + CIds(c) - {node}
      ensures node in mem && mem[node].left == mem[node].right == mem[node].parent == NULL
      ensures forall i ::
        i in old(mem) && i != NIL && i != node && i !in Ids(t) + CIds(c) ==> i in mem && mem[i] == old(mem)[i]
    {
      hide Rep, RepCtx, Sep, SepCtx, HoldsIn, Ids, CIds, RedBlack, InOrder, DelInv, Plug, Append;
      ghost var t1, d := t.(r := Plug(c2, s.r)), Frame(false, subst, t.red, t.l, c);
      AppendTop(c2, d);
      TopIds(s.r);
      NewParent(mem, root, rp, c, t);
      ghost var m1 := TakeOut(node, subst, temp, c, t, c2, s);
      TakePlace(node, subst, m1, c, t1);
      HighWhole(mem, root, rp, c, t1.(id := subst), c2, s.r);
      HighNear(mem, root, rp, c, t1.(id := subst), c2, s.r);
      NewParent(mem, root, rp, Append(c2, d), s.r);
    }

    method DeleteHigh(node: Ref, subst: Ref, temp: Ref, ghost c: Ctx, ghost t: Tree, ghost c2: Ctx, ghost s: Tree)
      returns (ghost whole: Tree)
      requires Holds(c, t) && t.Node? && t.id == node && t.r == Plug(c2, s)
      requires s.Node? && s.id == subst && s.l.Leaf? && temp == RootId(s.r)
      requires Holds(Append(c2, RightCtx(c, t)), s) && RedBlack(Plug(c, t))
      modifies `mem, `root
      ensures Holds(Top, whole) && RedBlack(whole)
      ensures InOrder(whole) == InOrder(Plug(Append(c2, Frame(false, s.id, t.red, t.l, c)), s.r))
      ensures Ids(whole) == Ids(t) + CIds(c) - {node}
      ensures node in mem && mem[node].left == mem[node].right == mem[node].parent == NULL
      ensures forall i ::
        i in old(mem) && i != NIL && i != node && i !in Ids(whole) ==> i in mem && mem[i] == old(mem)[i]
    {
      hide Rep, RepCtx, Sep, SepCtx, HoldsIn, Ids, CIds, RedBlack, InOrder, DelInv, Plug, Append;
      Neighbours(mem, root, rp, Append(c2, RightCtx(c, t)), s);
      NewParent(mem, root, rp, c, t);
      var red := mem[subst].red;
      SwapOut(node, subst, temp, c, t, c2, s);
      HighColours(c, t, c2, s);
      TopIds(s.r);
      assert node !in Ids(s.r) + CIds(Append(c2, Frame(false, s.id, t.red, t.l, c)));
      whole := FinishDelete(temp, red, Append(c2, Frame(false, s.id, t.red, t.l, c)), s.r);
    }

    /** Lines 128-139: the root, with at most one child, gives way to it. */
    method DropRoot(node: Ref, temp: Ref, ghost c: Ctx, ghost t: Tree)
      requires Valid() && Holds(c, t) && t.Node? && node == t.id == root && Plug(c, t) == tree && node in Ids(tree)
      requires (t.l.Leaf? || t.r.Leaf?) && temp == RootId(OnlyChild(t))
      modifies this
      ensures Valid() && Ids(tree) == Ids(old(tree)) - {node}
      ensures var k := |Pre(c)| + |InOrder(t.l)|; var was := InOrder(old(tree));
        k < |was| && was[k] == node && InOrder(tree) == was[..k] + was[k + 1..]
      ensures rp == if OnlyChild(t).Node? then node else old(rp)
      ensures node in mem && mem[node].left == mem[node].right == mem[node].parent == NULL
      ensures forall i :: i in old(mem) && i != NIL && i !in Ids(old(tree)) ==> i in mem && mem[i] == old(mem)[i]
    {
      hide Rep, RepCtx, Sep, SepCtx, HoldsIn, Ids, CIds, RedBlack, InOrder, Plug, Sorted, Append;
      Neighbours(mem, root, rp, c, t);
      PlugIds(c, t);
      NewParent(mem, root, rp, c, t);
      RootGone(mem, root, rp, c, t);
      TopIds(t);
      TopIds(OnlyChild(t));
      SplicedOrder(c, t);
      SplicedColours(c, t);
      PaintSame(OnlyChild(t), false);
      SortedWithout(key, InOrder(tree), |Pre(c)| + |InOrder(t.l)|);
      root := temp;
      mem := SetRed(mem, temp, false);
      mem := mem[node := mem[node].(left := NULL, right := NULL, parent := NULL)];
      if OnlyChild(t).Node? {
        rp := node;
      }
      tree := Paint(OnlyChild(t), false);
    }

    /** Lines 106-126: the node that leaves its place, and the child that takes that over. */
    method Substitute(node: Ref, ghost c: Ctx, ghost t: Tree)
      returns (subst: Ref, temp: Ref, ghost c2: Ctx, ghost s: Tree)
      requires Holds(c, t) && t.Node? && node == t.id
      ensures t.l.Leaf? || t.r.Leaf? ==> subst == node && temp == RootId(OnlyChild(t))
      ensures !(t.l.Leaf? || t.r.Leaf?) ==> t.r == Plug(c2, s) && s.Node? && s.id == subst && s.l.Leaf? && Pre(c2) == []
      ensures !(t.l.Leaf? || t.r.Leaf?) ==> temp == RootId(s.r) && Holds(Append(c2, RightCtx(c, t)), s) && subst != root
      ensures !(t.l.Leaf? || t.r.Leaf?) ==> subst != node
    {
      hide Rep, RepCtx, Sep, SepCtx, HoldsIn, Ids, CIds, Plug, Append, InOrder;
      Neighbours(mem, root, rp, c, t);
      ChildrenNil(mem, root, rp, c, t);
      c2, s := Top, Leaf;
      if mem[node].left == NIL {
        return node, mem[node].right, c2, s;
      }
      if mem[node].right == NIL {
        return node, mem[node].left, c2, s;
      }
      ZipRight(mem, root, rp, c, t);
      subst, c2, s := MinBelow(mem[node].right, RightCtx(c, t), t.r);
      AppendTop(c2, RightCtx(c, t));
      Neighbours(mem, root, rp, Append(c2, RightCtx(c, t)), s);
      HighIds(mem, root, rp, c, t, c2, s);
      var low := mem[subst];
      temp := if low.left != NIL then low.left else low.right;
    }

    /** yf_rbtree_delete. The in-order sequence loses exactly `node`. The root's parent field goes
        stale exactly when a tree of two nodes loses its root. */
    method Delete(node: Ref) returns (ghost k: nat)
      requires Valid() && node in Ids(tree)
      modifies this
      ensures Valid()
      ensures k < |InOrder(old(tree))| && InOrder(old(tree))[k] == node
      ensures InOrder(tree) == InOrder(old(tree))[..k] + InOrder(old(tree))[k + 1..]
      ensures Ids(tree) == Ids(old(tree)) - {node}
      ensures rp == if node == old(root) && |InOrder(old(tree))| == 2 then node else old(rp)
      ensures node in mem && mem[node].left == mem[node].right == mem[node].parent == NULL
      ensures forall i :: i in old(mem) && i != NIL && i !in Ids(old(tree)) ==> i in mem && mem[i] == old(mem)[i]
    {
      hide Rep, RepCtx, Sep, SepCtx, HoldsIn, Ids, CIds, RedBlack, InOrder, Plug, Sorted, Append;
      Inhabited(tree, node);
      LoneChild(tree);
      ghost var c, t := Focus(tree, node);
      TopIds(t);
      ZipAll(mem, root, rp, c, t);
      Neighbours(mem, root, rp, c, t);
      ChildrenNil(mem, root, rp, c, t);
      PlugIds(c, t);
      k := |Pre(c)| + |InOrder(t.l)|;
      var subst, temp;
      ghost var c2, s;
      subst, temp, c2, s := Substitute(node, c, t);
      if subst == root {
        DropRoot(node, temp, c, t);
        return;
      }
      if subst == node {
        SplicedOrder(c, t);
        SortedWithout(key, InOrder(tree), k);
        tree := DeleteLow(node, temp, c, t);
      } else {
        ReplacedOrder(c, t, c2, s);
        SortedWithout(key, InOrder(tree), k);
        tree := DeleteHigh(node, subst, temp, c, t, c2, s);
      }
    }
  }
}
