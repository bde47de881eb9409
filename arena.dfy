/** How the heap of `Node`s stores a `Tree`.  The source allocates every node with
    `new` and links them with raw pointers; here the nodes live in a sequence and a
    pointer is an index into it.  Index 0 is the shared black sentinel `TNULL`, and
    -1 is the null pointer (the root's parent, the sentinel's children). */
module Arena {
  import opened StringOrder
  import opened PlateList
  import opened RbTree

  /** `struct Node` of the source. */
  datatype Node = Node(plateNum: string, isCustom: bool, color: Color, left: int, right: int, parent: int)

  const TNULL: int := 0
  const NIL: int := -1

  /** The sentinel's fixed fields: no plate, black, no children.  Its parent
      pointer is scratch space that `transplant` and `deleteNodeHelper` write. */
  predicate Sentinel(n: Node)
  {
    n.plateNum == "" && !n.isCustom && n.color == Black && n.left == NIL && n.right == NIL
  }

  /** Two heaps of the same size hold the same plates and flags at every index:
      only links and colours differ. */
  predicate SamePayload(ns: seq<Node>, ns': seq<Node>)
  {
    |ns'| == |ns| &&
    forall i :: 0 <= i < |ns| ==> ns'[i].plateNum == ns[i].plateNum && ns'[i].isCustom == ns[i].isCustom
  }

  /** The node at index `i` carries the payload and colour of the tree node whose
      id is `i`, and its parent pointer is `p`. */
  predicate Holds(ns: seq<Node>, i: int, plate: string, isCustom: bool, color: Color, p: int)
  {
    0 < i < |ns| && ns[i].plateNum == plate && ns[i].isCustom == isCustom &&
    ns[i].color == color && ns[i].parent == p
  }

  /** `ns` stores the subtree `t` with its root at index `n` and the root's parent
      pointer equal to `p`.  An empty subtree is the sentinel. */
  predicate Encodes(ns: seq<Node>, t: Tree, n: int, p: int)
    decreases t
  {
    if t.Leaf? then n == TNULL
    else
      n == t.id && Holds(ns, n, t.plate, t.isCustom, t.color, p) &&
      Encodes(ns, t.left, ns[n].left, n) && Encodes(ns, t.right, ns[n].right, n)
  }

  /** `ns` stores the path `ctx` above a subtree whose root is at index `n`, and
      `root` is the top of the path. */
  predicate EncCtx(ns: seq<Node>, ctx: seq<Frame>, n: int, root: int)
    decreases |ctx|
  {
    if ctx == [] then n == root
    else
      var f := ctx[0];
      Holds(ns, f.id, f.plate, f.isCustom, f.color, ParentId(ctx[1..])) &&
      (if f.side == Left then ns[f.id].left == n && Encodes(ns, f.sibling, ns[f.id].right, f.id)
       else ns[f.id].right == n && Encodes(ns, f.sibling, ns[f.id].left, f.id)) &&
      EncCtx(ns, ctx[1..], f.id, root)
  }

  /** `ns` and `ns'` hold the same node at every index of `s`. */
  predicate Agree(ns: seq<Node>, ns': seq<Node>, s: set<nat>)
  {
    forall i :: i in s && i < |ns| ==> i < |ns'| && ns'[i] == ns[i]
  }

  lemma {:induction false} EncodesIds(ns: seq<Node>, t: Tree, n: int, p: int)
    requires Encodes(ns, t, n, p)
    ensures n == Id(t)
    ensures forall i :: i in Ids(t) ==> 0 < i < |ns|
    decreases t
  {
    if t.Branch? {
      EncodesIds(ns, t.left, ns[n].left, n);
      EncodesIds(ns, t.right, ns[n].right, n);
    }
  }

  lemma {:induction false} EncCtxIds(ns: seq<Node>, ctx: seq<Frame>, n: int, root: int)
    requires EncCtx(ns, ctx, n, root)
    ensures forall i :: i in CtxIds(ctx) ==> 0 < i < |ns|
    decreases |ctx|
  {
    if ctx != [] {
      var f := ctx[0];
      if f.side == Left {
        EncodesIds(ns, f.sibling, ns[f.id].right, f.id);
      } else {
        EncodesIds(ns, f.sibling, ns[f.id].left, f.id);
      }
      EncCtxIds(ns, ctx[1..], f.id, root);
    }
  }

  lemma AgreeSubset(ns: seq<Node>, ns': seq<Node>, s: set<nat>, s': set<nat>)
    requires Agree(ns, ns', s) && s' <= s
    ensures Agree(ns, ns', s')
  {
  }

  /** Changing nodes outside a subtree does not disturb how it is stored. */
  lemma {:induction false} EncodesFrame(ns: seq<Node>, ns': seq<Node>, t: Tree, n: int, p: int)
    requires Encodes(ns, t, n, p) && Agree(ns, ns', Ids(t))
    ensures Encodes(ns', t, n, p)
    decreases t
  {
    if t.Branch? {
      EncodesFrame(ns, ns', t.left, ns[n].left, n);
      EncodesFrame(ns, ns', t.right, ns[n].right, n);
    }
  }

  lemma {:induction false} EncCtxFrame(ns: seq<Node>, ns': seq<Node>, ctx: seq<Frame>, n: int, root: int)
    requires EncCtx(ns, ctx, n, root) && Agree(ns, ns', CtxIds(ctx))
    ensures EncCtx(ns', ctx, n, root)
    decreases |ctx|
  {
    if ctx != [] {
      var f := ctx[0];
      if f.side == Left {
        EncodesFrame(ns, ns', f.sibling, ns[f.id].right, f.id);
      } else {
        EncodesFrame(ns, ns', f.sibling, ns[f.id].left, f.id);
      }
      EncCtxFrame(ns, ns', ctx[1..], f.id, root);
    }
  }

  /** The whole tree is stored exactly when the subtree at the hole is stored
      (with its parent pointer naming the innermost frame) and the path above it
      is stored. */
  lemma {:induction false} Decompose(ns: seq<Node>, ctx: seq<Frame>, t: Tree, root: int)
    ensures Encodes(ns, Plug(ctx, t), root, NIL) <==>
            Encodes(ns, t, Id(t), ParentId(ctx)) && EncCtx(ns, ctx, Id(t), root)
    decreases |ctx|
  {
    if ctx == [] {
      if Encodes(ns, t, root, NIL) {
        EncodesIds(ns, t, root, NIL);
      }
    } else {
      var f := ctx[0];
      var w := Wrap(f, t);
      Decompose(ns, ctx[1..], w, root);
      if Encodes(ns, w, f.id, ParentId(ctx[1..])) {
        if f.side == Left {
          EncodesIds(ns, t, ns[f.id].left, f.id);
        } else {
          EncodesIds(ns, t, ns[f.id].right, f.id);
        }
      }
    }
  }

  /** Re-pointing the parent pointer of a stored subtree's root. */
  lemma Reparent(ns: seq<Node>, ns': seq<Node>, t: Tree, n: int, p: int, q: int)
    requires Encodes(ns, t, n, p) && Distinct(t) && t.Branch?
    requires n < |ns'| && ns'[n] == ns[n].(parent := q)
    requires Agree(ns, ns', Ids(t) - {n})
    ensures Encodes(ns', t, n, q)
  {
    assert n == t.id;
    AgreeSubset(ns, ns', Ids(t) - {n}, Ids(t.left));
    AgreeSubset(ns, ns', Ids(t) - {n}, Ids(t.right));
    EncodesFrame(ns, ns', t.left, ns[n].left, n);
    EncodesFrame(ns, ns', t.right, ns[n].right, n);
  }

  /** Re-pointing the innermost frame's child pointer on the side of the hole. */
  lemma Relink(ns: seq<Node>, ns': seq<Node>, ctx: seq<Frame>, n: int, n': int, root: int)
    requires ctx != [] && EncCtx(ns, ctx, n, root) && Distinct(Plug(ctx, Leaf))
    requires ctx[0].id < |ns'|
    requires ns'[ctx[0].id] == if ctx[0].side == Left then ns[ctx[0].id].(left := n')
                               else ns[ctx[0].id].(right := n')
    requires Agree(ns, ns', CtxIds(ctx) - {ctx[0].id})
    ensures EncCtx(ns', ctx, n', root)
  {
    var f := ctx[0];
    DistinctPlug(ctx[1..], Wrap(f, Leaf));
    IdsPlug(ctx[1..], Leaf);
    assert Ids(Wrap(f, Leaf)) == Ids(f.sibling) + {f.id};
    assert f.id !in Ids(f.sibling);
    assert CtxIds(ctx) == {f.id} + Ids(f.sibling) + CtxIds(ctx[1..]);
    assert f.id !in CtxIds(ctx[1..]);
    assert Agree(ns, ns', Ids(f.sibling)) by {
      forall i | i in Ids(f.sibling) && i < |ns| ensures i < |ns'| && ns'[i] == ns[i] {
        assert i in CtxIds(ctx) - {f.id};
      }
    }
    assert Agree(ns, ns', CtxIds(ctx[1..])) by {
      forall i | i in CtxIds(ctx[1..]) && i < |ns| ensures i < |ns'| && ns'[i] == ns[i] {
        assert i in CtxIds(ctx) - {f.id};
      }
    }
    if f.side == Left {
      EncodesFrame(ns, ns', f.sibling, ns[f.id].right, f.id);
    } else {
      EncodesFrame(ns, ns', f.sibling, ns[f.id].left, f.id);
    }
    EncCtxFrame(ns, ns', ctx[1..], f.id, root);
  }

  /** Storing a recoloured node: only the node's own colour field changes. */
  lemma Recolor(ns: seq<Node>, ctx: seq<Frame>, t: Tree, c: Color, root: int)
    requires Encodes(ns, Plug(ctx, t), root, NIL) && Distinct(Plug(ctx, t)) && t.Branch? && t.id < |ns|
    ensures Encodes(ns[t.id := ns[t.id].(color := c)], Plug(ctx, t.(color := c)), root, NIL)
  {
    var ns' := ns[t.id := ns[t.id].(color := c)];
    Decompose(ns, ctx, t, root);
    DistinctPlug(ctx, t);
    assert t.id !in CtxIds(ctx);
    EncodesFrame(ns, ns', t.left, ns[t.id].left, t.id);
    EncodesFrame(ns, ns', t.right, ns[t.id].right, t.id);
    EncCtxFrame(ns, ns', ctx, t.id, root);
    Decompose(ns', ctx, t.(color := c), root);
  }

  /** What `leftRotate(x)` leaves in the heap, node by node: `x` takes `y`'s left
      subtree `b` and hangs below `y`; `y` takes `x`'s place under `x`'s parent (or
      becomes the root); `b`'s parent pointer is moved to `x` unless `b` is the
      sentinel. */
  predicate LeftRotated(ns: seq<Node>, ns': seq<Node>, root: int, root': int, x: int, y: int, b: int, p: int)
  {
    0 < x < |ns| && 0 < y < |ns| && 0 <= b < |ns| && (p == NIL || 0 < p < |ns|) &&
    |ns'| == |ns| &&
    ns'[x] == ns[x].(right := b, parent := y) &&
    ns'[y] == ns[y].(left := x, parent := p) &&
    (b != TNULL ==> ns'[b] == ns[b].(parent := x)) &&
    (p == NIL ==> root' == y) &&
    (p != NIL ==> root' == root &&
                  ns'[p] == if ns[p].left == x then ns[p].(left := y) else ns[p].(right := y)) &&
    (forall i :: 0 <= i < |ns| && i != x && i != y && i != p && (b == TNULL || i != b) ==> ns'[i] == ns[i])
  }

  /** The mirror image: `rightRotate(x)`. */
  predicate RightRotated(ns: seq<Node>, ns': seq<Node>, root: int, root': int, x: int, y: int, b: int, p: int)
  {
    0 < x < |ns| && 0 < y < |ns| && 0 <= b < |ns| && (p == NIL || 0 < p < |ns|) &&
    |ns'| == |ns| &&
    ns'[x] == ns[x].(left := b, parent := y) &&
    ns'[y] == ns[y].(right := x, parent := p) &&
    (b != TNULL ==> ns'[b] == ns[b].(parent := x)) &&
    (p == NIL ==> root' == y) &&
    (p != NIL ==> root' == root &&
                  ns'[p] == if ns[p].right == x then ns[p].(right := y) else ns[p].(left := y)) &&
    (forall i :: 0 <= i < |ns| && i != x && i != y && i != p && (b == TNULL || i != b) ==> ns'[i] == ns[i])
  }

  /** The pointers `leftRotate(x)` follows are all in the heap and name distinct
      nodes: `x`, its right child `y`, `y`'s left child `b` and `x`'s parent `p`
      (`b` may be the sentinel, `p` the null pointer). */
  predicate RotatableLeft(ns: seq<Node>, x: int)
  {
    0 < x < |ns| &&
    var y := ns[x].right;
    0 < y < |ns| &&
    var b := ns[y].left;
    var p := ns[x].parent;
    0 <= b < |ns| && (p == NIL || 0 < p < |ns|) &&
    x != y && b != x && b != y && p != x && p != y && (b != TNULL ==> b != p)
  }

  predicate RotatableRight(ns: seq<Node>, x: int)
  {
    0 < x < |ns| &&
    var y := ns[x].left;
    0 < y < |ns| &&
    var b := ns[y].right;
    var p := ns[x].parent;
    0 <= b < |ns| && (p == NIL || 0 < p < |ns|) &&
    x != y && b != x && b != y && p != x && p != y && (b != TNULL ==> b != p)
  }

  /** The heap and the root after the writes of `leftRotate(x)`, one write after
      the other in the order the source performs them.  This is the body of
      `RedBlackTree.LeftRotate` as a value, kept only so that
      `LeftRotationSpec` can state its node-by-node effect. */
  function LeftRotation(ns: seq<Node>, root: int, x: int): (seq<Node>, int)
    requires RotatableLeft(ns, x)
  {
    var y := ns[x].right;
    var n1 := ns[x := ns[x].(right := ns[y].left)];
    var n2 := if n1[y].left != TNULL then n1[n1[y].left := n1[n1[y].left].(parent := x)] else n1;
    var n3 := n2[y := n2[y].(parent := n2[x].parent)];
    var p := n3[x].parent;
    var n4 := if p == NIL then n3
              else if x == n3[p].left then n3[p := n3[p].(left := y)]
              else n3[p := n3[p].(right := y)];
    var n5 := n4[y := n4[y].(left := x)];
    (n5[x := n5[x].(parent := y)], if p == NIL then y else root)
  }

  /** The body of `RedBlackTree.RightRotate` as a value, kept only so that
      `RightRotationSpec` can state its node-by-node effect. */
  function RightRotation(ns: seq<Node>, root: int, x: int): (seq<Node>, int)
    requires RotatableRight(ns, x)
  {
    var y := ns[x].left;
    var n1 := ns[x := ns[x].(left := ns[y].right)];
    var n2 := if n1[y].right != TNULL then n1[n1[y].right := n1[n1[y].right].(parent := x)] else n1;
    var n3 := n2[y := n2[y].(parent := n2[x].parent)];
    var p := n3[x].parent;
    var n4 := if p == NIL then n3
              else if x == n3[p].right then n3[p := n3[p].(right := y)]
              else n3[p := n3[p].(left := y)];
    var n5 := n4[y := n4[y].(right := x)];
    (n5[x := n5[x].(parent := y)], if p == NIL then y else root)
  }

  /** The writes of `leftRotate(x)` have the node-by-node effect `LeftRotated`. */
  lemma LeftRotationSpec(ns: seq<Node>, root: int, x: int)
    requires RotatableLeft(ns, x)
    ensures var r := LeftRotation(ns, root, x);
            LeftRotated(ns, r.0, root, r.1, x, ns[x].right, ns[ns[x].right].left, ns[x].parent)
  {
  }

  lemma RightRotationSpec(ns: seq<Node>, root: int, x: int)
    requires RotatableRight(ns, x)
    ensures var r := RightRotation(ns, root, x);
            RightRotated(ns, r.0, root, r.1, x, ns[x].left, ns[ns[x].left].right, ns[x].parent)
  {
  }

  /** Facts about a stored subtree at the hole of a stored, duplicate-free tree. */
  lemma Focus(ns: seq<Node>, ctx: seq<Frame>, t: Tree, root: int)
    requires Encodes(ns, Plug(ctx, t), root, NIL) && Distinct(Plug(ctx, t))
    ensures Encodes(ns, t, Id(t), ParentId(ctx)) && EncCtx(ns, ctx, Id(t), root)
    ensures Distinct(t) && Ids(t) !! CtxIds(ctx) && Distinct(Plug(ctx, Leaf))
    ensures forall i :: i in Ids(t) ==> 0 < i < |ns|
    ensures forall i :: i in CtxIds(ctx) ==> 0 < i < |ns|
    ensures ctx != [] ==> ctx[0].id in CtxIds(ctx)
  {
    Decompose(ns, ctx, t, root);
    DistinctPlug(ctx, t);
    EncodesIds(ns, t, Id(t), ParentId(ctx));
    EncCtxIds(ns, ctx, Id(t), root);
  }

  /** If the hole is not on the left of its parent, the parent's left pointer does
      not point at the subtree in the hole. */
  lemma SideOfHole(ns: seq<Node>, ctx: seq<Frame>, n: int, root: int)
    requires ctx != [] && EncCtx(ns, ctx, n, root) && n > 0 && n !in CtxIds(ctx)
    ensures ns[ctx[0].id].left == n <==> ctx[0].side == Left
    ensures ns[ctx[0].id].right == n <==> ctx[0].side == Right
  {
    var f := ctx[0];
    if f.side == Left {
      EncodesIds(ns, f.sibling, ns[f.id].right, f.id);
    } else {
      EncodesIds(ns, f.sibling, ns[f.id].left, f.id);
    }
  }

  /** The subtree `leftRotate` rebuilds is stored, hanging from `x`'s old parent. */
  lemma RotateLeftFocus(ns: seq<Node>, ns': seq<Node>, ctx: seq<Frame>, t: Tree, root: int, root': int)
    requires Encodes(ns, Plug(ctx, t), root, NIL) && Distinct(Plug(ctx, t))
    requires t.Branch? && t.right.Branch?
    requires LeftRotated(ns, ns', root, root', t.id, t.right.id, Id(t.right.left), ParentId(ctx))
    ensures Encodes(ns', RotateLeft(t), t.right.id, ParentId(ctx))
  {
    var x, y := t.id, t.right.id;
    var a, b, c := t.left, t.right.left, t.right.right;
    var p := ParentId(ctx);
    Focus(ns, ctx, t, root);
    assert Ids(t) == Ids(a) + {x} + (Ids(b) + {y} + Ids(c));
    assert Distinct(t.right);
    assert Encodes(ns, t.right, y, x);
    EncodesIds(ns, a, ns[x].left, x);
    EncodesIds(ns, b, ns[y].left, y);
    EncodesIds(ns, c, ns[y].right, y);
    assert p != NIL ==> p in CtxIds(ctx);
    EncodesFrame(ns, ns', a, Id(a), x);
    if b.Branch? {
      Reparent(ns, ns', b, Id(b), y, x);
    }
    EncodesFrame(ns, ns', c, Id(c), y);
    var x' := Branch(x, t.color, t.plate, t.isCustom, a, b);
    assert Encodes(ns', x', x, y);
    assert Encodes(ns', RotateLeft(t), y, p);
  }

  lemma RotateLeftStored(ns: seq<Node>, ns': seq<Node>, ctx: seq<Frame>, t: Tree, root: int, root': int)
    requires Encodes(ns, Plug(ctx, t), root, NIL) && Distinct(Plug(ctx, t))
    requires t.Branch? && t.right.Branch?
    requires LeftRotated(ns, ns', root, root', t.id, t.right.id, Id(t.right.left), ParentId(ctx))
    ensures Encodes(ns', Plug(ctx, RotateLeft(t)), root', NIL)
  {
    var x, y := t.id, t.right.id;
    Focus(ns, ctx, t, root);
    RotateLeftFocus(ns, ns', ctx, t, root, root');
    if ctx != [] {
      SideOfHole(ns, ctx, x, root);
      Relink(ns, ns', ctx, x, y, root);
    }
    Decompose(ns', ctx, RotateLeft(t), root');
  }

  /** The mirror image for `rightRotate`. */
  lemma RotateRightFocus(ns: seq<Node>, ns': seq<Node>, ctx: seq<Frame>, t: Tree, root: int, root': int)
    requires Encodes(ns, Plug(ctx, t), root, NIL) && Distinct(Plug(ctx, t))
    requires t.Branch? && t.left.Branch?
    requires RightRotated(ns, ns', root, root', t.id, t.left.id, Id(t.left.right), ParentId(ctx))
    ensures Encodes(ns', RotateRight(t), t.left.id, ParentId(ctx))
  {
    var x, y := t.id, t.left.id;
    var a, b, c := t.left.left, t.left.right, t.right;
    var p := ParentId(ctx);
    Focus(ns, ctx, t, root);
    assert Ids(t) == (Ids(a) + {y} + Ids(b)) + {x} + Ids(c);
    assert Distinct(t.left);
    assert Encodes(ns, t.left, y, x);
    EncodesIds(ns, a, ns[y].left, y);
    EncodesIds(ns, b, ns[y].right, y);
    EncodesIds(ns, c, ns[x].right, x);
    assert p != NIL ==> p in CtxIds(ctx);
    EncodesFrame(ns, ns', c, Id(c), x);
    if b.Branch? {
      Reparent(ns, ns', b, Id(b), y, x);
    }
    EncodesFrame(ns, ns', a, Id(a), y);
    var x' := Branch(x, t.color, t.plate, t.isCustom, b, c);
    assert Encodes(ns', x', x, y);
    assert Encodes(ns', RotateRight(t), y, p);
  }

  lemma RotateRightStored(ns: seq<Node>, ns': seq<Node>, ctx: seq<Frame>, t: Tree, root: int, root': int)
    requires Encodes(ns, Plug(ctx, t), root, NIL) && Distinct(Plug(ctx, t))
    requires t.Branch? && t.left.Branch?
    requires RightRotated(ns, ns', root, root', t.id, t.left.id, Id(t.left.right), ParentId(ctx))
    ensures Encodes(ns', Plug(ctx, RotateRight(t)), root', NIL)
  {
    var x, y := t.id, t.left.id;
    Focus(ns, ctx, t, root);
    RotateRightFocus(ns, ns', ctx, t, root, root');
    if ctx != [] {
      SideOfHole(ns, ctx, x, root);
      Relink(ns, ns', ctx, x, y, root);
    }
    Decompose(ns', ctx, RotateRight(t), root');
  }

  /** What `transplant(u, v)` leaves in the heap: `u`'s parent (or the root) now
      points at `v`, and `v`'s parent pointer is `u`'s parent, even when `v` is the
      sentinel. */
  predicate Transplanted(ns: seq<Node>, ns': seq<Node>, root: int, root': int, u: int, v: int, p: int)
  {
    0 <= v < |ns| && (p == NIL || 0 < p < |ns|) &&
    |ns'| == |ns| &&
    ns'[v] == ns[v].(parent := p) &&
    (p == NIL ==> root' == v) &&
    (p != NIL ==> root' == root &&
                  ns'[p] == if ns[p].left == u then ns[p].(left := v) else ns[p].(right := v)) &&
    (forall i :: 0 <= i < |ns| && i != v && i != p ==> ns'[i] == ns[i])
  }

  /** After `transplant(u, v)` the tree stored is the old path with `v`'s subtree
      in the hole where `u` was. */
  lemma TransplantStored(ns: seq<Node>, ns': seq<Node>, ctx: seq<Frame>, u: int, tv: Tree, v: int, q: int,
                         root: int, root': int)
    requires EncCtx(ns, ctx, u, root) && Distinct(Plug(ctx, Leaf)) && u > 0 && u !in CtxIds(ctx)
    requires Encodes(ns, tv, v, q) && Distinct(tv) && Ids(tv) !! CtxIds(ctx)
    requires Transplanted(ns, ns', root, root', u, v, ParentId(ctx))
    ensures Encodes(ns', Plug(ctx, tv), root', NIL)
  {
    var p := ParentId(ctx);
    EncodesIds(ns, tv, v, q);
    EncCtxIds(ns, ctx, u, root);
    assert p != NIL ==> p in CtxIds(ctx);
    if tv.Branch? {
      Reparent(ns, ns', tv, v, q, p);
    }
    if ctx != [] {
      SideOfHole(ns, ctx, u, root);
      Relink(ns, ns', ctx, u, v, root);
    }
    Decompose(ns', ctx, tv, root');
  }

  /** The pointer facts `leftRotate(x)` relies on: `x` and its right child `y` are
      real nodes, `y`'s left child `b` and `x`'s parent `p` are distinct from them,
      and `p`, if any, has `x` as a child. */
  lemma RotateLeftPre(ns: seq<Node>, ctx: seq<Frame>, t: Tree, root: int)
    requires Encodes(ns, Plug(ctx, t), root, NIL) && Distinct(Plug(ctx, t))
    requires t.Branch? && t.right.Branch?
    ensures RotatableLeft(ns, t.id)
    ensures ns[t.id].right == t.right.id && ns[t.right.id].left == Id(t.right.left) &&
            ns[t.id].parent == ParentId(ctx)
  {
    Focus(ns, ctx, t, root);
    assert Encodes(ns, t.right, t.right.id, t.id);
    EncodesIds(ns, t.right.left, ns[t.right.id].left, t.right.id);
    assert ParentId(ctx) != NIL ==> ParentId(ctx) in CtxIds(ctx);
    assert Ids(t) == Ids(t.left) + {t.id} + (Ids(t.right.left) + {t.right.id} + Ids(t.right.right));
  }

  lemma RotateRightPre(ns: seq<Node>, ctx: seq<Frame>, t: Tree, root: int)
    requires Encodes(ns, Plug(ctx, t), root, NIL) && Distinct(Plug(ctx, t))
    requires t.Branch? && t.left.Branch?
    ensures RotatableRight(ns, t.id)
    ensures ns[t.id].left == t.left.id && ns[t.left.id].right == Id(t.left.right) &&
            ns[t.id].parent == ParentId(ctx)
  {
    Focus(ns, ctx, t, root);
    assert Encodes(ns, t.left, t.left.id, t.id);
    EncodesIds(ns, t.left.right, ns[t.left.id].right, t.left.id);
    assert ParentId(ctx) != NIL ==> ParentId(ctx) in CtxIds(ctx);
    assert Ids(t) == (Ids(t.left.left) + {t.left.id} + Ids(t.left.right)) + {t.id} + Ids(t.right);
  }

  /** A rotation relinks real nodes only: the sentinel is left alone. */
  lemma RotatedSentinel(ns: seq<Node>, ns': seq<Node>, root: int, root': int, x: int, y: int, b: int, p: int)
    requires LeftRotated(ns, ns', root, root', x, y, b, p) || RightRotated(ns, ns', root, root', x, y, b, p)
    ensures ns'[TNULL] == ns[TNULL]
  {
  }
}
