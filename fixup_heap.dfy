/** The heap side of the two fix-up loops: what the loops read through parent
    pointers, and what the repaintings of `insertFix` and `deleteFix` leave in the
    heap, stated on the zipper of module `Balance`. */
module FixupHeap {
  import opened PlateList
  import opened RbTree
  import opened Arena
  import opened Balance

  /** The top of a non-empty path is the root. */
  lemma {:induction false} EncCtxTop(ns: seq<Node>, ctx: seq<Frame>, n: int, root: int)
    requires EncCtx(ns, ctx, n, root) && ctx != []
    ensures root in CtxIds(ctx)
    decreases |ctx|
  {
    if ctx[1..] != [] {
      EncCtxTop(ns, ctx[1..], ctx[0].id, root);
    }
  }

  /** Following the parent pointer of a stored node `t`: its parent is the
      innermost frame of the path, which holds the frame's colour and has `t` as
      its child on the frame's side; `t` is the root exactly when the path is
      empty. */
  lemma Upward(ns: seq<Node>, ctx: seq<Frame>, t: Tree, root: int)
    requires Encodes(ns, Plug(ctx, t), root, NIL) && Distinct(Plug(ctx, t)) && t.Branch?
    ensures 0 < t.id < |ns| && ns[t.id].parent == ParentId(ctx) && ns[t.id].color == t.color
    ensures t.id == root <==> ctx == []
    ensures ctx != [] ==> 0 < ctx[0].id < |ns| && ns[ctx[0].id].color == ctx[0].color &&
                          ns[ctx[0].id].parent == ParentId(ctx[1..]) &&
                          (ns[ctx[0].id].left == t.id <==> ctx[0].side == Left) &&
                          (ns[ctx[0].id].right == t.id <==> ctx[0].side == Right)
  {
    Focus(ns, ctx, t, root);
    if ctx != [] {
      EncCtxTop(ns, ctx, t.id, root);
      SideOfHole(ns, ctx, t.id, root);
    }
  }

  /** The uncle of `t`: the grandparent's child on the side away from the parent.
      It reads as red exactly when the uncle subtree has a red root (the sentinel
      is black). */
  lemma Uncle(ns: seq<Node>, ctx: seq<Frame>, t: Tree, root: int)
    requires Encodes(ns, Plug(ctx, t), root, NIL) && Distinct(Plug(ctx, t)) && |ctx| >= 2
    requires |ns| > 0 && Sentinel(ns[TNULL])
    ensures var g := ctx[1].id;
            0 < g < |ns| &&
            var u := if ctx[1].side == Right then ns[g].left else ns[g].right;
            0 <= u < |ns| && (ns[u].color == Red <==> IsRed(ctx[1].sibling)) &&
            (IsRed(ctx[1].sibling) ==> u == ctx[1].sibling.id)
  {
    Focus(ns, ctx, t, root);
    assert EncCtx(ns, ctx[1..], ctx[0].id, root);
    var g := ctx[1].id;
    var u := if ctx[1].side == Right then ns[g].left else ns[g].right;
    assert Encodes(ns, ctx[1].sibling, u, g);
    EncodesIds(ns, ctx[1].sibling, u, g);
  }

  /** Repainting the root of the subtree at the hole keeps the whole tree's
      distinctness. */
  lemma RecolorDistinct(ctx: seq<Frame>, t: Tree, c: Color)
    requires Distinct(Plug(ctx, t)) && t.Branch?
    ensures Distinct(Plug(ctx, t.(color := c)))
    ensures Entries(Plug(ctx, t.(color := c))) == Entries(Plug(ctx, t))
  {
    PaintKeeps(ctx, t, c);
    assert Paint(t, c) == t.(color := c);
  }

  /** Case 1 of `insertFix` in the heap: painting the parent and the uncle black
      and the grandparent red stores the tree with `k` moved up to the
      grandparent. */
  lemma InsertCase1Stored(ns: seq<Node>, ctx: seq<Frame>, t: Tree, root: int)
    requires Encodes(ns, Plug(ctx, t), root, NIL) && Distinct(Plug(ctx, t))
    requires |ctx| >= 2 && IsRed(ctx[1].sibling)
    ensures var p, u, g := ctx[0].id, ctx[1].sibling.id, ctx[1].id;
            0 < p < |ns| && 0 < u < |ns| && 0 < g < |ns| &&
            var ns1 := ns[p := ns[p].(color := Black)];
            var ns2 := ns1[u := ns1[u].(color := Black)];
            var ns3 := ns2[g := ns2[g].(color := Red)];
            Encodes(ns3, Plug(ctx[2..], Case1Focus(ctx, t)), root, NIL)
  {
    Focus(ns, ctx, t, root);
    var f0, f1 := ctx[0], ctx[1];
    assert f1.sibling.id in CtxIds(ctx);
    var w := Wrap(f0, t);
    assert ctx[1..][1..] == ctx[2..];
    Recolor(ns, ctx[1..], w, Black, root);
    RecolorDistinct(ctx[1..], w, Black);
    var ns1 := ns[f0.id := ns[f0.id].(color := Black)];
    var w' := w.(color := Black);
    var sctx := [Frame(if f1.side == Left then Right else Left, f1.id, f1.color, f1.plate, f1.isCustom, w')] + ctx[2..];
    assert sctx[1..] == ctx[2..];
    assert Plug(ctx[1..], w') == Plug(sctx, f1.sibling);
    Recolor(ns1, sctx, f1.sibling, Black, root);
    RecolorDistinct(sctx, f1.sibling, Black);
    var ns2 := ns1[f1.sibling.id := ns1[f1.sibling.id].(color := Black)];
    var g0 := Wrap(f1.(sibling := Paint(f1.sibling, Black)), w');
    assert Plug(sctx, f1.sibling.(color := Black)) == Plug(ctx[2..], g0);
    Recolor(ns2, ctx[2..], g0, Red, root);
    assert g0.(color := Red) == Case1Focus(ctx, t);
  }

  /** Cases 2 and 3 of `insertFix` in the heap, before the rotation: painting the
      parent black and the grandparent red stores `Case3Before` at the
      grandparent. */
  lemma InsertCase3Stored(ns: seq<Node>, ctx: seq<Frame>, t: Tree, root: int)
    requires Encodes(ns, Plug(ctx, t), root, NIL) && Distinct(Plug(ctx, t)) && |ctx| >= 2
    ensures var p, g := ctx[0].id, ctx[1].id;
            0 < p < |ns| && 0 < g < |ns| &&
            var ns1 := ns[p := ns[p].(color := Black)];
            var ns2 := ns1[g := ns1[g].(color := Red)];
            Encodes(ns2, Plug(ctx[2..], Case3Before(ctx, t)), root, NIL) &&
            Distinct(Plug(ctx[2..], Case3Before(ctx, t))) &&
            Entries(Plug(ctx[2..], Case3Before(ctx, t))) == Entries(Plug(ctx, t)) &&
            SamePayload(ns, ns2) && ns2[TNULL] == ns[TNULL]
  {
    Focus(ns, ctx, t, root);
    var f0, f1 := ctx[0], ctx[1];
    var w := Wrap(f0, t);
    assert ctx[1..][1..] == ctx[2..];
    Recolor(ns, ctx[1..], w, Black, root);
    RecolorDistinct(ctx[1..], w, Black);
    var ns1 := ns[f0.id := ns[f0.id].(color := Black)];
    var v := Wrap(f1, w.(color := Black));
    assert Plug(ctx[1..], w.(color := Black)) == Plug(ctx[2..], v);
    Recolor(ns1, ctx[2..], v, Red, root);
    RecolorDistinct(ctx[2..], v, Red);
    assert v.(color := Red) == Case3Before(ctx, t);
  }

  /** Painting the root black at the end of `insertFix`. */
  lemma PaintRootStored(ns: seq<Node>, t: Tree, root: int)
    requires Encodes(ns, t, root, NIL) && Distinct(t) && t.Branch?
    ensures 0 < root < |ns|
    ensures Encodes(ns[root := ns[root].(color := Black)], Paint(t, Black), root, NIL)
    ensures Distinct(Paint(t, Black)) && Entries(Paint(t, Black)) == Entries(t)
    ensures SamePayload(ns, ns[root := ns[root].(color := Black)])
    ensures ns[root := ns[root].(color := Black)][TNULL] == ns[TNULL]
  {
    EncodesIds(ns, t, root, NIL);
    Recolor(ns, [], t, Black, root);
    RecolorDistinct([], t, Black);
  }

  lemma SamePayloadTrans(a: seq<Node>, b: seq<Node>, c: seq<Node>)
    requires SamePayload(a, b) && SamePayload(b, c)
    ensures SamePayload(a, c)
  {
  }

  /** What one round of `insertFix` reads while `k`'s parent is red: the parent
      and grandparent, the side of each link and the uncle's colour. */
  lemma InsertView(ns: seq<Node>, ctx: seq<Frame>, t: Tree, root: int)
    requires Encodes(ns, Plug(ctx, t), root, NIL) && Distinct(Plug(ctx, t))
    requires InsertInv(ctx, t) && ctx != [] && ctx[0].color == Red
    requires |ns| > 0 && Sentinel(ns[TNULL])
    ensures |ctx| >= 2
    ensures var k, p, g := t.id, ctx[0].id, ctx[1].id;
            0 < k < |ns| && 0 < p < |ns| && 0 < g < |ns| &&
            ns[k].parent == p && ns[p].parent == g &&
            (ns[p].left == k <==> ctx[0].side == Left) &&
            (ns[p].right == k <==> ctx[0].side == Right) &&
            (ns[g].right == p <==> ctx[1].side == Right) &&
            0 <= ns[g].left < |ns| && 0 <= ns[g].right < |ns| &&
            (ctx[1].side == Right ==> (ns[ns[g].left].color == Red <==> IsRed(ctx[1].sibling))) &&
            (ctx[1].side == Left ==> (ns[ns[g].right].color == Red <==> IsRed(ctx[1].sibling))) &&
            (IsRed(ctx[1].sibling) ==> ctx[1].sibling.id == if ctx[1].side == Right then ns[g].left else ns[g].right)
  {
    InsertGrandparent(ctx, t);
    Upward(ns, ctx, t, root);
    Upward(ns, ctx[1..], Wrap(ctx[0], t), root);
    Uncle(ns, ctx, t, root);
    var g := ctx[1].id;
    Focus(ns, ctx, t, root);
    assert EncCtx(ns, ctx[1..], ctx[0].id, root);
    if ctx[1].side == Right {
      assert Encodes(ns, ctx[1].sibling, ns[g].left, g);
      EncodesIds(ns, ctx[1].sibling, ns[g].left, g);
    } else {
      assert Encodes(ns, ctx[1].sibling, ns[g].right, g);
      EncodesIds(ns, ctx[1].sibling, ns[g].right, g);
    }
  }

  /** The link step of `addLicence`: the new node `t`, with sentinel children and
      its parent pointer on the last node of the descent, is hung on that node's
      side the descent ended on (or becomes the root of an empty tree); the heap
      then stores the old tree with `t` in the empty spot the descent found. */
  lemma AttachStored(ns: seq<Node>, ns': seq<Node>, ctx: seq<Frame>, t: Tree, root: int, root': int)
    requires Encodes(ns, Plug(ctx, Leaf), root, NIL) && Distinct(Plug(ctx, Leaf))
    requires t.Branch? && t.left.Leaf? && t.right.Leaf?
    requires 0 < t.id < |ns| && t.id !in Ids(Plug(ctx, Leaf))
    requires |ns'| == |ns| && ns'[t.id] == Node(t.plate, t.isCustom, t.color, TNULL, TNULL, ParentId(ctx))
    requires ctx == [] ==> root' == t.id
    requires ctx != [] ==> root' == root && ctx[0].id < |ns| &&
                           ns'[ctx[0].id] == if ctx[0].side == Left then ns[ctx[0].id].(left := t.id)
                                             else ns[ctx[0].id].(right := t.id)
    requires forall i :: 0 <= i < |ns| && i != t.id && i != ParentId(ctx) ==> ns'[i] == ns[i]
    ensures Encodes(ns', Plug(ctx, t), root', NIL) && Distinct(Plug(ctx, t))
  {
    Focus(ns, ctx, Leaf, root);
    IdsPlug(ctx, Leaf);
    DistinctPlug(ctx, t);
    assert Encodes(ns', t, t.id, ParentId(ctx));
    if ctx != [] {
      Relink(ns, ns', ctx, TNULL, t.id, root);
    }
    Decompose(ns', ctx, t, root');
  }
}
