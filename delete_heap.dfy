/** The heap side of `deleteFix` and `deleteNodeHelper`: what the loop reads
    through the pointers of `x`, its parent and its sibling (`x` may be the
    sentinel, whose parent pointer then says where the removed node was), and
    what each repainting leaves in the heap, stated on the zipper of module
    `Balance`. */
module DeleteHeap {
  import opened PlateList
  import opened RbTree
  import opened Arena
  import opened Balance
  import opened FixupHeap

  /** The loop guard of `deleteFix`: `x` is the root exactly when the path above
      it is empty, and it reads as black exactly when its subtree has no red
      root (the sentinel is black). */
  lemma DeleteGuard(ns: seq<Node>, ctx: seq<Frame>, t: Tree, root: int)
    requires Encodes(ns, Plug(ctx, t), root, NIL) && Distinct(Plug(ctx, t))
    requires |ns| > 0 && Sentinel(ns[TNULL])
    ensures 0 <= Id(t) < |ns|
    ensures Id(t) == root <==> ctx == []
    ensures ns[Id(t)].color == Black <==> !IsRed(t)
  {
    Focus(ns, ctx, t, root);
    if ctx != [] {
      EncCtxTop(ns, ctx, Id(t), root);
    }
  }

  /** What one round of `deleteFix` reads: the parent `p` of `x`, the side `x`
      hangs on, the sibling `s` on the other side, and the colours of `s` and of
      its children, the sentinel reading as black. */
  lemma DeleteView(ns: seq<Node>, ctx: seq<Frame>, t: Tree, root: int)
    requires Encodes(ns, Plug(ctx, t), root, NIL) && Distinct(Plug(ctx, t))
    requires |ns| > 0 && Sentinel(ns[TNULL])
    requires ctx != [] && ctx[0].sibling.Branch?
    ensures var p, s := ctx[0].id, ctx[0].sibling;
            0 < p < |ns| && ns[p].color == ctx[0].color &&
            (ns[p].left == Id(t) <==> ctx[0].side == Left) &&
            (if ctx[0].side == Left then ns[p].right else ns[p].left) == s.id &&
            0 < s.id < |ns| && ns[s.id].color == s.color &&
            ns[s.id].left == Id(s.left) && ns[s.id].right == Id(s.right) &&
            0 <= Id(s.left) < |ns| && 0 <= Id(s.right) < |ns| &&
            (ns[Id(s.left)].color == Black <==> !IsRed(s.left)) &&
            (ns[Id(s.right)].color == Black <==> !IsRed(s.right))
  {
    Focus(ns, ctx, t, root);
    var f, s := ctx[0], ctx[0].sibling;
    var sid := if f.side == Left then ns[f.id].right else ns[f.id].left;
    assert Encodes(ns, s, sid, f.id);
    EncodesIds(ns, s.left, ns[s.id].left, s.id);
    EncodesIds(ns, s.right, ns[s.id].right, s.id);
    assert s.id in CtxIds(ctx);
  }

  /** Case 1 of `deleteFix` in the heap, before the rotation: painting the red
      sibling black and the parent red stores `DCase1Before` at the parent. */
  lemma DCase1Stored(ns: seq<Node>, ctx: seq<Frame>, t: Tree, root: int)
    requires Encodes(ns, Plug(ctx, t), root, NIL) && Distinct(Plug(ctx, t))
    requires ctx != [] && ctx[0].sibling.Branch?
    ensures var p, s := ctx[0].id, ctx[0].sibling.id;
            0 < p < |ns| && 0 < s < |ns| &&
            var ns1 := ns[s := ns[s].(color := Black)];
            var ns2 := ns1[p := ns1[p].(color := Red)];
            Encodes(ns2, Plug(ctx[1..], DCase1Before(ctx, t)), root, NIL) &&
            Distinct(Plug(ctx[1..], DCase1Before(ctx, t))) &&
            Entries(Plug(ctx[1..], DCase1Before(ctx, t))) == Entries(Plug(ctx, t)) &&
            ns2[TNULL] == ns[TNULL]
  {
    Focus(ns, ctx, t, root);
    var f, s := ctx[0], ctx[0].sibling;
    assert s.id in CtxIds(ctx);
    var sctx := SiblingCtx(ctx, t);
    SiblingPlug(ctx, t, s);
    assert [f.(sibling := s)] + ctx[1..] == ctx;
    Recolor(ns, sctx, s, Black, root);
    RecolorDistinct(sctx, s, Black);
    var ns1 := ns[s.id := ns[s.id].(color := Black)];
    SiblingPlug(ctx, t, s.(color := Black));
    var w := Wrap(f.(sibling := s.(color := Black)), t);
    assert ([f.(sibling := s.(color := Black))] + ctx[1..])[1..] == ctx[1..];
    assert Plug(sctx, s.(color := Black)) == Plug(ctx[1..], w);
    Recolor(ns1, ctx[1..], w, Red, root);
    RecolorDistinct(ctx[1..], w, Red);
    assert w.(color := Red) == DCase1Before(ctx, t);
  }

  /** Case 2 of `deleteFix` in the heap: painting the sibling red stores the
      parent's subtree as `DCase2Focus`, with `x` moved up to the parent. */
  lemma DCase2Stored(ns: seq<Node>, ctx: seq<Frame>, t: Tree, root: int)
    requires Encodes(ns, Plug(ctx, t), root, NIL) && Distinct(Plug(ctx, t))
    requires ctx != [] && ctx[0].sibling.Branch?
    ensures var s := ctx[0].sibling.id;
            0 < s < |ns| &&
            var ns1 := ns[s := ns[s].(color := Red)];
            Encodes(ns1, Plug(ctx[1..], DCase2Focus(ctx, t)), root, NIL) &&
            Distinct(Plug(ctx[1..], DCase2Focus(ctx, t))) &&
            Entries(Plug(ctx[1..], DCase2Focus(ctx, t))) == Entries(Plug(ctx, t)) &&
            ns1[TNULL] == ns[TNULL]
  {
    Focus(ns, ctx, t, root);
    var f, s := ctx[0], ctx[0].sibling;
    assert s.id in CtxIds(ctx);
    var sctx := SiblingCtx(ctx, t);
    SiblingPlug(ctx, t, s);
    assert [f.(sibling := s)] + ctx[1..] == ctx;
    Recolor(ns, sctx, s, Red, root);
    RecolorDistinct(sctx, s, Red);
    SiblingPlug(ctx, t, s.(color := Red));
    assert ([f.(sibling := s.(color := Red))] + ctx[1..])[1..] == ctx[1..];
  }

  /** Case 3 of `deleteFix` in the heap, before the rotation: painting the
      sibling's near child black and the sibling red stores `DCase3Before` in
      the sibling's place. */
  lemma DCase3Stored(ns: seq<Node>, ctx: seq<Frame>, t: Tree, root: int)
    requires Encodes(ns, Plug(ctx, t), root, NIL) && Distinct(Plug(ctx, t))
    requires ctx != [] && ctx[0].sibling.Branch? && Near(ctx[0].side, ctx[0].sibling).Branch?
    ensures var s := ctx[0].sibling;
            var n := Near(ctx[0].side, s).id;
            0 < n < |ns| && 0 < s.id < |ns| &&
            var ns1 := ns[n := ns[n].(color := Black)];
            var ns2 := ns1[s.id := ns1[s.id].(color := Red)];
            Encodes(ns2, Plug(SiblingCtx(ctx, t), DCase3Before(ctx[0].side, s)), root, NIL) &&
            Distinct(Plug(SiblingCtx(ctx, t), DCase3Before(ctx[0].side, s))) &&
            Entries(Plug(SiblingCtx(ctx, t), DCase3Before(ctx[0].side, s))) == Entries(Plug(ctx, t)) &&
            ns2[TNULL] == ns[TNULL]
  {
    var f, s := ctx[0], ctx[0].sibling;
    var side := f.side;
    var sctx := SiblingCtx(ctx, t);
    SiblingPlug(ctx, t, s);
    assert [f.(sibling := s)] + ctx[1..] == ctx;
    var near := Near(side, s);
    PlugDown(sctx, side, s);
    var nctx := [Down(side, s)] + sctx;
    assert Child(side, s) == near;
    Focus(ns, nctx, near, root);
    Recolor(ns, nctx, near, Black, root);
    RecolorDistinct(nctx, near, Black);
    var ns1 := ns[near.id := ns[near.id].(color := Black)];
    var s1 := if side == Left then s.(left := near.(color := Black)) else s.(right := near.(color := Black));
    PlugDown(sctx, side, s1);
    assert Down(side, s1) == Down(side, s) && Child(side, s1) == near.(color := Black);
    Focus(ns1, sctx, s1, root);
    Recolor(ns1, sctx, s1, Red, root);
    RecolorDistinct(sctx, s1, Red);
    assert s1.(color := Red) == DCase3Before(side, s);
  }

  /** The first two repaintings of case 4: the sibling takes the parent's
      colour and the parent turns black. */
  lemma DCase4Repaint(ns: seq<Node>, ctx: seq<Frame>, t: Tree, root: int)
    requires Encodes(ns, Plug(ctx, t), root, NIL) && Distinct(Plug(ctx, t))
    requires ctx != [] && ctx[0].sibling.Branch?
    ensures var p, s := ctx[0].id, ctx[0].sibling;
            0 < p < |ns| && 0 < s.id < |ns| && ns[p].color == ctx[0].color &&
            var ns1 := ns[s.id := ns[s.id].(color := ns[p].color)];
            var ns2 := ns1[p := ns1[p].(color := Black)];
            var c := [ctx[0].(color := Black, sibling := s.(color := ctx[0].color))] + ctx[1..];
            Encodes(ns2, Plug(c, t), root, NIL) && Distinct(Plug(c, t)) &&
            Entries(Plug(c, t)) == Entries(Plug(ctx, t)) && ns2[TNULL] == ns[TNULL]
  {
    Focus(ns, ctx, t, root);
    var f, s := ctx[0], ctx[0].sibling;
    assert s.id in CtxIds(ctx);
    var sctx := SiblingCtx(ctx, t);
    SiblingPlug(ctx, t, s);
    assert [f.(sibling := s)] + ctx[1..] == ctx;
    Recolor(ns, sctx, s, f.color, root);
    RecolorDistinct(sctx, s, f.color);
    var ns1 := ns[s.id := ns[s.id].(color := f.color)];
    var s1 := s.(color := f.color);
    SiblingPlug(ctx, t, s1);
    var w := Wrap(f.(sibling := s1), t);
    assert ([f.(sibling := s1)] + ctx[1..])[1..] == ctx[1..];
    assert Plug(sctx, s1) == Plug(ctx[1..], w);
    Recolor(ns1, ctx[1..], w, Black, root);
    RecolorDistinct(ctx[1..], w, Black);
    var c := [f.(color := Black, sibling := s1)] + ctx[1..];
    assert c[1..] == ctx[1..];
    assert w.(color := Black) == Wrap(c[0], t);
  }

  /** Case 4 of `deleteFix` in the heap, before the rotation: after the sibling
      takes the parent's colour and the parent turns black, the sibling's far
      child turns black too, which stores `DCase4Before` at the parent. */
  lemma DCase4Stored(ns: seq<Node>, ctx: seq<Frame>, t: Tree, root: int)
    requires Encodes(ns, Plug(ctx, t), root, NIL) && Distinct(Plug(ctx, t))
    requires ctx != [] && ctx[0].sibling.Branch? && Far(ctx[0].side, ctx[0].sibling).Branch?
    ensures var p, s := ctx[0].id, ctx[0].sibling.id;
            var r := Far(ctx[0].side, ctx[0].sibling).id;
            0 < p < |ns| && 0 < s < |ns| && 0 < r < |ns| &&
            var ns1 := ns[s := ns[s].(color := ns[p].color)];
            var ns2 := ns1[p := ns1[p].(color := Black)];
            var ns3 := ns2[r := ns2[r].(color := Black)];
            Encodes(ns3, Plug(ctx[1..], DCase4Before(ctx, t)), root, NIL) &&
            Distinct(Plug(ctx[1..], DCase4Before(ctx, t))) &&
            Entries(Plug(ctx[1..], DCase4Before(ctx, t))) == Entries(Plug(ctx, t)) &&
            ns3[TNULL] == ns[TNULL]
  {
    DCase4Repaint(ns, ctx, t, root);
    var f, s := ctx[0], ctx[0].sibling;
    var side := f.side;
    var ns2 := ns[s.id := ns[s.id].(color := ns[f.id].color)][f.id := ns[s.id := ns[s.id].(color := ns[f.id].color)][f.id].(color := Black)];
    var s1 := s.(color := f.color);
    var c := [f.(color := Black, sibling := s1)] + ctx[1..];
    var sctx := SiblingCtx(c, t);
    SiblingPlug(c, t, s1);
    assert [c[0].(sibling := s1)] + c[1..] == c;
    var far := Far(side, s1);
    var fs := Flip(side);
    PlugDown(sctx, fs, s1);
    assert Child(fs, s1) == far;
    var fctx := [Down(fs, s1)] + sctx;
    Focus(ns2, fctx, far, root);
    Recolor(ns2, fctx, far, Black, root);
    RecolorDistinct(fctx, far, Black);
    var s2 := if side == Left then s1.(right := far.(color := Black)) else s1.(left := far.(color := Black));
    PlugDown(sctx, fs, s2);
    assert Down(fs, s2) == Down(fs, s1) && Child(fs, s2) == far.(color := Black);
    SiblingPlug(c, t, s2);
    assert ([c[0].(sibling := s2)] + c[1..])[1..] == ctx[1..];
    assert Wrap(c[0].(sibling := s2), t) == DCase4Before(ctx, t);
  }

  // ----- deleteNodeHelper ------------------------------------------------------

  /** `transplant` changes only the node it moves up and that node's new parent,
      so a subtree holding neither is stored as before. */
  lemma TransplantKeeps(ns: seq<Node>, ns': seq<Node>, root: int, root': int, u: int, v: int, p: int,
                        t: Tree, n: int, q: int)
    requires Transplanted(ns, ns', root, root', u, v, p)
    requires Encodes(ns, t, n, q) && v !in Ids(t) && p !in Ids(t)
    ensures Encodes(ns', t, n, q)
  {
    EncodesIds(ns, t, n, q);
    EncodesFrame(ns, ns', t, n, q);
  }

  /** The path from the root down to the successor of `z` (the leftmost node of
      its right subtree): the left turns below the right child of `z`, the right
      turn out of `z`, then the path down to `z`. */
  function SuccessorPath(zctx: seq<Frame>, z: Tree): seq<Frame>
    requires z.Branch? && z.right.Branch?
  {
    MinPath(z.right) + ([Down(Right, z)] + zctx)
  }

  /** Where `minimum(z->right)` finds the successor: the tree is rebuilt from its
      path and the successor's subtree, and its parent is `z` exactly when it is
      the right child of `z`. */
  lemma SuccessorFocus(ns: seq<Node>, zctx: seq<Frame>, z: Tree, root: int)
    requires Encodes(ns, Plug(zctx, z), root, NIL) && Distinct(Plug(zctx, z))
    requires z.Branch? && z.right.Branch?
    ensures Plug(SuccessorPath(zctx, z), MinNode(z.right)) == Plug(zctx, z)
    ensures Encodes(ns, MinNode(z.right), MinNode(z.right).id, ParentId(SuccessorPath(zctx, z)))
    ensures ParentId(SuccessorPath(zctx, z)) == z.id <==> MinPath(z.right) == []
  {
    var r, m, path := z.right, MinNode(z.right), MinPath(z.right);
    MinPathPlug(r);
    PlugAppend(path, [Down(Right, z)] + zctx, m);
    PlugDown(zctx, Right, z);
    Focus(ns, SuccessorPath(zctx, z), m, root);
    if path != [] {
      IdsPlug(path, m);
      DistinctPlug(zctx, z);
      assert path[0].id in Ids(r);
    }
  }

  /** `y->right = z->right; y->right->parent = y;`: the successor `y`, already cut
      out of the tree, takes over the right subtree of `z`. */
  lemma SpliceRight(ns: seq<Node>, ns': seq<Node>, zctx: seq<Frame>, z: Tree, y: int, root: int)
    requires Encodes(ns, Plug(zctx, z), root, NIL) && Distinct(Plug(zctx, z))
    requires z.Branch? && z.right.Branch? && 0 < y < |ns| && y !in Ids(Plug(zctx, z))
    requires z.id < |ns| && 0 <= ns[z.id].right < |ns| && ns[y].left == TNULL
    requires |ns'| == |ns| && ns'[y] == ns[y].(right := ns[z.id].right)
    requires ns'[ns[z.id].right] == ns[ns[z.id].right].(parent := y)
    requires forall i :: 0 <= i < |ns| && i != y && i != ns[z.id].right ==> ns'[i] == ns[i]
    ensures Encodes(ns', Branch(y, ns[y].color, ns[y].plateNum, ns[y].isCustom, Leaf, z.right), y, ns[y].parent)
    ensures EncCtx(ns', zctx, z.id, root) && ns'[z.id] == ns[z.id]
    ensures Holds(ns', z.id, z.plate, z.isCustom, z.color, ParentId(zctx)) && ns'[z.id].left == Id(z.left)
    ensures Encodes(ns', z.left, ns[z.id].left, z.id)
  {
    Focus(ns, zctx, z, root);
    IdsPlug(zctx, z);
    var r := z.right;
    Reparent(ns, ns', r, r.id, z.id, y);
    EncodesFrame(ns, ns', z.left, ns[z.id].left, z.id);
    EncCtxFrame(ns, ns', zctx, z.id, root);
    EncodesIds(ns, z.left, ns[z.id].left, z.id);
  }

  /** `y->left = z->left; y->left->parent = y; y->color = z->color;`: the
      successor, now in the place of `z`, takes over the left subtree and the
      colour of `z`. */
  lemma AdoptLeft(ns: seq<Node>, ns': seq<Node>, zctx: seq<Frame>, w: Tree, l: Tree, z: int, c: Color, root: int)
    requires Encodes(ns, Plug(zctx, w), root, NIL) && w.Branch? && w.left.Leaf?
    requires Encodes(ns, l, Id(l), z) && l.Branch? && w.id < |ns| && l.id < |ns|
    requires Distinct(Plug(zctx, w.(left := l, color := c)))
    requires |ns'| == |ns| && ns'[w.id] == ns[w.id].(left := l.id, color := c)
    requires ns'[l.id] == ns[l.id].(parent := w.id)
    requires forall i :: 0 <= i < |ns| && i != w.id && i != l.id ==> ns'[i] == ns[i]
    ensures Encodes(ns', Plug(zctx, w.(left := l, color := c)), root, NIL)
  {
    var w' := w.(left := l, color := c);
    Decompose(ns, zctx, w, root);
    DistinctPlug(zctx, w');
    EncodesIds(ns, l, l.id, z);
    Reparent(ns, ns', l, l.id, z, w.id);
    EncodesFrame(ns, ns', w.right, ns[w.id].right, w.id);
    EncCtxFrame(ns, ns', zctx, w.id, root);
    Decompose(ns', zctx, w', root);
  }

  /** The right subtree of a node on a stored path is stored below it. */
  lemma RightStored(ns: seq<Node>, zctx: seq<Frame>, z: Tree, root: int)
    requires Encodes(ns, Plug(zctx, z), root, NIL) && Distinct(Plug(zctx, z)) && z.Branch?
    ensures 0 < z.id < |ns| && Encodes(ns, z.right, ns[z.id].right, z.id)
  {
    Focus(ns, zctx, z, root);
  }

  /** Before `transplant(y, y->right)`: the successor `y` hangs on its path with
      no left child and its right subtree below it, as `transplant` needs. */
  lemma CutPre(ns: seq<Node>, zctx: seq<Frame>, z: Tree, root: int)
    requires Encodes(ns, Plug(zctx, z), root, NIL) && Distinct(Plug(zctx, z))
    requires z.Branch? && z.right.Branch?
    ensures var m, yctx := MinNode(z.right), SuccessorPath(zctx, z);
            Holds(ns, m.id, m.plate, m.isCustom, m.color, ParentId(yctx)) && ns[m.id].left == TNULL &&
            EncCtx(ns, yctx, m.id, root) && Distinct(Plug(yctx, Leaf)) && m.id !in CtxIds(yctx) &&
            Encodes(ns, m.right, ns[m.id].right, m.id) && Distinct(m.right) && Ids(m.right) !! CtxIds(yctx)
  {
    SuccessorFocus(ns, zctx, z, root);
    Focus(ns, SuccessorPath(zctx, z), MinNode(z.right), root);
  }

  /** After `transplant(y, y->right)`: the tree stored is the tree of `z` with
      `y` cut out of its right subtree, `y` itself is unchanged, and the right
      subtree of `y` hangs from the parent `y` had. */
  lemma CutStored(ns: seq<Node>, ns': seq<Node>, zctx: seq<Frame>, z: Tree, root: int, root': int)
    requires Encodes(ns, Plug(zctx, z), root, NIL) && Distinct(Plug(zctx, z))
    requires z.Branch? && z.right.Branch? && MinPath(z.right) != []
    requires Transplanted(ns, ns', root, root', MinNode(z.right).id, Id(MinNode(z.right).right),
                          ParentId(SuccessorPath(zctx, z)))
    requires Encodes(ns', Plug(SuccessorPath(zctx, z), MinNode(z.right).right), root', NIL)
    ensures var m := MinNode(z.right);
            var z1 := z.(right := Plug(MinPath(z.right), m.right));
            Encodes(ns', Plug(zctx, z1), root', NIL) && Distinct(Plug(zctx, z1)) &&
            m.id !in Ids(Plug(zctx, z1)) && z1.right.Branch? &&
            0 < z.id < |ns'| && 0 < ns'[z.id].right < |ns'| && ns'[z.id].right != m.id &&
            0 < m.id < |ns'| && ns'[m.id] == ns[m.id] &&
            (m.right.Leaf? ==> ns'[TNULL].parent == ParentId(SuccessorCtx(zctx, z)))
  {
    var m, path := MinNode(z.right), MinPath(z.right);
    var yctx := SuccessorPath(zctx, z);
    var z1 := z.(right := Plug(path, m.right));
    CutPre(ns, zctx, z, root);
    SuccessorFocus(ns, zctx, z, root);
    RemoveOneChildIds(yctx, m);
    PlugAppend(path, [Down(Right, z)] + zctx, m.right);
    PlugDown(zctx, Right, z1);
    PlugBranch(path[1..], Wrap(path[0], m.right));
    Focus(ns', zctx, z1, root');
    IdsPlug(zctx, z1);
    assert (path + ([Down(Right, z)] + zctx))[0] == path[0];
  }

  /** `x->parent = y` when the successor `y` is the right child of `z`: the
      only change is to the sentinel's scratch parent when `x` is empty, and
      none otherwise. */
  lemma LiftStored(ns: seq<Node>, ns': seq<Node>, zctx: seq<Frame>, z: Tree, root: int)
    requires Encodes(ns, Plug(zctx, z), root, NIL) && Distinct(Plug(zctx, z))
    requires z.Branch? && z.right.Branch? && MinPath(z.right) == []
    requires var y := MinNode(z.right).id;
             0 < y < |ns| && 0 <= ns[y].right < |ns| && ns' == ns[ns[y].right := ns[ns[y].right].(parent := y)]
    ensures var m := MinNode(z.right);
            m == z.right && Plug(MinPath(z.right), m.right) == m.right &&
            Encodes(ns', Branch(m.id, m.color, m.plate, m.isCustom, Leaf, m.right), m.id, ns'[m.id].parent) &&
            EncCtx(ns', zctx, z.id, root) &&
            Holds(ns', z.id, z.plate, z.isCustom, z.color, ParentId(zctx)) && ns'[z.id].left == Id(z.left) &&
            Encodes(ns', z.left, Id(z.left), z.id) &&
            (m.right.Leaf? ==> ns'[TNULL].parent == ParentId(SuccessorCtx(zctx, z)))
  {
    var r := z.right;
    MinPathPlug(r);
    Focus(ns, zctx, z, root);
    EncodesIds(ns, r.right, ns[r.id].right, r.id);
    EncodesFrame(ns, ns', r, r.id, z.id);
    EncodesFrame(ns, ns', z.left, Id(z.left), z.id);
    EncCtxFrame(ns, ns', zctx, z.id, root);
    EncodesIds(ns, z.left, Id(z.left), z.id);
  }

  /** The successor of `z` once detached: no left child, and the right subtree
      of `z` without the successor as its right child. */
  function Detached(z: Tree): (w: Tree)
    requires z.Branch? && z.right.Branch?
    ensures w.Branch? && w.id == MinNode(z.right).id && w.left.Leaf?
  {
    var m := MinNode(z.right);
    Branch(m.id, m.color, m.plate, m.isCustom, Leaf, Plug(MinPath(z.right), m.right))
  }

  /** The detached successor in the place of `z`, with the left subtree and the
      colour of `z`. */
  function Promoted(z: Tree): (w: Tree)
    requires z.Branch? && z.right.Branch?
    ensures w.Branch?
  {
    var m := MinNode(z.right);
    Branch(m.id, z.color, m.plate, m.isCustom, z.left, Plug(MinPath(z.right), m.right))
  }

  /** Before `transplant(z, y)`: the detached successor and the path to `z`
      share no node, as `transplant` needs. */
  lemma MovePre(zctx: seq<Frame>, z: Tree)
    requires Distinct(Plug(zctx, z)) && z.Branch? && z.left.Branch? && z.right.Branch?
    ensures Distinct(Plug(zctx, Leaf)) && z.id !in CtxIds(zctx)
    ensures Distinct(Detached(z)) && Ids(Detached(z)) !! CtxIds(zctx)
  {
    MovedShape(zctx, z);
    var w' := Promoted(z);
    DistinctPlug(zctx, z);
    DistinctPlug(zctx, w');
  }

  /** With the left subtree and the colour of `z`, the detached successor in
      the place of `z` gives the tree `SuccessorCtx` describes, with no index
      twice. */
  lemma MovedShape(zctx: seq<Frame>, z: Tree)
    requires Distinct(Plug(zctx, z)) && z.Branch? && z.left.Branch? && z.right.Branch?
    ensures Plug(SuccessorCtx(zctx, z), MinNode(z.right).right) ==
            Plug(zctx, Promoted(z))
    ensures Distinct(Plug(zctx, Promoted(z)))
  {
    RemoveTwoChildrenShape(zctx, z);
    RemoveTwoChildrenIds(zctx, z);
  }

  /** After `transplant(z, y)`: `z` and its left subtree are untouched, so the
      reads `z->left` and `z->color` that follow see the old ones. */
  lemma MoveStored(ns: seq<Node>, ns': seq<Node>, zctx: seq<Frame>, z: Tree, root: int, root': int)
    requires Distinct(Plug(zctx, z)) && z.Branch? && z.left.Branch? && z.right.Branch?
    requires Holds(ns, z.id, z.plate, z.isCustom, z.color, ParentId(zctx)) && ns[z.id].left == Id(z.left)
    requires Encodes(ns, z.left, Id(z.left), z.id)
    requires Transplanted(ns, ns', root, root', z.id, MinNode(z.right).id, ParentId(zctx))
    requires MinNode(z.right).id > 0
    ensures var y := MinNode(z.right).id;
            0 < y < |ns'| && ns'[z.id] == ns[z.id] && ns'[TNULL] == ns[TNULL] &&
            0 < z.left.id < |ns'| && z.left.id != y && z.left.id != z.id && y != z.id &&
            Encodes(ns', z.left, z.left.id, z.id)
  {
    var y := MinNode(z.right).id;
    MinPathPlug(z.right);
    IdsPlug(MinPath(z.right), MinNode(z.right));
    assert y in Ids(z.right);
    DistinctPlug(zctx, z);
    EncodesIds(ns, z.left, Id(z.left), z.id);
    assert ParentId(zctx) != NIL ==> ParentId(zctx) in CtxIds(zctx);
    TransplantKeeps(ns, ns', root, root', z.id, y, ParentId(zctx), z.left, Id(z.left), z.id);
  }
}
