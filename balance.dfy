/** The rebalancing steps of `insertFix` and `deleteFix`, on tree values.  Each
    step is stated on the zipper: `ctx` is the path from the node the source calls
    `k` (or `x`) up to the root, `t` is the subtree at that node.  The lemmas show
    that every step keeps the loop's red-black invariant and brings the loop
    closer to its end. */
module Balance {
  import opened StringOrder
  import opened PlateList
  import opened RbTree

  /** `t` with its root painted `c`; the sentinel stays as it is. */
  function Paint(t: Tree, c: Color): Tree
  {
    if t.Leaf? then t else t.(color := c)
  }

  predicate IsRed(t: Tree)
  {
    t.Branch? && t.color == Red
  }

  lemma PaintKeeps(ctx: seq<Frame>, t: Tree, c: Color)
    ensures Entries(Plug(ctx, Paint(t, c))) == Entries(Plug(ctx, t))
    ensures Ids(Plug(ctx, Paint(t, c))) == Ids(Plug(ctx, t))
    ensures Distinct(Plug(ctx, t)) ==> Distinct(Plug(ctx, Paint(t, c)))
  {
    PlugSameEntries(ctx, t, Paint(t, c));
    IdsPlug(ctx, t);
    IdsPlug(ctx, Paint(t, c));
    DistinctPlug(ctx, t);
    DistinctPlug(ctx, Paint(t, c));
  }

  /** Painting the root of a tree black keeps it a red-black tree whose root is
      black, even if the root was red with a red child. */
  lemma PaintBlack(t: Tree)
    requires RBBelow(t)
    ensures RB(Paint(t, Black)) && IsBlack(Paint(t, Black))
  {
  }

  // ----- insertFix -----------------------------------------------------------

  /** The loop invariant of `insertFix`: `k` is a red node heading a valid
      red-black subtree; the path above is valid, except that `k`'s parent may be
      red too; the root is black unless `k` is the root. */
  predicate InsertInv(ctx: seq<Frame>, t: Tree)
  {
    t.Branch? && t.color == Red && RB(t) && CtxRB(ctx, BH(t)) && TopBlack(ctx)
  }

  /** While the loop runs, `k`'s parent is red, so it is not the root and the
      grandparent exists and is black. */
  lemma InsertGrandparent(ctx: seq<Frame>, t: Tree)
    requires InsertInv(ctx, t) && ctx != [] && ctx[0].color == Red
    ensures |ctx| >= 2 && ctx[1].color == Black && IsBlack(ctx[0].sibling)
  {
  }

  /** Case 1: the uncle is red; parent and uncle turn black, the grandparent red,
      and `k` moves up to the grandparent. */
  function Case1Focus(ctx: seq<Frame>, t: Tree): Tree
    requires |ctx| >= 2
  {
    Wrap(ctx[1].(color := Red, sibling := Paint(ctx[1].sibling, Black)), Wrap(ctx[0].(color := Black), t))
  }

  lemma InsertCase1(ctx: seq<Frame>, t: Tree)
    requires InsertInv(ctx, t) && ctx != [] && ctx[0].color == Red
    requires |ctx| >= 2 && IsRed(ctx[1].sibling)
    ensures InsertInv(ctx[2..], Case1Focus(ctx, t))
  {
    var h := BH(t);
    assert ctx[1..][1..] == ctx[2..];
    assert CtxRB(ctx[1..], h);
    assert CtxRB(ctx[2..], h + 1);
    var p := Wrap(ctx[0].(color := Black), t);
    assert RB(p) && BH(p) == h + 1;
    var u := Paint(ctx[1].sibling, Black);
    assert RB(u) && BH(u) == h + 1;
    var g := Case1Focus(ctx, t);
    assert RB(g) && BH(g) == h + 1;
  }

  /** Repainting a frame and its sibling, over a subtree with the same entries,
      keeps the entries of the wrapped tree. */
  lemma RepaintWrapEntries(f: Frame, c: Color, s: Tree, t: Tree, t': Tree)
    requires Entries(s) == Entries(f.sibling) && Entries(t') == Entries(t)
    ensures Entries(Wrap(f.(color := c, sibling := s), t')) == Entries(Wrap(f, t))
  {
  }

  /** The repaintings of case 1 leave the plates, the nodes and their order alone. */
  lemma Case1Keeps(ctx: seq<Frame>, t: Tree)
    requires |ctx| >= 2
    ensures Entries(Plug(ctx[2..], Case1Focus(ctx, t))) == Entries(Plug(ctx, t))
    ensures Ids(Plug(ctx[2..], Case1Focus(ctx, t))) == Ids(Plug(ctx, t))
    ensures Distinct(Plug(ctx, t)) ==> Distinct(Plug(ctx[2..], Case1Focus(ctx, t)))
  {
    assert ctx[1..][1..] == ctx[2..];
    var p := Wrap(ctx[0].(color := Black), t);
    var u := Paint(ctx[1].sibling, Black);
    var g := Case1Focus(ctx, t);
    var old3 := Wrap(ctx[1], Wrap(ctx[0], t));
    assert Plug(ctx, t) == Plug(ctx[2..], old3);
    assert Entries(u) == Entries(ctx[1].sibling);
    RepaintWrapEntries(ctx[0], Black, ctx[0].sibling, t, t);
    RepaintWrapEntries(ctx[1], Red, u, Wrap(ctx[0], t), p);
    assert Ids(u) == Ids(ctx[1].sibling) && Distinct(u) == Distinct(ctx[1].sibling);
    assert Ids(p) == Ids(Wrap(ctx[0], t)) && Distinct(p) == Distinct(Wrap(ctx[0], t));
    assert Ids(g) == Ids(old3);
    assert Distinct(old3) ==> Distinct(g);
    PlugSameEntries(ctx[2..], old3, g);
    IdsPlug(ctx[2..], old3);
    IdsPlug(ctx[2..], g);
    DistinctPlug(ctx[2..], old3);
    DistinctPlug(ctx[2..], g);
  }

  /** Case 2: the uncle is black and `k` is an inner grandchild; rotating at the
      parent makes the parent the new `k`, an outer grandchild. */
  function Case2Ctx(ctx: seq<Frame>, t: Tree): seq<Frame>
    requires ctx != [] && t.Branch?
  {
    [if ctx[0].side == Right then Frame(Left, t.id, t.color, t.plate, t.isCustom, t.right)
     else Frame(Right, t.id, t.color, t.plate, t.isCustom, t.left)] + ctx[1..]
  }

  function Case2Focus(ctx: seq<Frame>, t: Tree): Tree
    requires ctx != [] && t.Branch?
  {
    if ctx[0].side == Right then Wrap(ctx[0], t.left) else Wrap(ctx[0], t.right)
  }

  lemma InsertCase2(ctx: seq<Frame>, t: Tree)
    requires InsertInv(ctx, t) && ctx != [] && ctx[0].color == Red
    requires |ctx| >= 2 && ctx[0].side != ctx[1].side
    ensures InsertInv(Case2Ctx(ctx, t), Case2Focus(ctx, t))
    ensures |Case2Ctx(ctx, t)| == |ctx| && Case2Ctx(ctx, t)[1..] == ctx[1..]
    ensures Case2Ctx(ctx, t)[0].color == Red && Case2Ctx(ctx, t)[0].side == ctx[1].side
    ensures Case2Focus(ctx, t).id == ctx[0].id
    ensures ctx[0].side == Right ==>
              Plug(Case2Ctx(ctx, t), Case2Focus(ctx, t)) == Plug(ctx[1..], RotateLeft(Wrap(ctx[0], t)))
    ensures ctx[0].side == Left ==>
              Plug(Case2Ctx(ctx, t), Case2Focus(ctx, t)) == Plug(ctx[1..], RotateRight(Wrap(ctx[0], t)))
  {
    var c2 := Case2Ctx(ctx, t);
    assert c2[1..] == ctx[1..];
    if ctx[0].side == Right {
      assert RotateLeft(Wrap(ctx[0], t)) == Wrap(c2[0], Case2Focus(ctx, t));
    } else {
      assert RotateRight(Wrap(ctx[0], t)) == Wrap(c2[0], Case2Focus(ctx, t));
    }
  }

  /** Case 3: the uncle is black and `k` is an outer grandchild; the parent turns
      black, the grandparent red, and rotating at the grandparent lifts the
      parent into its place.  The loop then stops, the parent being black. */
  function Case3Ctx(ctx: seq<Frame>): seq<Frame>
    requires |ctx| >= 2
  {
    [ctx[0].(color := Black, sibling := Wrap(ctx[1].(color := Red), ctx[0].sibling))] + ctx[2..]
  }

  /** The grandparent's subtree after the two repaintings, before the rotation. */
  function Case3Before(ctx: seq<Frame>, t: Tree): Tree
    requires |ctx| >= 2
  {
    Wrap(ctx[1].(color := Red), Wrap(ctx[0].(color := Black), t))
  }

  lemma InsertCase3(ctx: seq<Frame>, t: Tree)
    requires InsertInv(ctx, t) && ctx != [] && ctx[0].color == Red
    requires |ctx| >= 2 && ctx[0].side == ctx[1].side && !IsRed(ctx[1].sibling)
    ensures InsertInv(Case3Ctx(ctx), t) && Case3Ctx(ctx)[0].color == Black
    ensures |Case3Ctx(ctx)| < |ctx|
    ensures ctx[0].side == Left ==> Plug(Case3Ctx(ctx), t) == Plug(ctx[2..], RotateRight(Case3Before(ctx, t)))
    ensures ctx[0].side == Right ==> Plug(Case3Ctx(ctx), t) == Plug(ctx[2..], RotateLeft(Case3Before(ctx, t)))
  {
    var h := BH(t);
    var c3 := Case3Ctx(ctx);
    assert ctx[1..][1..] == ctx[2..];
    assert c3[1..] == ctx[2..];
    assert CtxRB(ctx[1..], h);
    assert CtxRB(ctx[2..], h + 1);
    var g := Wrap(ctx[1].(color := Red), ctx[0].sibling);
    assert RB(g) && BH(g) == h;
    assert CtxRB(c3, h);
    if ctx[0].side == Left {
      assert RotateRight(Case3Before(ctx, t)) == Wrap(c3[0], t);
    } else {
      assert RotateLeft(Case3Before(ctx, t)) == Wrap(c3[0], t);
    }
  }

  /** When the loop stops, the whole tree with its root painted black is a
      red-black tree. */
  lemma InsertDone(ctx: seq<Frame>, t: Tree)
    requires InsertInv(ctx, t) && (ctx == [] || ctx[0].color == Black)
    ensures RB(Paint(Plug(ctx, t), Black)) && IsBlack(Paint(Plug(ctx, t), Black))
  {
    PlugRB(ctx, t);
  }

  /** Hanging a new red leaf into the hole of a red-black tree with a black root
      establishes the loop invariant. */
  lemma InsertStart(ctx: seq<Frame>, t: Tree)
    requires RB(Plug(ctx, Leaf)) && IsBlack(Plug(ctx, Leaf))
    requires t.Branch? && t.color == Red && t.left.Leaf? && t.right.Leaf?
    ensures InsertInv(ctx, t)
  {
    UnplugRB(ctx, Leaf);
    if ctx != [] {
      PlugColor(ctx, Leaf);
    }
  }

  // ----- deleteFix -----------------------------------------------------------

  function Flip(side: Side): Side
  {
    if side == Left then Right else Left
  }

  /** The path seen from the sibling of the subtree `t` at the hole of `ctx`: the
      parent's frame turned around, with `t` as the other subtree. */
  function SiblingCtx(ctx: seq<Frame>, t: Tree): seq<Frame>
    requires ctx != []
  {
    var f := ctx[0];
    [Frame(Flip(f.side), f.id, f.color, f.plate, f.isCustom, t)] + ctx[1..]
  }

  /** Putting `s` in the sibling's place: the tree around the turned path is the
      tree with `s` as the parent's other subtree. */
  lemma SiblingPlug(ctx: seq<Frame>, t: Tree, s: Tree)
    requires ctx != []
    ensures Plug(SiblingCtx(ctx, t), s) == Plug([ctx[0].(sibling := s)] + ctx[1..], t)
    ensures ParentId(SiblingCtx(ctx, t)) == ctx[0].id
  {
    assert SiblingCtx(ctx, t)[1..] == ctx[1..];
    assert ([ctx[0].(sibling := s)] + ctx[1..])[1..] == ctx[1..];
  }

  /** The child of the sibling `s` on the side nearer to `x`, and the one farther
      from it. */
  function Near(side: Side, s: Tree): Tree
    requires s.Branch?
  {
    if side == Left then s.left else s.right
  }

  function Far(side: Side, s: Tree): Tree
    requires s.Branch?
  {
    if side == Left then s.right else s.left
  }

  /** The loop invariant of `deleteFix`: the subtree at `x` is one black node short
      of what the path above it needs (`CtxRB` at `BH(t) + 1`); below `x` all is
      valid, though `x` itself may be red with a red child; the root is black
      unless `x` is the root. */
  predicate DeleteInv(ctx: seq<Frame>, t: Tree)
  {
    RBBelow(t) && CtxRB(ctx, BH(t) + 1) && TopBlack(ctx)
  }

  /** While the loop runs, `x`'s sibling is a real node: its black-height is at
      least one. */
  lemma DeleteSibling(ctx: seq<Frame>, t: Tree)
    requires DeleteInv(ctx, t) && ctx != []
    ensures ctx[0].sibling.Branch? && RB(ctx[0].sibling) && BH(ctx[0].sibling) == BH(t) + 1
    ensures IsRed(ctx[0].sibling) ==> ctx[0].color == Black
  {
  }

  /** Case 1: the sibling is red; it turns black, the parent red, and rotating at
      the parent towards `x` gives `x` a black sibling. */
  function DCase1Ctx(ctx: seq<Frame>): seq<Frame>
    requires ctx != [] && ctx[0].sibling.Branch?
  {
    var f := ctx[0];
    var s := f.sibling;
    [Frame(f.side, f.id, Red, f.plate, f.isCustom, Near(f.side, s)),
     Frame(f.side, s.id, Black, s.plate, s.isCustom, Far(f.side, s))] + ctx[1..]
  }

  /** The parent's subtree after the two repaintings of case 1, before the
      rotation. */
  function DCase1Before(ctx: seq<Frame>, t: Tree): Tree
    requires ctx != []
  {
    Wrap(ctx[0].(color := Red, sibling := Paint(ctx[0].sibling, Black)), t)
  }

  lemma DeleteCase1(ctx: seq<Frame>, t: Tree)
    requires DeleteInv(ctx, t) && ctx != [] && IsBlack(t) && IsRed(ctx[0].sibling)
    ensures DeleteInv(DCase1Ctx(ctx), t)
    ensures DCase1Ctx(ctx)[0].color == Red && DCase1Ctx(ctx)[0].sibling.Branch?
    ensures !IsRed(DCase1Ctx(ctx)[0].sibling)
    ensures DCase1Ctx(ctx)[0].id == ctx[0].id && DCase1Ctx(ctx)[0].side == ctx[0].side
    ensures |DCase1Ctx(ctx)| == |ctx| + 1
    ensures ctx[0].side == Left ==> Plug(DCase1Ctx(ctx), t) == Plug(ctx[1..], RotateLeft(DCase1Before(ctx, t)))
    ensures ctx[0].side == Right ==> Plug(DCase1Ctx(ctx), t) == Plug(ctx[1..], RotateRight(DCase1Before(ctx, t)))
  {
    var h := BH(t);
    var c := DCase1Ctx(ctx);
    var s := ctx[0].sibling;
    assert c[1..][1..] == ctx[1..];
    assert CtxRB(ctx[1..], h + 2);
    assert BH(Near(ctx[0].side, s)) == h + 1 && BH(Far(ctx[0].side, s)) == h + 1;
    assert CtxRB(c[1..], h + 1);
    assert CtxRB(c, h + 1);
    var w := Wrap(c[0], t);
    if ctx[0].side == Left {
      assert RotateLeft(DCase1Before(ctx, t)) == Wrap(c[1], w);
    } else {
      assert RotateRight(DCase1Before(ctx, t)) == Wrap(c[1], w);
    }
  }

  /** Case 2: the sibling and both its children are black; the sibling turns red
      and `x` moves up to the parent. */
  function DCase2Focus(ctx: seq<Frame>, t: Tree): Tree
    requires ctx != []
  {
    Wrap(ctx[0].(sibling := Paint(ctx[0].sibling, Red)), t)
  }

  lemma DeleteCase2(ctx: seq<Frame>, t: Tree)
    requires DeleteInv(ctx, t) && ctx != [] && IsBlack(t) && ctx[0].sibling.Branch?
    requires !IsRed(ctx[0].sibling)
    requires !IsRed(ctx[0].sibling.left) && !IsRed(ctx[0].sibling.right)
    ensures DeleteInv(ctx[1..], DCase2Focus(ctx, t))
    ensures IsBlack(DCase2Focus(ctx, t)) <==> ctx[0].color == Black
  {
    var h := BH(t);
    var s := Paint(ctx[0].sibling, Red);
    assert RB(s) && BH(s) == h;
  }

  /** Case 3: the sibling is black, its far child black and its near child red;
      the near child turns black, the sibling red, and rotating at the sibling
      away from `x` gives `x` a black sibling with a red far child. */
  function DCase3Before(side: Side, s: Tree): Tree
    requires s.Branch?
  {
    if side == Left then s.(color := Red, left := Paint(s.left, Black))
    else s.(color := Red, right := Paint(s.right, Black))
  }

  function DCase3Sibling(side: Side, s: Tree): Tree
    requires s.Branch? && Near(side, s).Branch?
  {
    if side == Left then RotateRight(DCase3Before(side, s)) else RotateLeft(DCase3Before(side, s))
  }

  lemma DeleteCase3(ctx: seq<Frame>, t: Tree)
    requires DeleteInv(ctx, t) && ctx != [] && IsBlack(t) && ctx[0].sibling.Branch?
    requires !IsRed(ctx[0].sibling)
    requires IsRed(Near(ctx[0].side, ctx[0].sibling)) && !IsRed(Far(ctx[0].side, ctx[0].sibling))
    ensures DeleteInv([ctx[0].(sibling := DCase3Sibling(ctx[0].side, ctx[0].sibling))] + ctx[1..], t)
    ensures DCase3Sibling(ctx[0].side, ctx[0].sibling).Branch?
    ensures !IsRed(DCase3Sibling(ctx[0].side, ctx[0].sibling))
    ensures IsRed(Far(ctx[0].side, DCase3Sibling(ctx[0].side, ctx[0].sibling)))
  {
    var h := BH(t);
    var c := [ctx[0].(sibling := DCase3Sibling(ctx[0].side, ctx[0].sibling))] + ctx[1..];
    assert c[1..] == ctx[1..];
    var s := ctx[0].sibling;
    var s' := DCase3Sibling(ctx[0].side, s);
    assert RB(s) && BH(s.left) == h && BH(s.right) == h;
    assert RB(s.left) && RB(s.right);
    if ctx[0].side == Left {
      var n := s.left;
      assert n.color == Red;
      assert RB(n.left) && RB(n.right) && BH(n.left) == h && BH(n.right) == h;
      var inner := Branch(s.id, Red, s.plate, s.isCustom, n.right, s.right);
      assert RB(inner) && BH(inner) == h;
      assert s' == Branch(n.id, Black, n.plate, n.isCustom, n.left, inner);
    } else {
      var n := s.right;
      assert n.color == Red;
      assert RB(n.left) && RB(n.right) && BH(n.left) == h && BH(n.right) == h;
      var inner := Branch(s.id, Red, s.plate, s.isCustom, s.left, n.left);
      assert RB(inner) && BH(inner) == h;
      assert s' == Branch(n.id, Black, n.plate, n.isCustom, inner, n.right);
    }
    assert RB(s') && BH(s') == h + 1;
  }

  /** Case 4: the sibling is black with a red far child; the sibling takes the
      parent's colour, the parent and the far child turn black, and rotating at
      the parent towards `x` restores the black-height on `x`'s side.  The loop
      ends with `x` at the root. */
  function DCase4Before(ctx: seq<Frame>, t: Tree): Tree
    requires ctx != [] && ctx[0].sibling.Branch?
  {
    var f := ctx[0];
    var s := f.sibling;
    var s' := if f.side == Left then s.(color := f.color, right := Paint(s.right, Black))
              else s.(color := f.color, left := Paint(s.left, Black));
    Wrap(f.(color := Black, sibling := s'), t)
  }

  lemma DeleteCase4(ctx: seq<Frame>, t: Tree)
    requires DeleteInv(ctx, t) && ctx != [] && IsBlack(t) && ctx[0].sibling.Branch?
    requires !IsRed(ctx[0].sibling) && IsRed(Far(ctx[0].side, ctx[0].sibling))
    ensures ctx[0].side == Left ==> RB(Plug(ctx[1..], RotateLeft(DCase4Before(ctx, t))))
    ensures ctx[0].side == Right ==> RB(Plug(ctx[1..], RotateRight(DCase4Before(ctx, t))))
    ensures ctx[0].side == Left ==> IsBlack(Plug(ctx[1..], RotateLeft(DCase4Before(ctx, t))))
    ensures ctx[0].side == Right ==> IsBlack(Plug(ctx[1..], RotateRight(DCase4Before(ctx, t))))
  {
    var h := BH(t);
    var f := ctx[0];
    var b := DCase4Before(ctx, t);
    var r := if f.side == Left then RotateLeft(b) else RotateRight(b);
    assert CtxRB(ctx[1..], h + 1 + (if f.color == Black then 1 else 0));
    var s := f.sibling;
    assert RB(t) && RB(s.left) && RB(s.right) && BH(s.left) == h && BH(s.right) == h;
    if f.side == Left {
      assert r.left == Branch(f.id, Black, f.plate, f.isCustom, t, s.left);
      assert r.right == Paint(s.right, Black);
    } else {
      assert r.right == Branch(f.id, Black, f.plate, f.isCustom, s.right, t);
      assert r.left == Paint(s.left, Black);
    }
    assert RB(r.left) && RB(r.right);
    assert BH(r.left) == h + 1 && BH(r.right) == h + 1;
    assert RB(r) && BH(r) == h + 1 + (if f.color == Black then 1 else 0);
    assert r.color == f.color;
    PlugRB(ctx[1..], r);
    if |ctx| > 1 {
      PlugColor(ctx[1..], r);
      assert ctx[1..][|ctx[1..]| - 1] == ctx[|ctx| - 1];
    }
  }

  /** When the loop stops (`x` red or at the root), painting `x` black leaves a
      red-black tree with a black root. */
  lemma DeleteDone(ctx: seq<Frame>, t: Tree)
    requires DeleteInv(ctx, t) && (ctx == [] || IsRed(t))
    ensures RB(Plug(ctx, Paint(t, Black))) && IsBlack(Plug(ctx, Paint(t, Black)))
  {
    if ctx != [] {
      PlugRB(ctx, Paint(t, Black));
      PlugColor(ctx, Paint(t, Black));
    }
  }

  // ----- deleteNodeHelper ----------------------------------------------------

  /** The leftmost node of `t`, which `minimum` walks down to. */
  function MinNode(t: Tree): (m: Tree)
    requires t.Branch?
    ensures m.Branch? && m.left.Leaf?
    decreases t
  {
    if t.left.Leaf? then t else MinNode(t.left)
  }

  /** The path from `MinNode(t)` up to the root of `t`: left turns only. */
  function MinPath(t: Tree): seq<Frame>
    requires t.Branch?
    decreases t
  {
    if t.left.Leaf? then [] else MinPath(t.left) + [Frame(Left, t.id, t.color, t.plate, t.isCustom, t.right)]
  }

  lemma {:induction false} MinPathPlug(t: Tree)
    requires t.Branch?
    ensures Plug(MinPath(t), MinNode(t)) == t && AllLeft(MinPath(t))
    decreases t
  {
    if t.left.Branch? {
      MinPathPlug(t.left);
      var f := Frame(Left, t.id, t.color, t.plate, t.isCustom, t.right);
      PlugAppend(MinPath(t.left), [f], MinNode(t));
      assert [f][1..] == [];
    }
  }

  /** The leftmost node holds the first plate in order, hence the least one. */
  lemma MinNodeFirst(t: Tree)
    requires t.Branch?
    ensures Entries(t)[0] == EntryOf(MinNode(t))
    ensures Ordered(t) ==> forall i :: 0 < i < |Entries(t)| ==> Less(MinNode(t).plate, Entries(t)[i].plate)
  {
    MinPathPlug(t);
    EntriesPlug(MinPath(t), MinNode(t));
    BeforeAllLeft(MinPath(t));
    var m := MinNode(t);
    assert Entries(m) == [EntryOf(m)] + Entries(m.right);
  }

  /** The path `x` ends up under when `z` has two children: `z`'s successor `y`
      (the leftmost node of `z`'s right subtree) takes `z`'s place and colour, and
      `x`, `y`'s former right subtree, hangs where `y` was. */
  function SuccessorCtx(zctx: seq<Frame>, z: Tree): seq<Frame>
    requires z.Branch? && z.right.Branch?
  {
    var y := MinNode(z.right);
    MinPath(z.right) + ([Frame(Right, y.id, z.color, y.plate, y.isCustom, z.left)] + zctx)
  }

  /** Removing a node with at most one child: the child takes its place. */
  lemma RemoveOneChild(zctx: seq<Frame>, z: Tree)
    requires RB(Plug(zctx, z)) && IsBlack(Plug(zctx, z))
    requires z.Branch? && (z.left.Leaf? || z.right.Leaf?)
    ensures var c := if z.left.Leaf? then z.right else z.left;
            (z.color == Black ==> DeleteInv(zctx, c)) &&
            (z.color == Red ==> RB(Plug(zctx, c)) && IsBlack(Plug(zctx, c)))
  {
    var c := if z.left.Leaf? then z.right else z.left;
    UnplugRB(zctx, z);
    if zctx != [] {
      PlugColor(zctx, z);
      PlugColor(zctx, c);
    }
    assert BH(c) == 0;
    if z.color == Red {
      PlugRB(zctx, c);
    }
  }

  /** Removing a node with two children by moving its successor into its place. */
  lemma RemoveTwoChildren(zctx: seq<Frame>, z: Tree)
    requires RB(Plug(zctx, z)) && IsBlack(Plug(zctx, z))
    requires z.Branch? && z.left.Branch? && z.right.Branch?
    ensures var y := MinNode(z.right);
            var cx := SuccessorCtx(zctx, z);
            (y.color == Black ==> DeleteInv(cx, y.right)) &&
            (y.color == Red ==> RB(Plug(cx, y.right)) && IsBlack(Plug(cx, y.right)))
  {
    var r := z.right;
    var y := MinNode(r);
    var ctx2 := MinPath(r);
    var fy := Frame(Right, y.id, z.color, y.plate, y.isCustom, z.left);
    var cx := SuccessorCtx(zctx, z);
    UnplugRB(zctx, z);
    if zctx != [] {
      PlugColor(zctx, z);
    }
    MinPathPlug(r);
    UnplugRB(ctx2, y);
    BHPlug(ctx2, y);
    if ctx2 != [] {
      PlugColor(ctx2, y);
    }
    var h0 := BH(y);
    assert BH(y.right) == 0;
    assert CtxRB([fy] + zctx, h0 + Blacks(ctx2)) by {
      assert ([fy] + zctx)[1..] == zctx;
    }
    CtxRBAppend(ctx2, [fy] + zctx, h0);
    assert CtxRB(cx, h0);
    assert TopBlack(cx);
    if y.color == Red {
      PlugRB(cx, y.right);
      PlugColor(cx, y.right);
    }
  }

  /** Removing a node with at most one child removes exactly its entry... */
  lemma RemoveOneChildEntries(zctx: seq<Frame>, z: Tree)
    requires z.Branch? && (z.left.Leaf? || z.right.Leaf?)
    ensures var c := if z.left.Leaf? then z.right else z.left;
            Entries(Plug(zctx, c)) == (Before(zctx) + Entries(z.left)) + (Entries(z.right) + After(zctx))
  {
    var c := if z.left.Leaf? then z.right else z.left;
    EntriesPlug(zctx, c);
    Regroup(Before(zctx), Entries(z.left), EntryOf(z), Entries(z.right), After(zctx));
    if z.left.Leaf? {
      assert Entries(z.left) == [];
      assert Before(zctx) + Entries(z.left) == Before(zctx);
    } else {
      assert Entries(z.right) == [];
      assert Entries(z.right) + After(zctx) == After(zctx);
    }
  }

  /** ... and exactly its index. */
  lemma RemoveOneChildIds(zctx: seq<Frame>, z: Tree)
    requires z.Branch? && (z.left.Leaf? || z.right.Leaf?) && Distinct(Plug(zctx, z))
    ensures var c := if z.left.Leaf? then z.right else z.left;
            Ids(Plug(zctx, c)) == Ids(Plug(zctx, z)) - {z.id} && Distinct(Plug(zctx, c))
  {
    var c := if z.left.Leaf? then z.right else z.left;
    IdsPlug(zctx, z);
    IdsPlug(zctx, c);
    DistinctPlug(zctx, z);
    DistinctPlug(zctx, c);
  }

  /** After moving the successor `y` into `z`'s place, the tree is `z`'s old path
      with `y`, painted `z`'s colour, over `z`'s left subtree and `z`'s right
      subtree without `y`. */
  lemma RemoveTwoChildrenShape(zctx: seq<Frame>, z: Tree)
    requires z.Branch? && z.left.Branch? && z.right.Branch?
    ensures var y := MinNode(z.right);
            Plug(SuccessorCtx(zctx, z), y.right) ==
            Plug(zctx, Branch(y.id, z.color, y.plate, y.isCustom, z.left, Plug(MinPath(z.right), y.right)))
  {
    var y := MinNode(z.right);
    var ctx2 := MinPath(z.right);
    var fy := Frame(Right, y.id, z.color, y.plate, y.isCustom, z.left);
    PlugAppend(ctx2, [fy] + zctx, y.right);
    PlugAppend([fy], zctx, Plug(ctx2, y.right));
    assert [fy][1..] == [];
  }

  /** Taking the leftmost node out of `r` removes the first entry. */
  lemma MinRemovedEntries(r: Tree)
    requires r.Branch?
    ensures Entries(r) == [EntryOf(MinNode(r))] + Entries(Plug(MinPath(r), MinNode(r).right))
  {
    var y := MinNode(r);
    var ctx2 := MinPath(r);
    MinPathPlug(r);
    EntriesPlug(ctx2, y);
    EntriesPlug(ctx2, y.right);
    BeforeAllLeft(ctx2);
    assert Entries(y) == [EntryOf(y)] + Entries(y.right);
    Leading(Before(ctx2), EntryOf(y), Entries(y.right), After(ctx2));
  }

  /** The entries of a tree around a node `z`, split at `z`. */
  lemma EntriesAround(zctx: seq<Frame>, z: Tree)
    requires z.Branch?
    ensures Entries(Plug(zctx, z)) ==
            (Before(zctx) + Entries(z.left)) + [EntryOf(z)] + (Entries(z.right) + After(zctx))
  {
    EntriesPlug(zctx, z);
    Regroup(Before(zctx), Entries(z.left), EntryOf(z), Entries(z.right), After(zctx));
  }

  /** In an ordered tree, deleting the plate of node `z` from the in-order list
      leaves the pieces on either side of `z`. */
  lemma RemovedEntries(zctx: seq<Frame>, z: Tree)
    requires z.Branch? && Ordered(Plug(zctx, z))
    ensures Delete(Entries(Plug(zctx, z)), z.plate) ==
            (Before(zctx) + Entries(z.left)) + (Entries(z.right) + After(zctx))
  {
    EntriesAround(zctx, z);
    var a, b := Before(zctx) + Entries(z.left), Entries(z.right) + After(zctx);
    SortedSplit(a, EntryOf(z), b);
    DeleteBetween(a, EntryOf(z), b);
  }

  /** The tree after the move lacks exactly `z`'s entry... */
  lemma RemoveTwoChildrenEntries(zctx: seq<Frame>, z: Tree)
    requires z.Branch? && z.left.Branch? && z.right.Branch?
    ensures Entries(Plug(SuccessorCtx(zctx, z), MinNode(z.right).right)) ==
            (Before(zctx) + Entries(z.left)) + (Entries(z.right) + After(zctx))
  {
    var r := z.right;
    var y := MinNode(r);
    var p, q := Before(zctx), Entries(z.left);
    var r' := Plug(MinPath(r), y.right);
    var w := Branch(y.id, z.color, y.plate, y.isCustom, z.left, r');
    RemoveTwoChildrenShape(zctx, z);
    MinRemovedEntries(r);
    EntriesPlug(zctx, w);
    assert Entries(w) == q + Entries(r);
    Regroup(p, q, EntryOf(z), Entries(r), After(zctx));
  }

  /** ... and exactly `z`'s index. */
  lemma RemoveTwoChildrenIds(zctx: seq<Frame>, z: Tree)
    requires z.Branch? && z.left.Branch? && z.right.Branch? && Distinct(Plug(zctx, z))
    ensures var y := MinNode(z.right);
            var t' := Plug(SuccessorCtx(zctx, z), y.right);
            Ids(t') == Ids(Plug(zctx, z)) - {z.id} && Distinct(t')
  {
    var r := z.right;
    var y := MinNode(r);
    var ctx2 := MinPath(r);
    var r' := Plug(ctx2, y.right);
    var w := Branch(y.id, z.color, y.plate, y.isCustom, z.left, r');
    RemoveTwoChildrenShape(zctx, z);
    MinPathPlug(r);
    IdsPlug(ctx2, y);
    IdsPlug(ctx2, y.right);
    IdsPlug(zctx, z);
    IdsPlug(zctx, w);
    DistinctPlug(zctx, z);
    DistinctPlug(zctx, w);
    DistinctPlug(ctx2, y);
    DistinctPlug(ctx2, y.right);
    assert Ids(y) == {y.id} + Ids(y.right);
    assert Ids(r') == Ids(r) - {y.id};
    assert Distinct(r');
    assert Ids(w) == Ids(z) - {z.id};
    assert Distinct(w);
  }
}
