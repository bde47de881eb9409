/** The shape of the plate tree as a value: every node keeps the arena index it
    lives at (`id`), its colour, its plate and its flag.  A `Frame` is one step of
    the path from a node up to the root (a "zipper"): the parent, on which side of
    it the node hangs, and the parent's other subtree.  `Plug(ctx, t)` rebuilds the
    whole tree around the subtree `t`. */
module RbTree {
  import opened StringOrder
  import opened PlateList

  datatype Color = Red | Black

  datatype Tree =
    | Leaf
    | Branch(id: nat, color: Color, plate: string, isCustom: bool, left: Tree, right: Tree)

  datatype Side = Left | Right

  datatype Frame = Frame(side: Side, id: nat, color: Color, plate: string, isCustom: bool, sibling: Tree)

  /** The arena index of the root of `t`; the sentinel's index 0 for an empty tree. */
  function Id(t: Tree): nat
  {
    if t.Leaf? then 0 else t.id
  }

  function EntryOf(t: Tree): Entry
    requires t.Branch?
  {
    Entry(t.plate, t.isCustom)
  }

  /** In-order contents of `t`. */
  function Entries(t: Tree): seq<Entry>
  {
    if t.Leaf? then [] else Entries(t.left) + [EntryOf(t)] + Entries(t.right)
  }

  function Keys(t: Tree): set<string>
  {
    if t.Leaf? then {} else Keys(t.left) + {t.plate} + Keys(t.right)
  }

  function Ids(t: Tree): set<nat>
  {
    if t.Leaf? then {} else Ids(t.left) + {t.id} + Ids(t.right)
  }

  /** No arena index occurs twice: the pointer graph is a tree, not a DAG. */
  predicate Distinct(t: Tree)
  {
    t.Leaf? ||
    (Distinct(t.left) && Distinct(t.right) && Ids(t.left) !! Ids(t.right) &&
     t.id !in Ids(t.left) && t.id !in Ids(t.right))
  }

  /** Binary-search-tree order: the in-order walk is strictly ascending. */
  predicate Ordered(t: Tree)
  {
    StrictlySorted(Entries(t))
  }

  lemma {:induction false} KeysAreEntries(t: Tree)
    ensures Keys(t) == Plates(Entries(t))
  {
    if t.Branch? {
      KeysAreEntries(t.left);
      KeysAreEntries(t.right);
      PlatesConcat(Entries(t.left) + [EntryOf(t)], Entries(t.right));
      PlatesConcat(Entries(t.left), [EntryOf(t)]);
      assert Plates([EntryOf(t)]) == {t.plate} by {
        assert [EntryOf(t)][1..] == [];
      }
    }
  }

  lemma KeyIndex(t: Tree, k: string)
    ensures k in Keys(t) <==> exists i :: 0 <= i < |Entries(t)| && Entries(t)[i].plate == k
  {
    KeysAreEntries(t);
    PlatesIndex(Entries(t), k);
  }

  /** At a node of an ordered tree, the plates of the left subtree are below the
      node's plate and those of the right subtree above it. */
  lemma OrderedBranch(t: Tree)
    requires t.Branch? && Ordered(t)
    ensures Ordered(t.left) && Ordered(t.right)
    ensures forall k :: k in Keys(t.left) ==> Less(k, t.plate)
    ensures forall k :: k in Keys(t.right) ==> Less(t.plate, k)
    ensures forall i :: 0 <= i < |Entries(t.left)| ==> Less(Entries(t.left)[i].plate, t.plate)
    ensures forall i :: 0 <= i < |Entries(t.right)| ==> Less(t.plate, Entries(t.right)[i].plate)
  {
    SortedSplit(Entries(t.left), EntryOf(t), Entries(t.right));
    forall k | k in Keys(t.left) ensures Less(k, t.plate) {
      KeyIndex(t.left, k);
    }
    forall k | k in Keys(t.right) ensures Less(t.plate, k) {
      KeyIndex(t.right, k);
    }
  }

  /** A plate not below a node's plate is not in its left subtree. */
  lemma NotInLeft(t: Tree, k: string)
    requires t.Branch? && Ordered(t) && LessEq(t.plate, k)
    ensures k !in Keys(t.left)
  {
    OrderedBranch(t);
    LessIrreflexive(k);
    if Less(t.plate, k) {
      LessAsymmetric(t.plate, k);
    }
  }

  /** A plate below a node's plate is not in its right subtree. */
  lemma NotInRight(t: Tree, k: string)
    requires t.Branch? && Ordered(t) && !LessEq(t.plate, k)
    ensures k !in Keys(t.right)
  {
    OrderedBranch(t);
  }

  lemma OrderedJoin(t: Tree)
    requires t.Branch? && Ordered(t.left) && Ordered(t.right)
    requires forall k :: k in Keys(t.left) ==> Less(k, t.plate)
    requires forall k :: k in Keys(t.right) ==> Less(t.plate, k)
    ensures Ordered(t)
  {
    forall i | 0 <= i < |Entries(t.left)| ensures Less(Entries(t.left)[i].plate, t.plate) {
      KeyIndex(t.left, Entries(t.left)[i].plate);
    }
    forall i | 0 <= i < |Entries(t.right)| ensures Less(t.plate, Entries(t.right)[i].plate) {
      KeyIndex(t.right, Entries(t.right)[i].plate);
    }
    SortedJoin(Entries(t.left), EntryOf(t), Entries(t.right));
  }

  // ----- The zipper -----------------------------------------------------------

  /** Hang `t` on the `side` of the frame's node. */
  function Wrap(f: Frame, t: Tree): Tree
  {
    if f.side == Left then Branch(f.id, f.color, f.plate, f.isCustom, t, f.sibling)
    else Branch(f.id, f.color, f.plate, f.isCustom, f.sibling, t)
  }

  /** The whole tree, rebuilt from the path `ctx` (innermost frame first) and the
      subtree `t` at its bottom. */
  function Plug(ctx: seq<Frame>, t: Tree): Tree
    decreases |ctx|
  {
    if ctx == [] then t else Plug(ctx[1..], Wrap(ctx[0], t))
  }

  /** The arena index of the parent of the subtree at the bottom of `ctx`; -1 (the
      null pointer) at the root. */
  function ParentId(ctx: seq<Frame>): int
  {
    if ctx == [] then -1 else ctx[0].id
  }

  function CtxIds(ctx: seq<Frame>): set<nat>
  {
    if ctx == [] then {} else {ctx[0].id} + Ids(ctx[0].sibling) + CtxIds(ctx[1..])
  }

  /** The entries that come before, respectively after, the hole of `ctx` in order. */
  function Before(ctx: seq<Frame>): seq<Entry>
  {
    if ctx == [] then []
    else Before(ctx[1..]) +
         (if ctx[0].side == Right then Entries(ctx[0].sibling) + [Entry(ctx[0].plate, ctx[0].isCustom)] else [])
  }

  function After(ctx: seq<Frame>): seq<Entry>
  {
    if ctx == [] then []
    else (if ctx[0].side == Left then [Entry(ctx[0].plate, ctx[0].isCustom)] + Entries(ctx[0].sibling) else [])
         + After(ctx[1..])
  }

  lemma {:induction false} EntriesPlug(ctx: seq<Frame>, t: Tree)
    ensures Entries(Plug(ctx, t)) == Before(ctx) + Entries(t) + After(ctx)
    decreases |ctx|
  {
    if ctx != [] {
      var f := ctx[0];
      var w := Wrap(f, t);
      assert Plug(ctx, t) == Plug(ctx[1..], w);
      EntriesPlug(ctx[1..], w);
      if f.side == Left {
        ShiftAfter(Before(ctx[1..]), Entries(t), EntryOf(w), Entries(f.sibling), After(ctx[1..]));
      } else {
        ShiftBefore(Before(ctx[1..]), Entries(f.sibling), EntryOf(w), Entries(t), After(ctx[1..]));
      }
    }
  }

  lemma {:induction false} IdsPlug(ctx: seq<Frame>, t: Tree)
    ensures Ids(Plug(ctx, t)) == CtxIds(ctx) + Ids(t)
    decreases |ctx|
  {
    if ctx != [] {
      IdsPlug(ctx[1..], Wrap(ctx[0], t));
    }
  }

  /** Distinctness of the whole tree splits into that of the path, that of the
      subtree and the two being disjoint. */
  lemma {:induction false} DistinctPlug(ctx: seq<Frame>, t: Tree)
    ensures Distinct(Plug(ctx, t)) <==>
            Distinct(Plug(ctx, Leaf)) && Distinct(t) && Ids(t) !! CtxIds(ctx)
    decreases |ctx|
  {
    if ctx != [] {
      var f := ctx[0];
      DistinctPlug(ctx[1..], Wrap(f, t));
      DistinctPlug(ctx[1..], Wrap(f, Leaf));
      IdsPlug(ctx[1..], Leaf);
      WrapIds(f, t);
      WrapIds(f, Leaf);
      assert CtxIds(ctx) == ({f.id} + Ids(f.sibling)) + CtxIds(ctx[1..]);
    }
  }

  /** The nodes of a subtree hung below a frame, and when they are all distinct. */
  lemma WrapIds(f: Frame, t: Tree)
    ensures Ids(Wrap(f, t)) == Ids(t) + ({f.id} + Ids(f.sibling))
    ensures Distinct(Wrap(f, t)) <==>
            Distinct(f.sibling) && Distinct(t) && Ids(t) !! Ids(f.sibling) &&
            f.id !in Ids(t) && f.id !in Ids(f.sibling)
  {
  }

  /** Replacing the subtree at the hole by one built from some of its own nodes
      keeps every index distinct. */
  lemma DistinctReplace(ctx: seq<Frame>, t: Tree, t': Tree)
    requires Distinct(Plug(ctx, t)) && Distinct(t') && Ids(t') <= Ids(t)
    ensures Distinct(Plug(ctx, t'))
  {
    DistinctPlug(ctx, t);
    DistinctPlug(ctx, t');
  }

  lemma {:induction false} PlugAppend(a: seq<Frame>, b: seq<Frame>, t: Tree)
    ensures Plug(a + b, t) == Plug(b, Plug(a, t))
    decreases |a|
  {
    if a != [] {
      assert (a + b)[1..] == a[1..] + b;
      PlugAppend(a[1..], b, Wrap(a[0], t));
    } else {
      assert a + b == b;
    }
  }

  // ----- Rotations --------------------------------------------------------------

  /** `x` with right child `y` becomes `y` with left child `x`. */
  function RotateLeft(t: Tree): Tree
    requires t.Branch? && t.right.Branch?
  {
    var y := t.right;
    Branch(y.id, y.color, y.plate, y.isCustom,
           Branch(t.id, t.color, t.plate, t.isCustom, t.left, y.left),
           y.right)
  }

  /** `x` with left child `y` becomes `y` with right child `x`. */
  function RotateRight(t: Tree): Tree
    requires t.Branch? && t.left.Branch?
  {
    var y := t.left;
    Branch(y.id, y.color, y.plate, y.isCustom,
           y.left,
           Branch(t.id, t.color, t.plate, t.isCustom, y.right, t.right))
  }

  /** A rotation keeps the in-order sequence, hence the plate set and the order,
      and uses the same nodes. */
  lemma RotateLeftKeeps(t: Tree)
    requires t.Branch? && t.right.Branch?
    ensures Entries(RotateLeft(t)) == Entries(t)
    ensures Ids(RotateLeft(t)) == Ids(t)
    ensures Distinct(t) ==> Distinct(RotateLeft(t))
  {
    var y := t.right;
    var a, b, c := t.left, y.left, y.right;
    var x' := Branch(t.id, t.color, t.plate, t.isCustom, a, b);
    assert RotateLeft(t) == Branch(y.id, y.color, y.plate, y.isCustom, x', c);
    Rebracket(Entries(a), EntryOf(t), Entries(b), EntryOf(y), Entries(c));
    if Distinct(t) {
      RotateLeftDistinct(t);
    }
  }

  lemma RotateLeftDistinct(t: Tree)
    requires t.Branch? && t.right.Branch? && Distinct(t)
    ensures Distinct(RotateLeft(t))
  {
    var y := t.right;
    var a, b, c := t.left, y.left, y.right;
    var x' := Branch(t.id, t.color, t.plate, t.isCustom, a, b);
    assert Ids(y) == Ids(b) + {y.id} + Ids(c);
    assert Ids(x') == Ids(a) + {t.id} + Ids(b);
    assert Distinct(y);
    assert Distinct(x');
    assert RotateLeft(t) == Branch(y.id, y.color, y.plate, y.isCustom, x', c);
  }

  lemma RotateRightKeeps(t: Tree)
    requires t.Branch? && t.left.Branch?
    ensures Entries(RotateRight(t)) == Entries(t)
    ensures Ids(RotateRight(t)) == Ids(t)
    ensures Distinct(t) ==> Distinct(RotateRight(t))
  {
    var y := t.left;
    var a, b, c := y.left, y.right, t.right;
    var x' := Branch(t.id, t.color, t.plate, t.isCustom, b, c);
    assert RotateRight(t) == Branch(y.id, y.color, y.plate, y.isCustom, a, x');
    Rebracket(Entries(a), EntryOf(y), Entries(b), EntryOf(t), Entries(c));
    if Distinct(t) {
      RotateRightDistinct(t);
    }
  }

  lemma RotateRightDistinct(t: Tree)
    requires t.Branch? && t.left.Branch? && Distinct(t)
    ensures Distinct(RotateRight(t))
  {
    var y := t.left;
    var a, b, c := y.left, y.right, t.right;
    var x' := Branch(t.id, t.color, t.plate, t.isCustom, b, c);
    assert Ids(y) == Ids(a) + {y.id} + Ids(b);
    assert Ids(x') == Ids(b) + {t.id} + Ids(c);
    assert Distinct(y);
    assert Distinct(x');
    assert RotateRight(t) == Branch(y.id, y.color, y.plate, y.isCustom, a, x');
  }

  /** Rewriting the subtree at the hole without changing its in-order contents
      leaves the whole tree's contents unchanged. */
  lemma PlugSameEntries(ctx: seq<Frame>, t: Tree, t': Tree)
    requires Entries(t') == Entries(t)
    ensures Entries(Plug(ctx, t')) == Entries(Plug(ctx, t))
  {
    EntriesPlug(ctx, t);
    EntriesPlug(ctx, t');
  }

  // ----- Red-black invariants -------------------------------------------------

  predicate IsBlack(t: Tree)
  {
    t.Leaf? || t.color == Black
  }

  /** Black nodes on the leftmost path; the black-height when `RB` holds. */
  function BH(t: Tree): nat
  {
    if t.Leaf? then 0 else BH(t.left) + (if t.color == Black then 1 else 0)
  }

  /** No red node has a red child, and every path down to a leaf meets the same
      number of black nodes. */
  predicate RB(t: Tree)
  {
    t.Leaf? ||
    (RB(t.left) && RB(t.right) && BH(t.left) == BH(t.right) &&
     (t.color == Red ==> IsBlack(t.left) && IsBlack(t.right)))
  }

  /** `RB` for both subtrees and equal black-heights, but the root may be a red
      node with a red child. */
  predicate RBBelow(t: Tree)
  {
    t.Leaf? || (RB(t.left) && RB(t.right) && BH(t.left) == BH(t.right))
  }

  /** The path `ctx` is a valid red-black context for a subtree of black-height
      `h`: every sibling is a valid tree of the right black-height, and no red
      frame has a red sibling or a red parent.  (A red frame above a red subtree is
      not excluded here; `PlugRB` asks for that separately.) */
  predicate CtxRB(ctx: seq<Frame>, h: nat)
    decreases |ctx|
  {
    ctx == [] ||
    (RB(ctx[0].sibling) && BH(ctx[0].sibling) == h &&
     (ctx[0].color == Red ==> IsBlack(ctx[0].sibling) && (|ctx| > 1 ==> ctx[1].color == Black)) &&
     CtxRB(ctx[1..], h + (if ctx[0].color == Black then 1 else 0)))
  }

  /** The root, the outermost frame's node, is black. */
  predicate TopBlack(ctx: seq<Frame>)
  {
    ctx != [] ==> ctx[|ctx| - 1].color == Black
  }

  lemma {:induction false} PlugRB(ctx: seq<Frame>, t: Tree)
    requires RB(t) && CtxRB(ctx, BH(t))
    requires ctx != [] && ctx[0].color == Red ==> IsBlack(t)
    ensures RB(Plug(ctx, t))
    decreases |ctx|
  {
    if ctx != [] {
      PlugRB(ctx[1..], Wrap(ctx[0], t));
    }
  }

  lemma {:induction false} UnplugRB(ctx: seq<Frame>, t: Tree)
    requires RB(Plug(ctx, t))
    ensures RB(t) && CtxRB(ctx, BH(t))
    ensures ctx != [] && ctx[0].color == Red ==> IsBlack(t)
    decreases |ctx|
  {
    if ctx != [] {
      UnplugRB(ctx[1..], Wrap(ctx[0], t));
    }
  }

  lemma {:induction false} PlugColor(ctx: seq<Frame>, t: Tree)
    requires ctx != []
    ensures IsBlack(Plug(ctx, t)) <==> ctx[|ctx| - 1].color == Black
    decreases |ctx|
  {
    if |ctx| > 1 {
      PlugColor(ctx[1..], Wrap(ctx[0], t));
    }
  }

  /** `CtxRB` looks only at the colours and siblings of the frames. */
  lemma {:induction false} CtxRBRelabel(c1: seq<Frame>, c2: seq<Frame>, h: nat)
    requires |c1| == |c2|
    requires forall i :: 0 <= i < |c1| ==> c1[i].color == c2[i].color && c1[i].sibling == c2[i].sibling
    ensures CtxRB(c1, h) <==> CtxRB(c2, h)
    decreases |c1|
  {
    if c1 != [] {
      CtxRBRelabel(c1[1..], c2[1..], h + (if c1[0].color == Black then 1 else 0));
    }
  }

  /** The number of black nodes on the path `ctx`. */
  function Blacks(ctx: seq<Frame>): nat
  {
    if ctx == [] then 0 else (if ctx[0].color == Black then 1 else 0) + Blacks(ctx[1..])
  }

  /** A path is valid exactly when its lower part, its upper part and the joint
      between them are. */
  lemma {:induction false} CtxRBAppend(a: seq<Frame>, b: seq<Frame>, h: nat)
    ensures CtxRB(a + b, h) <==>
            CtxRB(a, h) && CtxRB(b, h + Blacks(a)) &&
            (a != [] && b != [] && a[|a| - 1].color == Red ==> b[0].color == Black)
    decreases |a|
  {
    if a == [] {
      assert a + b == b;
    } else {
      assert (a + b)[1..] == a[1..] + b;
      CtxRBAppend(a[1..], b, h + (if a[0].color == Black then 1 else 0));
      if |a| == 1 {
        assert a[1..] == [];
      }
    }
  }

  /** Along a valid path the black-height grows by one per black node. */
  lemma {:induction false} BHPlug(ctx: seq<Frame>, t: Tree)
    requires RB(t) && CtxRB(ctx, BH(t))
    requires ctx != [] && ctx[0].color == Red ==> IsBlack(t)
    ensures BH(Plug(ctx, t)) == BH(t) + Blacks(ctx)
    decreases |ctx|
  {
    if ctx != [] {
      BHPlug(ctx[1..], Wrap(ctx[0], t));
    }
  }

  /** Every frame of `ctx` hangs its hole on the left. */
  predicate AllLeft(ctx: seq<Frame>)
  {
    forall i :: 0 <= i < |ctx| ==> ctx[i].side == Left
  }

  lemma {:induction false} BeforeAllLeft(ctx: seq<Frame>)
    requires AllLeft(ctx)
    ensures Before(ctx) == []
    decreases |ctx|
  {
    if ctx != [] {
      BeforeAllLeft(ctx[1..]);
    }
  }

  /** The range filter over a node splits into its left subtree, the node and its
      right subtree. */
  lemma InRangeBranch(t: Tree, lo: string, hi: string)
    requires t.Branch?
    ensures InRange(Entries(t), lo, hi) ==
            InRange(Entries(t.left), lo, hi) +
            (if LessEq(lo, t.plate) && LessEq(t.plate, hi) then [t.plate] else []) +
            InRange(Entries(t.right), lo, hi)
  {
    InRangeConcat(Entries(t.left) + [EntryOf(t)], Entries(t.right), lo, hi);
    InRangeConcat(Entries(t.left), [EntryOf(t)], lo, hi);
    assert [EntryOf(t)][1..] == [];
  }

  /** How the plates of an ordered tree within `[lo, hi]` split at its root:
      none on the left unless `lo` is below the root, none on the right unless
      `hi` is above it. */
  lemma InRangeSplit(t: Tree, lo: string, hi: string)
    requires t.Branch? && Ordered(t)
    ensures InRange(Entries(t), lo, hi) ==
            InRange(Entries(t.left), lo, hi) +
            (if LessEq(lo, t.plate) && LessEq(t.plate, hi) then [t.plate] else []) +
            InRange(Entries(t.right), lo, hi)
    ensures !Less(lo, t.plate) ==> InRange(Entries(t.left), lo, hi) == []
    ensures !Less(t.plate, hi) ==> InRange(Entries(t.right), lo, hi) == []
  {
    InRangeBranch(t, lo, hi);
    OrderedBranch(t);
    KeysAreEntries(t.left);
    KeysAreEntries(t.right);
    if !Less(lo, t.plate) {
      PruneBelow(Entries(t.left), t.plate, lo, hi);
    }
    if !Less(t.plate, hi) {
      PruneAbove(Entries(t.right), t.plate, lo, hi);
    }
  }

  /** Rotating the subtree at the hole keeps the whole tree's contents and its
      distinctness. */
  lemma RotateLeftPlug(ctx: seq<Frame>, t: Tree)
    requires t.Branch? && t.right.Branch?
    ensures Entries(Plug(ctx, RotateLeft(t))) == Entries(Plug(ctx, t))
    ensures Distinct(Plug(ctx, t)) ==> Distinct(Plug(ctx, RotateLeft(t)))
  {
    RotateLeftKeeps(t);
    PlugSameEntries(ctx, t, RotateLeft(t));
    if Distinct(Plug(ctx, t)) {
      DistinctPlug(ctx, t);
      DistinctReplace(ctx, t, RotateLeft(t));
    }
  }

  lemma RotateRightPlug(ctx: seq<Frame>, t: Tree)
    requires t.Branch? && t.left.Branch?
    ensures Entries(Plug(ctx, RotateRight(t))) == Entries(Plug(ctx, t))
    ensures Distinct(Plug(ctx, t)) ==> Distinct(Plug(ctx, RotateRight(t)))
  {
    RotateRightKeeps(t);
    PlugSameEntries(ctx, t, RotateRight(t));
    if Distinct(Plug(ctx, t)) {
      DistinctPlug(ctx, t);
      DistinctReplace(ctx, t, RotateRight(t));
    }
  }

  /** A tree rebuilt around a non-empty subtree is non-empty. */
  lemma {:induction false} PlugBranch(ctx: seq<Frame>, t: Tree)
    requires t.Branch?
    ensures Plug(ctx, t).Branch?
    decreases |ctx|
  {
    if ctx != [] {
      PlugBranch(ctx[1..], Wrap(ctx[0], t));
    }
  }

  // ----- Walking down -------------------------------------------------------

  /** The frame left behind when a walk steps from `t` down to its child on `side`. */
  function Down(side: Side, t: Tree): Frame
    requires t.Branch?
  {
    Frame(side, t.id, t.color, t.plate, t.isCustom, if side == Left then t.right else t.left)
  }

  /** The child on `side`. */
  function Child(side: Side, t: Tree): Tree
    requires t.Branch?
  {
    if side == Left then t.left else t.right
  }

  /** Stepping down keeps the whole tree: it is rebuilt the same from the longer
      path and the child. */
  lemma PlugDown(ctx: seq<Frame>, side: Side, t: Tree)
    requires t.Branch?
    ensures Plug([Down(side, t)] + ctx, Child(side, t)) == Plug(ctx, t)
    ensures ParentId([Down(side, t)] + ctx) == t.id
  {
    assert ([Down(side, t)] + ctx)[1..] == ctx;
  }

  /** The plate `k` belongs in the hole of `ctx`: every plate before the hole is
      below `k`, every plate after it above. */
  predicate Between(ctx: seq<Frame>, k: string)
  {
    (forall i :: 0 <= i < |Before(ctx)| ==> Less(Before(ctx)[i].plate, k)) &&
    (forall i :: 0 <= i < |After(ctx)| ==> Less(k, After(ctx)[i].plate))
  }

  /** The descent of `addLicence` and of the lookups: from a node of an ordered
      subtree whose plate is not `k`, `k` still belongs below the child on the
      side the comparison picks. */
  lemma DescendStep(ctx: seq<Frame>, t: Tree, k: string)
    requires Between(ctx, k) && t.Branch? && Ordered(t) && k != t.plate
    ensures Less(k, t.plate) ==> Between([Down(Left, t)] + ctx, k)
    ensures !Less(k, t.plate) ==> Between([Down(Right, t)] + ctx, k)
  {
    OrderedBranch(t);
    var side := if Less(k, t.plate) then Left else Right;
    var c := [Down(side, t)] + ctx;
    assert c[1..] == ctx;
    var e := Entry(t.plate, t.isCustom);
    if side == Left {
      assert Before(c) == Before(ctx) + [];
      var a := [e] + Entries(t.right);
      assert After(c) == a + After(ctx);
      forall i | 0 <= i < |a| ensures Less(k, a[i].plate) {
        if i > 0 {
          assert a[i] == Entries(t.right)[i - 1];
          LessTransitive(k, t.plate, a[i].plate);
        }
      }
    } else {
      LessTrichotomy(k, t.plate);
      var b := Entries(t.left) + [e];
      assert Before(c) == Before(ctx) + b;
      assert After(c) == [] + After(ctx);
      forall i | 0 <= i < |b| ensures Less(b[i].plate, k) {
        if i < |Entries(t.left)| {
          LessTransitive(b[i].plate, t.plate, k);
        }
      }
    }
  }

  /** At the end of the descent, the side of the last node the plate hangs on is
      the one its comparison with that node's plate picks. */
  lemma BetweenSide(ctx: seq<Frame>, k: string)
    requires ctx != [] && Between(ctx, k)
    ensures ctx[0].side == Left <==> Less(k, ctx[0].plate)
  {
    var f := ctx[0];
    assert ctx == [f] + ctx[1..];
    var e := Entry(f.plate, f.isCustom);
    if f.side == Left {
      assert After(ctx) == ([e] + Entries(f.sibling)) + After(ctx[1..]);
      assert After(ctx)[0] == e;
    } else {
      var b := Entries(f.sibling) + [e];
      assert Before(ctx) == Before(ctx[1..]) + b;
      assert Before(ctx)[|Before(ctx)| - 1] == e;
      LessAsymmetric(f.plate, k);
    }
  }

  /** A plate that belongs in the hole of an empty spot goes in exactly there: the
      tree with a new node in the hole holds the old entries with the new one
      inserted in order. */
  lemma PlugInsert(ctx: seq<Frame>, t: Tree)
    requires t.Branch? && t.left.Leaf? && t.right.Leaf? && Between(ctx, t.plate)
    ensures Entries(Plug(ctx, t)) == Insert(Entries(Plug(ctx, Leaf)), EntryOf(t))
  {
    EntriesPlug(ctx, t);
    EntriesPlug(ctx, Leaf);
    assert Entries(t) == [EntryOf(t)];
    assert Before(ctx) + Entries(Leaf) + After(ctx) == Before(ctx) + After(ctx);
    InsertBetween(Before(ctx), EntryOf(t), After(ctx));
  }
}
