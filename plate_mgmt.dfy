/** `class RedBlackTree` of the plate registry: a red-black tree of licence plates
    keyed by plate string, with the registry's revenue beside it.  The nodes live
    in the sequence `nodes` (see module `Arena`); `tree` is the ghost value of the
    tree they store. */
module PlateMgmt {
  import opened StringOrder
  import opened PlateList
  import opened RbTree
  import opened Arena
  import opened Balance
  import opened FixupHeap
  import opened DeleteHeap
  import opened PlateDraw
  import opened Neighbours

  /** What `addLicence` reports: the plate was registered (custom or generated),
      or a custom plate was already registered. */
  datatype AddOutcome = Registered(plate: string, isCustom: bool) | Duplicate(plate: string)

  class RedBlackTree {
    var nodes: seq<Node>
    var root: int
    var revenue: int
    ghost var tree: Tree

    /** The class invariant: the heap stores `tree` from `root`; `tree` is a
        binary search tree with no plate twice and no empty plate, a red-black
        tree with a black root; and the revenue is 7 per custom plate plus 4 per
        generated plate. */
    ghost predicate Valid()
      reads this
    {
      TreeValid() && revenue == Revenue(Entries(tree))
    }

    /** The part of `Valid` about the tree alone, which `deleteNodeHelper` keeps
        while the revenue is settled by its caller. */
    ghost predicate TreeValid()
      reads this
    {
      |nodes| > 0 && Sentinel(nodes[TNULL]) &&
      Encodes(nodes, tree, root, NIL) && Distinct(tree) && Ordered(tree) &&
      RB(tree) && IsBlack(tree) &&
      "" !in Keys(tree)
    }

    /** The registered plates in ascending order, each with its flag. */
    ghost function Contents(): seq<Entry>
      reads this
    {
      Entries(tree)
    }

    ghost function Resident(): set<string>
      reads this
    {
      Keys(tree)
    }

    constructor ()
      ensures Valid() && Contents() == [] && revenue == 0
      ensures |nodes| == 1 && root == TNULL
    {
      nodes := [Node("", false, Black, NIL, NIL, NIL)];
      root := TNULL;
      revenue := 0;
      tree := Leaf;
    }

    /** `searchTreeHelper`: the node holding `key` in the subtree stored at
        `node`, or the sentinel if there is none. */
    function SearchTreeHelper(node: int, key: string, ghost t: Tree, ghost p: int): (r: int)
      reads this
      requires Encodes(nodes, t, node, p) && Ordered(t)
      ensures r == TNULL <==> key !in Keys(t)
      ensures r != TNULL ==> r in Ids(t) && 0 < r < |nodes| && nodes[r].plateNum == key
      ensures r != TNULL ==> Entry(key, nodes[r].isCustom) in Entries(t)
      decreases t
    {
      if node == TNULL then
        node
      else if key == nodes[node].plateNum then
        assert EntryOf(t) == Entry(key, nodes[node].isCustom);
        node
      else
        OrderedBranch(t);
        LessTrichotomy(key, nodes[node].plateNum);
        if Less(key, nodes[node].plateNum) then
          LessAsymmetric(key, t.plate);
          SearchTreeHelper(nodes[node].left, key, t.left, node)
        else
          SearchTreeHelper(nodes[node].right, key, t.right, node)
    }

    /** `inorderRange`: appends to `result` the plates of the subtree stored at
        `node` that lie between `lo` and `hi`, in order, skipping the subtrees
        that cannot hold any. */
    method InorderRange(node: int, lo: string, hi: string, result: seq<string>, ghost t: Tree, ghost p: int)
      returns (out: seq<string>)
      requires Encodes(nodes, t, node, p) && Ordered(t)
      ensures out == result + InRange(Entries(t), lo, hi)
      decreases t
    {
      if node == TNULL {
        return result;
      }
      InRangeSplit(t, lo, hi);
      ghost var below, here, above := InRange(Entries(t.left), lo, hi),
        (if LessEq(lo, t.plate) && LessEq(t.plate, hi) then [t.plate] else []), InRange(Entries(t.right), lo, hi);
      AppendThree(result, below, here, above);
      var plate := nodes[node].plateNum;
      out := result;
      if Less(lo, plate) {
        OrderedBranch(t);
        out := InorderRange(nodes[node].left, lo, hi, out, t.left, node);
      }
      assert out == result + below;
      if LessEq(lo, plate) && LessEq(plate, hi) {
        out := out + [plate];
      }
      assert out == result + below + here;
      if Less(plate, hi) {
        OrderedBranch(t);
        out := InorderRange(nodes[node].right, lo, hi, out, t.right, node);
      }
      assert out == result + below + here + above;
    }

    /** `leftRotate(x)`: `x`'s right child `y` takes `x`'s place and `x` becomes
        its left child; the tree stored becomes the rotated tree. */
    method LeftRotate(x: int, ghost ctx: seq<Frame>, ghost t: Tree)
      requires Encodes(nodes, Plug(ctx, t), root, NIL) && Distinct(Plug(ctx, t))
      requires t.Branch? && t.id == x && t.right.Branch?
      modifies this
      ensures LeftRotated(old(nodes), nodes, old(root), root, x, t.right.id, Id(t.right.left), ParentId(ctx))
      ensures Encodes(nodes, Plug(ctx, RotateLeft(t)), root, NIL)
      ensures nodes[TNULL] == old(nodes[TNULL])
      ensures revenue == old(revenue) && tree == old(tree)
    {
      RotateLeftPre(nodes, ctx, t, root);
      ghost var ns, r := nodes, root;
      var y := nodes[x].right;
      nodes := nodes[x := nodes[x].(right := nodes[y].left)];
      if nodes[y].left != TNULL {
        nodes := nodes[nodes[y].left := nodes[nodes[y].left].(parent := x)];
      }
      nodes := nodes[y := nodes[y].(parent := nodes[x].parent)];
      if nodes[x].parent == NIL {
        root := y;
      } else if x == nodes[nodes[x].parent].left {
        nodes := nodes[nodes[x].parent := nodes[nodes[x].parent].(left := y)];
      } else {
        nodes := nodes[nodes[x].parent := nodes[nodes[x].parent].(right := y)];
      }
      nodes := nodes[y := nodes[y].(left := x)];
      nodes := nodes[x := nodes[x].(parent := y)];
      assert (nodes, root) == LeftRotation(ns, r, x);
      LeftRotationSpec(ns, r, x);
      RotateLeftStored(ns, nodes, ctx, t, r, root);
      RotatedSentinel(ns, nodes, r, root, x, t.right.id, Id(t.right.left), ParentId(ctx));
    }

    /** `rightRotate(x)`, the mirror image of `leftRotate`. */
    method RightRotate(x: int, ghost ctx: seq<Frame>, ghost t: Tree)
      requires Encodes(nodes, Plug(ctx, t), root, NIL) && Distinct(Plug(ctx, t))
      requires t.Branch? && t.id == x && t.left.Branch?
      modifies this
      ensures RightRotated(old(nodes), nodes, old(root), root, x, t.left.id, Id(t.left.right), ParentId(ctx))
      ensures Encodes(nodes, Plug(ctx, RotateRight(t)), root, NIL)
      ensures nodes[TNULL] == old(nodes[TNULL])
      ensures revenue == old(revenue) && tree == old(tree)
    {
      RotateRightPre(nodes, ctx, t, root);
      ghost var ns, r := nodes, root;
      var y := nodes[x].left;
      nodes := nodes[x := nodes[x].(left := nodes[y].right)];
      if nodes[y].right != TNULL {
        nodes := nodes[nodes[y].right := nodes[nodes[y].right].(parent := x)];
      }
      nodes := nodes[y := nodes[y].(parent := nodes[x].parent)];
      if nodes[x].parent == NIL {
        root := y;
      } else if x == nodes[nodes[x].parent].right {
        nodes := nodes[nodes[x].parent := nodes[nodes[x].parent].(right := y)];
      } else {
        nodes := nodes[nodes[x].parent := nodes[nodes[x].parent].(left := y)];
      }
      nodes := nodes[y := nodes[y].(right := x)];
      nodes := nodes[x := nodes[x].(parent := y)];
      assert (nodes, root) == RightRotation(ns, r, x);
      RightRotationSpec(ns, r, x);
      RotateRightStored(ns, nodes, ctx, t, r, root);
      RotatedSentinel(ns, nodes, r, root, x, t.left.id, Id(t.left.right), ParentId(ctx));
    }

    /** The state `insertFix` keeps while it climbs: the heap stores `Plug(ctx, t)`,
        with no index twice, and `k`, the root of `t`, is red and may be the only
        node with a red parent. */
    ghost predicate Climbing(k: int, ctx: seq<Frame>, t: Tree)
      reads this
    {
      |nodes| > 0 && Sentinel(nodes[TNULL]) &&
      Encodes(nodes, Plug(ctx, t), root, NIL) && Distinct(Plug(ctx, t)) &&
      InsertInv(ctx, t) && k == t.id
    }

    /** `insertFix(k)`: climbs from the freshly inserted red node `k`, repainting
        and rotating until no red node has a red parent, then paints the root
        black.  The tree stored ends as a red-black tree with a black root,
        holding the same plates in the same order. */
    method InsertFix(k0: int, ghost ctx0: seq<Frame>, ghost t0: Tree) returns (ghost result: Tree)
      requires Climbing(k0, ctx0, t0)
      modifies this
      ensures Encodes(nodes, result, root, NIL) && Distinct(result)
      ensures RB(result) && IsBlack(result)
      ensures Entries(result) == Entries(Plug(ctx0, t0))
      ensures |nodes| > 0 && Sentinel(nodes[TNULL])
      ensures revenue == old(revenue) && tree == old(tree)
    {
      var k := k0;
      ghost var ctx, t := ctx0, t0;
      Upward(nodes, ctx, t, root);
      while nodes[k].parent != NIL && nodes[nodes[k].parent].color == Red
        invariant Climbing(k, ctx, t)
        invariant 0 < k < |nodes| && nodes[k].parent == ParentId(ctx)
        invariant ctx != [] ==> 0 < ctx[0].id < |nodes| && nodes[ctx[0].id].color == ctx[0].color
        invariant Entries(Plug(ctx, t)) == Entries(Plug(ctx0, t0))
        invariant revenue == old(revenue) && tree == old(tree)
        decreases |ctx|
      {
        k, ctx, t := InsertStep(k, ctx, t);
        Upward(nodes, ctx, t, root);
        if k == root {
          break;
        }
      }
      Upward(nodes, ctx, t, root);
      InsertDone(ctx, t);
      PlugBranch(ctx, t);
      PaintRootStored(nodes, Plug(ctx, t), root);
      nodes := nodes[root := nodes[root].(color := Black)];
      result := Paint(Plug(ctx, t), Black);
    }

    /** One pass of the `insertFix` loop, `k`'s parent being red: the case is
        chosen by the side the parent hangs on and the colour of the uncle. */
    method InsertStep(k0: int, ghost ctx0: seq<Frame>, ghost t0: Tree)
      returns (k: int, ghost ctx: seq<Frame>, ghost t: Tree)
      requires Climbing(k0, ctx0, t0) && ctx0 != [] && ctx0[0].color == Red
      modifies this
      ensures Climbing(k, ctx, t) && |ctx| < |ctx0|
      ensures Entries(Plug(ctx, t)) == Entries(Plug(ctx0, t0))
      ensures revenue == old(revenue) && tree == old(tree)
    {
      k, ctx, t := k0, ctx0, t0;
      InsertView(nodes, ctx, t, root);
      if nodes[k].parent == nodes[nodes[nodes[k].parent].parent].right {
        var u := nodes[nodes[nodes[k].parent].parent].left;
        if u != NIL && nodes[u].color == Red {
          k, ctx, t := InsertRecolor(k, u, ctx, t);
        } else {
          k, ctx, t := InsertRotateLeft(k, ctx, t);
        }
      } else {
        var u := nodes[nodes[nodes[k].parent].parent].right;
        if u != NIL && nodes[u].color == Red {
          k, ctx, t := InsertRecolor(k, u, ctx, t);
        } else {
          k, ctx, t := InsertRotateRight(k, ctx, t);
        }
      }
    }

    /** Case 1 of `insertFix`, the uncle `u` being red: the parent and the uncle
        turn black, the grandparent red, and `k` moves up to the grandparent. */
    method InsertRecolor(k: int, u: int, ghost ctx: seq<Frame>, ghost t: Tree)
      returns (k': int, ghost ctx': seq<Frame>, ghost t': Tree)
      requires Climbing(k, ctx, t) && ctx != [] && ctx[0].color == Red
      requires |ctx| >= 2 && IsRed(ctx[1].sibling) && u == ctx[1].sibling.id
      modifies this
      ensures Climbing(k', ctx', t') && |ctx'| < |ctx|
      ensures Entries(Plug(ctx', t')) == Entries(Plug(ctx, t))
      ensures revenue == old(revenue) && tree == old(tree)
    {
      Upward(nodes, ctx, t, root);
      Upward(nodes, ctx[1..], Wrap(ctx[0], t), root);
      InsertCase1Stored(nodes, ctx, t, root);
      InsertCase1(ctx, t);
      Case1Keeps(ctx, t);
      var p := nodes[k].parent;
      nodes := nodes[p := nodes[p].(color := Black)];
      nodes := nodes[u := nodes[u].(color := Black)];
      var g := nodes[p].parent;
      nodes := nodes[g := nodes[g].(color := Red)];
      k' := g;
      ctx', t' := ctx[2..], Case1Focus(ctx, t);
    }

    /** Case 2 of `insertFix`: `k` is an inner grandchild (a left child of a right
        child, or the mirror image); `k` moves up to its parent and rotating there
        turns the old parent into an outer grandchild. */
    method InsertStraighten(k0: int, ghost ctx0: seq<Frame>, ghost t0: Tree)
      returns (k: int, ghost ctx: seq<Frame>, ghost t: Tree)
      requires Climbing(k0, ctx0, t0) && ctx0 != [] && ctx0[0].color == Red
      requires |ctx0| >= 2 && ctx0[0].side != ctx0[1].side
      modifies this
      ensures Climbing(k, ctx, t) && |ctx| == |ctx0| && ctx[1..] == ctx0[1..]
      ensures ctx[0].color == Red && ctx[0].side == ctx0[1].side
      ensures Entries(Plug(ctx, t)) == Entries(Plug(ctx0, t0))
      ensures revenue == old(revenue) && tree == old(tree)
    {
      Upward(nodes, ctx0, t0, root);
      InsertCase2(ctx0, t0);
      k := nodes[k0].parent;
      if k0 == nodes[k].left {
        RightRotate(k, ctx0[1..], Wrap(ctx0[0], t0));
        RotateRightPlug(ctx0[1..], Wrap(ctx0[0], t0));
      } else {
        LeftRotate(k, ctx0[1..], Wrap(ctx0[0], t0));
        RotateLeftPlug(ctx0[1..], Wrap(ctx0[0], t0));
      }
      ctx, t := Case2Ctx(ctx0, t0), Case2Focus(ctx0, t0);
    }

    /** Cases 2 and 3 of `insertFix` when the uncle is black and the parent is a
        right child: if `k` is a left child, rotating right at the parent makes
        the parent the new `k`, a right child; then the parent turns black, the
        grandparent red, and rotating left at the grandparent lifts the parent
        into its place. */
    method InsertRotateLeft(k0: int, ghost ctx0: seq<Frame>, ghost t0: Tree)
      returns (k: int, ghost ctx: seq<Frame>, ghost t: Tree)
      requires Climbing(k0, ctx0, t0) && ctx0 != [] && ctx0[0].color == Red
      requires |ctx0| >= 2 && ctx0[1].side == Right && !IsRed(ctx0[1].sibling)
      modifies this
      ensures Climbing(k, ctx, t) && |ctx| < |ctx0| && ctx != [] && ctx[0].color == Black
      ensures Entries(Plug(ctx, t)) == Entries(Plug(ctx0, t0))
      ensures revenue == old(revenue) && tree == old(tree)
    {
      k, ctx, t := k0, ctx0, t0;
      Upward(nodes, ctx, t, root);
      if k == nodes[nodes[k].parent].left {
        k, ctx, t := InsertStraighten(k, ctx, t);
      }
      k, ctx, t := InsertLiftLeft(k, ctx, t);
    }

    /** Case 3 with the new node, its parent and its grandparent in a line
        leaning right: the parent turns black, the grandparent red, and the
        grandparent is rotated left. */
    method InsertLiftLeft(k0: int, ghost ctx0: seq<Frame>, ghost t0: Tree)
      returns (k: int, ghost ctx: seq<Frame>, ghost t: Tree)
      requires Climbing(k0, ctx0, t0) && |ctx0| >= 2 && ctx0[0].color == Red
      requires ctx0[0].side == Right && ctx0[1].side == Right && !IsRed(ctx0[1].sibling)
      modifies this
      ensures Climbing(k, ctx, t) && |ctx| < |ctx0| && ctx != [] && ctx[0].color == Black
      ensures Entries(Plug(ctx, t)) == Entries(Plug(ctx0, t0))
      ensures revenue == old(revenue) && tree == old(tree)
    {
      k, ctx, t := k0, ctx0, t0;
      Upward(nodes, ctx, t, root);
      Upward(nodes, ctx[1..], Wrap(ctx[0], t), root);
      InsertCase3(ctx, t);
      InsertCase3Stored(nodes, ctx, t, root);
      var p := nodes[k].parent;
      nodes := nodes[p := nodes[p].(color := Black)];
      var g := nodes[p].parent;
      nodes := nodes[g := nodes[g].(color := Red)];
      LeftRotate(g, ctx[2..], Case3Before(ctx, t));
      RotateLeftPlug(ctx[2..], Case3Before(ctx, t));
      ctx := Case3Ctx(ctx);
    }

    /** The mirror image: the uncle is black and the parent is a left child. */
    method InsertRotateRight(k0: int, ghost ctx0: seq<Frame>, ghost t0: Tree)
      returns (k: int, ghost ctx: seq<Frame>, ghost t: Tree)
      requires Climbing(k0, ctx0, t0) && ctx0 != [] && ctx0[0].color == Red
      requires |ctx0| >= 2 && ctx0[1].side == Left && !IsRed(ctx0[1].sibling)
      modifies this
      ensures Climbing(k, ctx, t) && |ctx| < |ctx0| && ctx != [] && ctx[0].color == Black
      ensures Entries(Plug(ctx, t)) == Entries(Plug(ctx0, t0))
      ensures revenue == old(revenue) && tree == old(tree)
    {
      k, ctx, t := k0, ctx0, t0;
      Upward(nodes, ctx, t, root);
      if k == nodes[nodes[k].parent].right {
        k, ctx, t := InsertStraighten(k, ctx, t);
      }
      k, ctx, t := InsertLiftRight(k, ctx, t);
    }

    /** Case 3 with the new node, its parent and its grandparent in a line
        leaning left: the parent turns black, the grandparent red, and the
        grandparent is rotated right. */
    method InsertLiftRight(k0: int, ghost ctx0: seq<Frame>, ghost t0: Tree)
      returns (k: int, ghost ctx: seq<Frame>, ghost t: Tree)
      requires Climbing(k0, ctx0, t0) && |ctx0| >= 2 && ctx0[0].color == Red
      requires ctx0[0].side == Left && ctx0[1].side == Left && !IsRed(ctx0[1].sibling)
      modifies this
      ensures Climbing(k, ctx, t) && |ctx| < |ctx0| && ctx != [] && ctx[0].color == Black
      ensures Entries(Plug(ctx, t)) == Entries(Plug(ctx0, t0))
      ensures revenue == old(revenue) && tree == old(tree)
    {
      k, ctx, t := k0, ctx0, t0;
      Upward(nodes, ctx, t, root);
      Upward(nodes, ctx[1..], Wrap(ctx[0], t), root);
      InsertCase3(ctx, t);
      InsertCase3Stored(nodes, ctx, t, root);
      var p := nodes[k].parent;
      nodes := nodes[p := nodes[p].(color := Black)];
      var g := nodes[p].parent;
      nodes := nodes[g := nodes[g].(color := Red)];
      RightRotate(g, ctx[2..], Case3Before(ctx, t));
      RotateRightPlug(ctx[2..], Case3Before(ctx, t));
      ctx := Case3Ctx(ctx);
    }

    /** The search that opens `deleteNodeHelper`: walks down from the root going
        right past every plate at most `key` and left past the others,
        remembering the last node that holds `key`.  It ends at the node holding
        `key`, or at the sentinel when `key` is not registered. */
    method FindNode(key: string) returns (z: int, ghost zctx: seq<Frame>, ghost zt: Tree)
      requires Valid()
      ensures z == TNULL <==> key !in Resident()
      ensures z != TNULL ==> tree == Plug(zctx, zt) && zt.Branch? && zt.id == z && zt.plate == key
    {
      var node := root;
      z, zctx, zt := TNULL, [], Leaf;
      ghost var ctx: seq<Frame> := [];
      ghost var sub, q := tree, NIL;
      while node != TNULL
        invariant Encodes(nodes, sub, node, q) && tree == Plug(ctx, sub) && Ordered(sub)
        invariant Keys(sub) <= Keys(tree)
        invariant z == TNULL ==> (key in Keys(tree) ==> key in Keys(sub))
        invariant z != TNULL ==> tree == Plug(zctx, zt) && zt.Branch? && zt.id == z && zt.plate == key
        invariant z != TNULL ==> key in Keys(tree)
        decreases sub
      {
        if nodes[node].plateNum == key {
          z, zctx, zt := node, ctx, sub;
        }
        OrderedBranch(sub);
        LessTrichotomy(key, sub.plate);
        q := node;
        if LessEq(nodes[node].plateNum, key) {
          NotInLeft(sub, key);
          PlugDown(ctx, Right, sub);
          ctx := [Down(Right, sub)] + ctx;
          node := nodes[node].right;
          sub := sub.right;
        } else {
          NotInRight(sub, key);
          PlugDown(ctx, Left, sub);
          ctx := [Down(Left, sub)] + ctx;
          node := nodes[node].left;
          sub := sub.left;
        }
      }
    }

    /** The first half of the two-children branch of `deleteNodeHelper`, from
        `if (y->parent == z)` to before `transplant(z, y)`: the successor `y` of
        `z` ends detached, with no left child and the right subtree of `z`
        without `y` as its right child; `z` and its left subtree are untouched. */
    method DetachSuccessor(z: int, y: int, ghost zctx: seq<Frame>, ghost zt: Tree)
      requires |nodes| > 0 && Sentinel(nodes[TNULL])
      requires Encodes(nodes, Plug(zctx, zt), root, NIL) && Distinct(Plug(zctx, zt))
      requires zt.Branch? && zt.id == z && zt.right.Branch? && y == MinNode(zt.right).id
      modifies this
      ensures 0 < y < |nodes| && Encodes(nodes, Detached(zt), y, nodes[y].parent)
      ensures EncCtx(nodes, zctx, z, root)
      ensures Holds(nodes, z, zt.plate, zt.isCustom, zt.color, ParentId(zctx)) && nodes[z].left == Id(zt.left)
      ensures Encodes(nodes, zt.left, Id(zt.left), z)
      ensures MinNode(zt.right).right.Leaf? ==> nodes[TNULL].parent == ParentId(SuccessorCtx(zctx, zt))
      ensures |nodes| == old(|nodes|) && Sentinel(nodes[TNULL])
      ensures revenue == old(revenue) && tree == old(tree)
    {
      SuccessorFocus(nodes, zctx, zt, root);
      CutPre(nodes, zctx, zt, root);
      if nodes[y].parent == z {
        ghost var ns := nodes;
        var x := nodes[y].right;
        nodes := nodes[x := nodes[x].(parent := y)];
        LiftStored(ns, nodes, zctx, zt, root);
      } else {
        RemoveSuccessor(z, y, zctx, zt);
      }
    }

    /** `transplant(y, y->right); y->right = z->right; y->right->parent = y;`:
        when the successor `y` of `z` lies below the right child of `z`, the
        right subtree of `y` takes its place and `y` takes over the right
        subtree of `z`, now without `y`. */
    method RemoveSuccessor(z: int, y: int, ghost zctx: seq<Frame>, ghost zt: Tree)
      requires |nodes| > 0 && Sentinel(nodes[TNULL])
      requires Encodes(nodes, Plug(zctx, zt), root, NIL) && Distinct(Plug(zctx, zt))
      requires zt.Branch? && zt.id == z && zt.right.Branch? && y == MinNode(zt.right).id
      requires MinPath(zt.right) != []
      modifies this
      ensures 0 < y < |nodes| && Encodes(nodes, Detached(zt), y, nodes[y].parent)
      ensures EncCtx(nodes, zctx, z, root)
      ensures Holds(nodes, z, zt.plate, zt.isCustom, zt.color, ParentId(zctx)) && nodes[z].left == Id(zt.left)
      ensures Encodes(nodes, zt.left, Id(zt.left), z)
      ensures MinNode(zt.right).right.Leaf? ==> nodes[TNULL].parent == ParentId(SuccessorCtx(zctx, zt))
      ensures |nodes| == old(|nodes|) && Sentinel(nodes[TNULL])
      ensures revenue == old(revenue) && tree == old(tree)
    {
      CutPre(nodes, zctx, zt, root);
      ghost var ns, r := nodes, root;
      Transplant(y, nodes[y].right, SuccessorPath(zctx, zt), MinNode(zt.right).right, y);
      CutStored(ns, nodes, zctx, zt, r, root);
      ghost var z1 := zt.(right := Plug(MinPath(zt.right), MinNode(zt.right).right));
      ns := nodes;
      nodes := nodes[y := nodes[y].(right := nodes[z].right)];
      nodes := nodes[nodes[y].right := nodes[nodes[y].right].(parent := y)];
      SpliceRight(ns, nodes, zctx, z1, y, root);
    }

    /** `transplant(z, y)`, then `AdoptLeft`: the detached successor `y` takes
        the place of `z`.  The tree stored is then the path `SuccessorCtx` over
        the old right subtree of `y`. */
    method MoveSuccessor(z: int, y: int, ghost zctx: seq<Frame>, ghost zt: Tree)
      requires Distinct(Plug(zctx, zt)) && zt.Branch? && zt.id == z && zt.left.Branch? && zt.right.Branch?
      requires y == MinNode(zt.right).id && 0 < y < |nodes|
      requires Encodes(nodes, Detached(zt), y, nodes[y].parent)
      requires EncCtx(nodes, zctx, z, root)
      requires Holds(nodes, z, zt.plate, zt.isCustom, zt.color, ParentId(zctx)) && nodes[z].left == Id(zt.left)
      requires Encodes(nodes, zt.left, Id(zt.left), z)
      modifies this
      ensures Encodes(nodes, Plug(SuccessorCtx(zctx, zt), MinNode(zt.right).right), root, NIL)
      ensures |nodes| == old(|nodes|) && nodes[TNULL] == old(nodes[TNULL])
      ensures revenue == old(revenue) && tree == old(tree)
    {
      MovePre(zctx, zt);
      ghost var ns, r := nodes, root;
      Transplant(z, y, zctx, Detached(zt), nodes[y].parent);
      MoveStored(ns, nodes, zctx, zt, r, root);
      AdoptLeftOf(z, y, zctx, zt);
    }

    /** `y->left = z->left; y->left->parent = y; y->color = z->color;`: the
        successor, now in the place of `z`, takes over the left subtree and the
        colour of `z`. */
    method AdoptLeftOf(z: int, y: int, ghost zctx: seq<Frame>, ghost zt: Tree)
      requires Distinct(Plug(zctx, zt)) && zt.Branch? && zt.id == z && zt.left.Branch? && zt.right.Branch?
      requires y == MinNode(zt.right).id && Encodes(nodes, Plug(zctx, Detached(zt)), root, NIL)
      requires 0 < y < |nodes| && 0 < z < |nodes| && 0 < zt.left.id < |nodes|
      requires zt.left.id != y && zt.left.id != z && y != z
      requires nodes[z].left == zt.left.id && nodes[z].color == zt.color
      requires Encodes(nodes, zt.left, zt.left.id, z)
      modifies this
      ensures Encodes(nodes, Plug(SuccessorCtx(zctx, zt), MinNode(zt.right).right), root, NIL)
      ensures |nodes| == old(|nodes|) && nodes[TNULL] == old(nodes[TNULL])
      ensures revenue == old(revenue) && tree == old(tree)
    {
      MovedShape(zctx, zt);
      ghost var ns := nodes;
      nodes := nodes[y := nodes[y].(left := nodes[z].left)];
      nodes := nodes[nodes[y].left := nodes[nodes[y].left].(parent := y)];
      nodes := nodes[y := nodes[y].(color := nodes[z].color)];
      AdoptLeft(ns, nodes, zctx, Detached(zt), zt.left, z, zt.color, root);
    }

    /** The two-children branch of `deleteNodeHelper`: the successor `y` of `z`
        (`minimum(z->right)`) is detached, its right subtree `x` taking its
        place, and moved into the place of `z`.  `yOrig` is the colour `y` had;
        `x` is left as the root of `t`, hung at the bottom of `SuccessorCtx`. */
    method ReplaceBySuccessor(z: int, ghost zctx: seq<Frame>, ghost zt: Tree)
      returns (x: int, yOrig: Color, ghost ctx: seq<Frame>, ghost t: Tree)
      requires |nodes| > 0 && Sentinel(nodes[TNULL])
      requires Encodes(nodes, Plug(zctx, zt), root, NIL) && Distinct(Plug(zctx, zt))
      requires zt.Branch? && zt.id == z && zt.left.Branch? && zt.right.Branch?
      modifies this
      ensures ctx == SuccessorCtx(zctx, zt) && t == MinNode(zt.right).right
      ensures yOrig == MinNode(zt.right).color
      ensures Hole(x, ctx, t)
      ensures revenue == old(revenue) && tree == old(tree)
    {
      RightStored(nodes, zctx, zt, root);
      ctx, t := SuccessorCtx(zctx, zt), MinNode(zt.right).right;
      var y := Minimum(nodes[z].right, zt.right, z);
      CutPre(nodes, zctx, zt, root);
      yOrig := nodes[y].color;
      x := nodes[y].right;
      DetachSuccessor(z, y, zctx, zt);
      MoveSuccessor(z, y, zctx, zt);
      MovedShape(zctx, zt);
      if t.Branch? {
        Upward(nodes, ctx, t, root);
      }
    }

    /** The heap stores `Plug(ctx, t)` with no index twice; `x` is the root of
        `t`, or the sentinel when `t` is empty, and its parent pointer names the
        innermost frame.  This is where `deleteNodeHelper` leaves `x`. */
    ghost predicate Hole(x: int, ctx: seq<Frame>, t: Tree)
      reads this
    {
      |nodes| > 0 && Sentinel(nodes[TNULL]) &&
      Encodes(nodes, Plug(ctx, t), root, NIL) && Distinct(Plug(ctx, t)) &&
      x == Id(t) && x < |nodes| && nodes[x].parent == ParentId(ctx)
    }

    /** The state `deleteFix` keeps while it climbs: `x` is as in `Hole`, and the
        subtree at `x` is one black node short of what the path above needs. */
    ghost predicate Deficient(x: int, ctx: seq<Frame>, t: Tree)
      reads this
    {
      Hole(x, ctx, t) && DeleteInv(ctx, t)
    }

    /** `deleteFix(x)`: climbs from `x`, which is one black node short, repainting
        and rotating until `x` is red or the root, then paints `x` black.  The
        tree stored ends as a red-black tree with a black root, holding the same
        plates in the same order. */
    method DeleteFix(x0: int, ghost ctx0: seq<Frame>, ghost t0: Tree) returns (ghost result: Tree)
      requires Deficient(x0, ctx0, t0)
      modifies this
      ensures Encodes(nodes, result, root, NIL) && Distinct(result)
      ensures RB(result) && IsBlack(result)
      ensures Entries(result) == Entries(Plug(ctx0, t0))
      ensures |nodes| > 0 && Sentinel(nodes[TNULL])
      ensures revenue == old(revenue) && tree == old(tree)
    {
      var x := x0;
      ghost var ctx, t := ctx0, t0;
      DeleteGuard(nodes, ctx, t, root);
      while x != root && nodes[x].color == Black
        invariant Deficient(x, ctx, t)
        invariant (x == root <==> ctx == []) && (nodes[x].color == Black <==> !IsRed(t))
        invariant Entries(Plug(ctx, t)) == Entries(Plug(ctx0, t0))
        invariant revenue == old(revenue) && tree == old(tree)
        decreases |ctx| + if IsRed(t) then 0 else 1
      {
        x, ctx, t := DeleteStep(x, ctx, t);
        DeleteGuard(nodes, ctx, t, root);
      }
      DeleteDone(ctx, t);
      if t.Branch? {
        Recolor(nodes, ctx, t, Black, root);
        RecolorDistinct(ctx, t, Black);
      } else {
        assert nodes[x].(color := Black) == nodes[x];
      }
      nodes := nodes[x := nodes[x].(color := Black)];
      result := Plug(ctx, Paint(t, Black));
    }

    /** One pass of the `deleteFix` loop: the case analysis is the same on both
        sides with left and right exchanged. */
    method DeleteStep(x: int, ghost ctx: seq<Frame>, ghost t: Tree)
      returns (x': int, ghost ctx': seq<Frame>, ghost t': Tree)
      requires Deficient(x, ctx, t) && ctx != [] && !IsRed(t)
      modifies this
      ensures Deficient(x', ctx', t')
      ensures |ctx'| + (if IsRed(t') then 0 else 1) < |ctx| + 1
      ensures Entries(Plug(ctx', t')) == Entries(Plug(ctx, t))
      ensures revenue == old(revenue) && tree == old(tree)
    {
      DeleteSibling(ctx, t);
      DeleteView(nodes, ctx, t, root);
      if x == nodes[nodes[x].parent].left {
        x', ctx', t' := DeleteRound(x, Left, ctx, t);
      } else {
        x', ctx', t' := DeleteRound(x, Right, ctx, t);
      }
    }

    /** The body of the `deleteFix` loop for `x` hanging on `side`: a red sibling
        is first turned black by case 1; then cases 2 to 4 deal with the black
        sibling. */
    method DeleteRound(x: int, side: Side, ghost ctx: seq<Frame>, ghost t: Tree)
      returns (x': int, ghost ctx': seq<Frame>, ghost t': Tree)
      requires Deficient(x, ctx, t) && ctx != [] && !IsRed(t) && ctx[0].side == side
      modifies this
      ensures Deficient(x', ctx', t')
      ensures |ctx'| + (if IsRed(t') then 0 else 1) < |ctx| + 1
      ensures Entries(Plug(ctx', t')) == Entries(Plug(ctx, t))
      ensures revenue == old(revenue) && tree == old(tree)
    {
      DeleteSibling(ctx, t);
      DeleteView(nodes, ctx, t, root);
      var s := if side == Left then nodes[nodes[x].parent].right else nodes[nodes[x].parent].left;
      ghost var c := ctx;
      if nodes[s].color == Red {
        c := DeleteRedSibling(x, side, ctx, t);
      }
      x', ctx', t' := DeleteBlackSibling(x, side, c, t);
    }

    /** The rotation `deleteFix` makes to move `p` down on `side`: `leftRotate(p)`
        for the left side, `rightRotate(p)` for the right. */
    method RotateDown(side: Side, p: int, ghost ctx: seq<Frame>, ghost b: Tree) returns (ghost b': Tree)
      requires Encodes(nodes, Plug(ctx, b), root, NIL) && Distinct(Plug(ctx, b))
      requires |nodes| > 0 && b.Branch? && b.id == p
      requires if side == Left then b.right.Branch? else b.left.Branch?
      modifies this
      ensures b' == if side == Left then RotateLeft(b) else RotateRight(b)
      ensures Encodes(nodes, Plug(ctx, b'), root, NIL) && Distinct(Plug(ctx, b'))
      ensures Entries(Plug(ctx, b')) == Entries(Plug(ctx, b))
      ensures |nodes| == old(|nodes|) && nodes[TNULL] == old(nodes[TNULL])
      ensures revenue == old(revenue) && tree == old(tree)
    {
      if side == Left {
        LeftRotate(p, ctx, b);
        RotateLeftPlug(ctx, b);
        b' := RotateLeft(b);
      } else {
        RightRotate(p, ctx, b);
        RotateRightPlug(ctx, b);
        b' := RotateRight(b);
      }
    }

    /** Case 1 of `deleteFix`: the red sibling turns black, the parent red, and
        the parent is rotated towards `x`; `x` keeps its place with a black
        sibling and a red parent. */
    method DeleteRedSibling(x: int, side: Side, ghost ctx: seq<Frame>, ghost t: Tree) returns (ghost ctx': seq<Frame>)
      requires Deficient(x, ctx, t) && ctx != [] && !IsRed(t) && ctx[0].side == side
      requires IsRed(ctx[0].sibling)
      modifies this
      ensures Deficient(x, ctx', t) && ctx' == DCase1Ctx(ctx)
      ensures ctx'[0].side == side && ctx'[0].color == Red
      ensures ctx'[0].sibling.Branch? && !IsRed(ctx'[0].sibling)
      ensures Entries(Plug(ctx', t)) == Entries(Plug(ctx, t))
      ensures revenue == old(revenue) && tree == old(tree)
    {
      DeleteView(nodes, ctx, t, root);
      DCase1Stored(nodes, ctx, t, root);
      DeleteCase1(ctx, t);
      var p := nodes[x].parent;
      var s := if side == Left then nodes[p].right else nodes[p].left;
      nodes := nodes[s := nodes[s].(color := Black)];
      nodes := nodes[p := nodes[p].(color := Red)];
      ghost var b := RotateDown(side, p, ctx[1..], DCase1Before(ctx, t));
      ctx' := DCase1Ctx(ctx);
      if t.Branch? {
        Upward(nodes, ctx', t, root);
      }
    }

    /** Cases 2 to 4 of `deleteFix`, the sibling being black.  With both of its
        children black (case 2) the sibling turns red and `x` moves up to the
        parent; otherwise a black far child is first made red by case 3, and case
        4 rotates at the parent and ends the loop with `x` at the root. */
    method DeleteBlackSibling(x: int, side: Side, ghost ctx: seq<Frame>, ghost t: Tree)
      returns (x': int, ghost ctx': seq<Frame>, ghost t': Tree)
      requires Deficient(x, ctx, t) && ctx != [] && !IsRed(t) && ctx[0].side == side
      requires ctx[0].sibling.Branch? && !IsRed(ctx[0].sibling)
      modifies this
      ensures Deficient(x', ctx', t')
      ensures ctx' == [] || (|ctx'| == |ctx| - 1 && (IsRed(t') <==> ctx[0].color == Red))
      ensures Entries(Plug(ctx', t')) == Entries(Plug(ctx, t))
      ensures revenue == old(revenue) && tree == old(tree)
    {
      DeleteView(nodes, ctx, t, root);
      var s := if side == Left then nodes[nodes[x].parent].right else nodes[nodes[x].parent].left;
      if nodes[nodes[s].left].color == Black && nodes[nodes[s].right].color == Black {
        x', ctx', t' := DeleteRecolorSibling(x, side, ctx, t);
      } else {
        ghost var c := ctx;
        var far := if side == Left then nodes[s].right else nodes[s].left;
        if nodes[far].color == Black {
          c := DeleteStraighten(x, side, ctx, t);
        }
        x', ctx', t' := DeleteLift(x, side, c, t);
      }
    }

    /** Case 2 of `deleteFix`: the sibling and both its children are black; the
        sibling turns red and `x` moves up to the parent. */
    method DeleteRecolorSibling(x: int, side: Side, ghost ctx: seq<Frame>, ghost t: Tree)
      returns (x': int, ghost ctx': seq<Frame>, ghost t': Tree)
      requires Deficient(x, ctx, t) && ctx != [] && !IsRed(t) && ctx[0].side == side
      requires ctx[0].sibling.Branch? && !IsRed(ctx[0].sibling)
      requires !IsRed(ctx[0].sibling.left) && !IsRed(ctx[0].sibling.right)
      modifies this
      ensures Deficient(x', ctx', t') && ctx' == ctx[1..]
      ensures IsRed(t') <==> ctx[0].color == Red
      ensures Entries(Plug(ctx', t')) == Entries(Plug(ctx, t))
      ensures revenue == old(revenue) && tree == old(tree)
    {
      DeleteView(nodes, ctx, t, root);
      DCase2Stored(nodes, ctx, t, root);
      DeleteCase2(ctx, t);
      var s := if side == Left then nodes[nodes[x].parent].right else nodes[nodes[x].parent].left;
      nodes := nodes[s := nodes[s].(color := Red)];
      x' := nodes[x].parent;
      ctx', t' := ctx[1..], DCase2Focus(ctx, t);
      Upward(nodes, ctx', t', root);
    }

    /** Case 3 of `deleteFix`: the sibling's far child is black and its near
        child red; the near child turns black, the sibling red, and the sibling
        is rotated away from `x`, leaving `x` a black sibling with a red far
        child. */
    method DeleteStraighten(x: int, side: Side, ghost ctx: seq<Frame>, ghost t: Tree) returns (ghost ctx': seq<Frame>)
      requires Deficient(x, ctx, t) && ctx != [] && !IsRed(t) && ctx[0].side == side
      requires ctx[0].sibling.Branch? && !IsRed(ctx[0].sibling)
      requires IsRed(Near(side, ctx[0].sibling)) && !IsRed(Far(side, ctx[0].sibling))
      modifies this
      ensures Deficient(x, ctx', t) && |ctx'| == |ctx| && ctx'[0].color == ctx[0].color
      ensures ctx'[0].side == side && ctx'[0].sibling.Branch? && !IsRed(ctx'[0].sibling)
      ensures IsRed(Far(side, ctx'[0].sibling))
      ensures Entries(Plug(ctx', t)) == Entries(Plug(ctx, t))
      ensures revenue == old(revenue) && tree == old(tree)
    {
      DeleteView(nodes, ctx, t, root);
      DCase3Stored(nodes, ctx, t, root);
      DeleteCase3(ctx, t);
      ghost var sib := ctx[0].sibling;
      var s := if side == Left then nodes[nodes[x].parent].right else nodes[nodes[x].parent].left;
      var n := if side == Left then nodes[s].left else nodes[s].right;
      nodes := nodes[n := nodes[n].(color := Black)];
      nodes := nodes[s := nodes[s].(color := Red)];
      ghost var b := RotateDown(Flip(side), s, SiblingCtx(ctx, t), DCase3Before(side, sib));
      SiblingPlug(ctx, t, DCase3Sibling(side, sib));
      ctx' := [ctx[0].(sibling := DCase3Sibling(side, sib))] + ctx[1..];
      if t.Branch? {
        Upward(nodes, ctx', t, root);
      }
    }

    /** Case 4 of `deleteFix`: the sibling is black with a red far child; the
        sibling takes the parent's colour, the parent and the far child turn
        black, and the parent is rotated towards `x`.  `x` becomes the root,
        which ends the loop. */
    method DeleteLift(x: int, side: Side, ghost ctx: seq<Frame>, ghost t: Tree)
      returns (x': int, ghost ctx': seq<Frame>, ghost t': Tree)
      requires Deficient(x, ctx, t) && ctx != [] && !IsRed(t) && ctx[0].side == side
      requires ctx[0].sibling.Branch? && !IsRed(ctx[0].sibling) && IsRed(Far(side, ctx[0].sibling))
      modifies this
      ensures Deficient(x', ctx', t') && ctx' == [] && x' == root
      ensures Entries(t') == Entries(Plug(ctx, t))
      ensures revenue == old(revenue) && tree == old(tree)
    {
      DeleteView(nodes, ctx, t, root);
      DCase4Stored(nodes, ctx, t, root);
      DeleteCase4(ctx, t);
      var p := nodes[x].parent;
      var s := if side == Left then nodes[p].right else nodes[p].left;
      var far := if side == Left then nodes[s].right else nodes[s].left;
      nodes := nodes[s := nodes[s].(color := nodes[p].color)];
      nodes := nodes[p := nodes[p].(color := Black)];
      nodes := nodes[far := nodes[far].(color := Black)];
      ghost var b := RotateDown(side, p, ctx[1..], DCase4Before(ctx, t));
      t' := Plug(ctx[1..], b);
      x', ctx' := root, [];
      PlugBranch(ctx[1..], b);
      Upward(nodes, [], t', root);
    }

    /** `transplant(u, v)`: the subtree stored at `v` takes the place of the one at
        `u`; `v`'s parent pointer is set even when `v` is the sentinel. */
    method Transplant(u: int, v: int, ghost ctx: seq<Frame>, ghost tv: Tree, ghost q: int)
      requires 0 < u < |nodes| && nodes[u].parent == ParentId(ctx)
      requires EncCtx(nodes, ctx, u, root) && Distinct(Plug(ctx, Leaf)) && u !in CtxIds(ctx)
      requires Encodes(nodes, tv, v, q) && Distinct(tv) && Ids(tv) !! CtxIds(ctx)
      requires |nodes| > 0
      modifies this
      ensures Transplanted(old(nodes), nodes, old(root), root, u, v, ParentId(ctx))
      ensures Encodes(nodes, Plug(ctx, tv), root, NIL)
      ensures revenue == old(revenue) && tree == old(tree)
    {
      EncodesIds(nodes, tv, v, q);
      EncCtxIds(nodes, ctx, u, root);
      assert ParentId(ctx) != NIL ==> ParentId(ctx) in CtxIds(ctx);
      var p := nodes[u].parent;
      if p == NIL {
        root := v;
      } else if u == nodes[p].left {
        nodes := nodes[p := nodes[p].(left := v)];
      } else {
        nodes := nodes[p := nodes[p].(right := v)];
      }
      nodes := nodes[v := nodes[v].(parent := p)];
      TransplantStored(old(nodes), nodes, ctx, u, tv, v, q, old(root), root);
    }

    /** The one-child branches of `deleteNodeHelper`: `z` has no left child (or
        no right child), and the other child `x` takes its place through
        `transplant`.  `x` is left as the root of `t`, hung at the bottom of the
        path to `z`; its parent pointer is set even when it is the sentinel. */
    method SpliceOut(z: int, ghost zctx: seq<Frame>, ghost zt: Tree)
      returns (x: int, ghost t: Tree)
      requires |nodes| > 0 && Sentinel(nodes[TNULL])
      requires Encodes(nodes, Plug(zctx, zt), root, NIL) && Distinct(Plug(zctx, zt))
      requires zt.Branch? && zt.id == z && (zt.left.Leaf? || zt.right.Leaf?)
      modifies this
      ensures t == if zt.left.Leaf? then zt.right else zt.left
      ensures Hole(x, zctx, t)
      ensures revenue == old(revenue) && tree == old(tree)
    {
      Focus(nodes, zctx, zt, root);
      RemoveOneChildIds(zctx, zt);
      assert ParentId(zctx) != NIL ==> ParentId(zctx) in CtxIds(zctx);
      if nodes[z].left == TNULL {
        x, t := nodes[z].right, zt.right;
      } else {
        EncodesIds(nodes, zt.left, nodes[z].left, z);
        x, t := nodes[z].left, zt.left;
      }
      EncodesIds(nodes, t, x, z);
      Transplant(z, x, zctx, t, z);
    }

    /** The unlinking half of `deleteNodeHelper`, once `z` is found: a node with
        at most one child is replaced by that child; otherwise its successor
        `y` is moved into its place.  `yOrig` is the colour of the node taken
        out of its position, and `x` the node now in that position, at the
        bottom of `ctx`.  The tree stored lacks exactly the entry of `z`; it is
        red-black already when `yOrig` is red, and one black node short at `x`
        when `yOrig` is black. */
    method Unlink(z: int, ghost zctx: seq<Frame>, ghost zt: Tree)
      returns (x: int, yOrig: Color, ghost ctx: seq<Frame>, ghost t: Tree)
      requires |nodes| > 0 && Sentinel(nodes[TNULL])
      requires Encodes(nodes, Plug(zctx, zt), root, NIL) && Distinct(Plug(zctx, zt))
      requires RB(Plug(zctx, zt)) && IsBlack(Plug(zctx, zt))
      requires zt.Branch? && zt.id == z
      modifies this
      ensures Hole(x, ctx, t)
      ensures Entries(Plug(ctx, t)) == (Before(zctx) + Entries(zt.left)) + (Entries(zt.right) + After(zctx))
      ensures yOrig == Black ==> DeleteInv(ctx, t)
      ensures yOrig == Red ==> RB(Plug(ctx, t)) && IsBlack(Plug(ctx, t))
      ensures revenue == old(revenue) && tree == old(tree)
    {
      Focus(nodes, zctx, zt, root);
      if nodes[z].left == TNULL || nodes[z].right == TNULL {
        yOrig := nodes[z].color;
        RemoveOneChild(zctx, zt);
        RemoveOneChildEntries(zctx, zt);
        x, t := SpliceOut(z, zctx, zt);
        ctx := zctx;
      } else {
        EncodesIds(nodes, zt.left, nodes[z].left, z);
        EncodesIds(nodes, zt.right, nodes[z].right, z);
        RemoveTwoChildren(zctx, zt);
        RemoveTwoChildrenEntries(zctx, zt);
        x, yOrig, ctx, t := ReplaceBySuccessor(z, zctx, zt);
      }
    }

    /** `deleteNodeHelper(root, key)`: finds the node holding `key` and, if
        there is one, unlinks it, then calls `deleteFix` when the node taken out
        of its position was black.  The tree then holds the old plates without
        `key`, still ordered and red-black with a black root; the revenue is not
        touched. */
    method DeleteNodeHelper(key: string)
      requires Valid()
      modifies this
      ensures TreeValid() && revenue == old(revenue)
      ensures Contents() == Delete(old(Contents()), key)
      ensures Resident() == old(Resident()) - {key}
    {
      KeysAreEntries(tree);
      DeleteSpec(Entries(tree), key);
      var z;
      ghost var zctx, zt;
      z, zctx, zt := FindNode(key);
      if z == TNULL {
        return;
      }
      RemovedEntries(zctx, zt);
      var x, yOrig;
      ghost var ctx, t;
      x, yOrig, ctx, t := Unlink(z, zctx, zt);
      if yOrig == Black {
        tree := DeleteFix(x, ctx, t);
      } else {
        tree := Plug(ctx, t);
      }
      KeysAreEntries(tree);
    }

    /** `minimum(node)`: the leftmost node of the subtree stored at `node`. */
    method Minimum(node: int, ghost t: Tree, ghost p: int) returns (r: int)
      requires Encodes(nodes, t, node, p) && t.Branch?
      ensures r == MinNode(t).id
    {
      r := node;
      ghost var cur := t;
      ghost var q := p;
      while nodes[r].left != TNULL
        invariant Encodes(nodes, cur, r, q) && cur.Branch? && MinNode(cur) == MinNode(t)
        decreases cur
      {
        EncodesIds(nodes, cur.left, nodes[r].left, r);
        q := r;
        r := nodes[r].left;
        cur := cur.left;
      }
      EncodesIds(nodes, cur.left, nodes[r].left, r);
    }

    /** The descent of `addLicence` for a plate not in the tree: walks from the
        root to the empty spot where the plate belongs and returns the last node
        met (`NIL` for an empty tree).  `ctx` is the path walked. */
    method FindParent(key: string) returns (y: int, ghost ctx: seq<Frame>)
      requires Encodes(nodes, tree, root, NIL) && Ordered(tree) && key !in Keys(tree)
      ensures tree == Plug(ctx, Leaf) && Between(ctx, key) && y == ParentId(ctx)
      ensures ctx != [] ==> 0 < y < |nodes| && nodes[y].plateNum == ctx[0].plate
    {
      y := NIL;
      var x := root;
      ctx := [];
      ghost var sub := tree;
      while x != TNULL
        invariant tree == Plug(ctx, sub) && Encodes(nodes, sub, x, y)
        invariant Ordered(sub) && key !in Keys(sub)
        invariant y == ParentId(ctx) && Between(ctx, key)
        invariant ctx != [] ==> 0 < y < |nodes| && nodes[y].plateNum == ctx[0].plate
        decreases sub
      {
        y := x;
        OrderedBranch(sub);
        DescendStep(ctx, sub, key);
        var side := if Less(key, nodes[x].plateNum) then Left else Right;
        PlugDown(ctx, side, sub);
        ctx := [Down(side, sub)] + ctx;
        if side == Left {
          x := nodes[x].left;
        } else {
          x := nodes[x].right;
        }
        sub := Child(side, sub);
      }
    }

    /** The allocation and linking steps of `addLicence`: a new red node with
        sentinel children is appended to the heap and hung on the spot the
        descent found.  The heap then stores the old tree with the new node in
        that spot; the ghost `tree` is not updated yet. */
    method Attach(plate: string, isCustom: bool) returns (n: nat, ghost ctx: seq<Frame>, ghost t: Tree)
      requires Valid() && plate !in Resident()
      modifies this
      ensures tree == old(tree) && revenue == old(revenue)
      ensures tree == Plug(ctx, Leaf) && Between(ctx, plate)
      ensures t == Branch(n, Red, plate, isCustom, Leaf, Leaf)
      ensures |nodes| > 0 && Sentinel(nodes[TNULL])
      ensures Encodes(nodes, Plug(ctx, t), root, NIL) && Distinct(Plug(ctx, t))
      ensures 0 < n < |nodes| && nodes[n].parent == ParentId(ctx)
    {
      n := |nodes|;
      ghost var ns := nodes;
      nodes := nodes + [Node(plate, isCustom, Red, TNULL, TNULL, NIL)];
      EncodesIds(ns, tree, root, NIL);
      EncodesFrame(ns, nodes, tree, root, NIL);
      ghost var ns1 := nodes;
      var y;
      y, ctx := FindParent(plate);
      IdsPlug(ctx, Leaf);
      assert y != NIL ==> y in Ids(tree) && y < n;
      nodes := nodes[n := nodes[n].(parent := y)];
      if y == NIL {
        root := n;
      } else if Less(plate, nodes[y].plateNum) {
        nodes := nodes[y := nodes[y].(left := n)];
      } else {
        nodes := nodes[y := nodes[y].(right := n)];
      }
      t := Branch(n, Red, plate, isCustom, Leaf, Leaf);
      if ctx != [] {
        BetweenSide(ctx, plate);
      }
      AttachStored(ns1, nodes, ctx, t, old(root), root);
    }

    /** The insertion branch of `addLicence` for a plate not yet registered: the
        new node is linked in, painted black if it is the root and otherwise
        handed to `insertFix`, and the fee is added to the revenue.  The
        registry then holds the old plates with the new one in its place. */
    method InsertPlate(plate: string, isCustom: bool)
      requires Valid() && plate != "" && plate !in Resident()
      modifies this
      ensures Valid()
      ensures Contents() == Insert(old(Contents()), Entry(plate, isCustom))
      ensures Resident() == old(Resident()) + {plate}
      ensures revenue == old(revenue) + (if isCustom then 7 else 4)
    {
      var n;
      ghost var ctx, t;
      n, ctx, t := Attach(plate, isCustom);
      ghost var e := Entry(plate, isCustom);
      KeysAreEntries(tree);
      InsertSpec(Entries(tree), e);
      PlugInsert(ctx, t);
      if nodes[n].parent == NIL {
        Recolor(nodes, [], t, Black, root);
        nodes := nodes[n := nodes[n].(color := Black)];
        tree := t.(color := Black);
      } else {
        InsertStart(ctx, t);
        tree := InsertFix(n, ctx, t);
      }
      revenue := revenue + if isCustom then 7 else 4;
      KeysAreEntries(tree);
    }

    /** The `do … while` loop of `addLicence`: draws four-character plates from
        `rolls` until one is not registered.  It ends with the plate of the first
        free attempt. */
    method GeneratePlate(rolls: seq<nat>) returns (plate: string)
      requires Valid() && FirstFree(rolls, Resident()).Some?
      ensures FirstFree(rolls, Resident()) == Some(plate)
    {
      var k := 0;
      plate := DrawPlate(rolls, k);
      while SearchTreeHelper(root, plate, tree, NIL) != TNULL
        invariant HasAttempt(rolls, k) && plate == Candidate(rolls, k)
        invariant FirstFree(rolls, Resident()) == FirstFree(rolls[4 * k..], Resident())
        decreases |rolls| - 4 * k
      {
        assert rolls[4 * k..][4..] == rolls[4 * (k + 1)..];
        k := k + 1;
        plate := DrawPlate(rolls, k);
      }
    }

    /** `addLicence(plateNum)`: an empty `plateNum` asks for a generated plate,
        drawn from `rolls` (the values `rand()` returns); a custom plate that is
        already registered is refused and nothing changes.  Otherwise the plate
        is registered, for 7 when custom and 4 when generated. */
    method AddLicence(plateNum: string, rolls: seq<nat>) returns (outcome: AddOutcome)
      requires Valid()
      requires plateNum == "" ==> FirstFree(rolls, Resident()).Some?
      modifies this
      ensures Valid()
      ensures plateNum != "" && plateNum in old(Resident()) ==>
                outcome == Duplicate(plateNum) && Contents() == old(Contents()) && revenue == old(revenue)
      ensures plateNum != "" && plateNum !in old(Resident()) ==> outcome == Registered(plateNum, true)
      ensures plateNum == "" ==>
                outcome.Registered? && !outcome.isCustom && FirstFree(rolls, old(Resident())) == Some(outcome.plate)
      ensures outcome.Registered? ==>
                outcome.plate !in old(Resident()) &&
                Contents() == Insert(old(Contents()), Entry(outcome.plate, outcome.isCustom)) &&
                revenue == old(revenue) + (if outcome.isCustom then 7 else 4)
    {
      var isCustom := plateNum != "";
      var plate := plateNum;
      if !isCustom {
        plate := GeneratePlate(rolls);
      }
      if SearchTreeHelper(root, plate, tree, NIL) != TNULL {
        // a generated plate is never registered already, so the source's
        // trailing `return ""` is not reached
        assert isCustom;
        outcome := Duplicate(plate);
      } else {
        InsertPlate(plate, isCustom);
        outcome := Registered(plate, isCustom);
      }
    }

    /** `dropLicence(plateNum)`: a plate that is not registered is refused and
        nothing changes; otherwise it is removed and its fee (7 when custom, 4
        when generated) is taken off the revenue. */
    method DropLicence(plateNum: string) returns (removed: bool)
      requires Valid()
      modifies this
      ensures Valid()
      ensures removed <==> plateNum in old(Resident())
      ensures !removed ==> Contents() == old(Contents()) && revenue == old(revenue)
      ensures removed ==> exists i :: 0 <= i < |old(Contents())| && old(Contents())[i].plate == plateNum &&
                                     revenue == old(revenue) - Fee(old(Contents())[i])
      ensures Contents() == Delete(old(Contents()), plateNum)
      ensures Resident() == old(Resident()) - {plateNum}
    {
      var found := SearchTreeHelper(root, plateNum, tree, NIL);
      if found == TNULL {
        removed := false;
        KeysAreEntries(tree);
        DeleteSpec(Entries(tree), plateNum);
        return;
      }
      var isCustom := nodes[found].isCustom;
      ghost var es := Entries(tree);
      ghost var i :| 0 <= i < |es| && es[i] == Entry(plateNum, isCustom);
      DeleteSpec(es, plateNum);
      DeleteNodeHelper(plateNum);
      revenue := revenue - if isCustom then 7 else 4;
      removed := true;
    }

    /** `lookupLicence`: whether the plate is registered. */
    method LookupLicence(plateNum: string) returns (found: bool)
      requires Valid()
      ensures found <==> plateNum in Resident()
    {
      found := SearchTreeHelper(root, plateNum, tree, NIL) != TNULL;
    }

    /** `lookupPrev`: the greatest registered plate below `plateNum`, or `""`
        when there is none. */
    method LookupPrev(plateNum: string) returns (result: string)
      requires Valid()
      ensures IsPrev(Resident(), plateNum, result)
    {
      result := "";
      var current := root;
      ghost var sub, q := tree, NIL;
      PrevStart(tree, plateNum);
      while current != TNULL
        invariant Encodes(nodes, sub, current, q) && Ordered(sub)
        invariant PrevSearch(tree, sub, plateNum, result)
        decreases sub
      {
        PrevStep(tree, sub, plateNum, result);
        OrderedBranch(sub);
        q := current;
        if Less(nodes[current].plateNum, plateNum) {
          result := nodes[current].plateNum;
          current := nodes[current].right;
          sub := sub.right;
        } else {
          current := nodes[current].left;
          sub := sub.left;
        }
      }
      PrevEnd(tree, plateNum, result);
    }

    /** `lookupNext`: the least registered plate above `plateNum`, or `""` when
        there is none. */
    method LookupNext(plateNum: string) returns (result: string)
      requires Valid()
      ensures IsNext(Resident(), plateNum, result)
    {
      result := "";
      var current := root;
      ghost var sub, q := tree, NIL;
      NextStart(tree, plateNum);
      while current != TNULL
        invariant Encodes(nodes, sub, current, q) && Ordered(sub)
        invariant NextSearch(tree, sub, plateNum, result)
        decreases sub
      {
        NextStep(tree, sub, plateNum, result);
        OrderedBranch(sub);
        q := current;
        if Less(plateNum, nodes[current].plateNum) {
          result := nodes[current].plateNum;
          current := nodes[current].left;
          sub := sub.left;
        } else {
          current := nodes[current].right;
          sub := sub.right;
        }
      }
      NextEnd(tree, plateNum, result);
    }

    /** `lookupRange`: the registered plates from `lo` to `hi`, both included, in
        ascending order; none when `hi` is below `lo`. */
    method LookupRange(lo: string, hi: string) returns (plates: seq<string>)
      requires Valid()
      ensures plates == InRange(Contents(), lo, hi)
      ensures Ascending(plates)
      ensures forall k :: k in plates <==> k in Resident() && LessEq(lo, k) && LessEq(k, hi)
      ensures Less(hi, lo) ==> plates == []
    {
      plates := InorderRange(root, lo, hi, [], tree, NIL);
      assert plates == InRange(Contents(), lo, hi);
      InRangeSpec(Contents(), lo, hi);
      KeysAreEntries(tree);
    }

    /** `revenueReport`: the revenue, 7 per custom plate and 4 per generated
        plate registered. */
    method RevenueReport() returns (r: int)
      requires Valid()
      ensures r == 7 * CustomCount(Contents()) + 4 * GeneratedCount(Contents())
    {
      r := revenue;
    }
  }
}
