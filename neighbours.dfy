/** What `lookupPrev` and `lookupNext` answer, and the invariant of the descent
    that computes it.  The empty string is the answer "there is none"; it is never
    a registered plate. */
module Neighbours {
  import opened StringOrder
  import opened PlateList
  import opened RbTree

  /** `r` is the greatest plate of `keys` below `k`, or `""` when none is below. */
  predicate IsPrev(keys: set<string>, k: string, r: string)
  {
    (r == "" && forall x :: x in keys ==> !Less(x, k)) ||
    (r in keys && Less(r, k) && forall x :: x in keys && Less(x, k) ==> x == r || Less(x, r))
  }

  /** `r` is the least plate of `keys` above `k`, or `""` when none is above. */
  predicate IsNext(keys: set<string>, k: string, r: string)
  {
    (r == "" && forall x :: x in keys ==> !Less(k, x)) ||
    (r in keys && Less(k, r) && forall x :: x in keys && Less(k, x) ==> x == r || Less(r, x))
  }

  /** Without the empty plate among the keys, there is exactly one answer. */
  lemma PrevUnique(keys: set<string>, k: string, r1: string, r2: string)
    requires "" !in keys && IsPrev(keys, k, r1) && IsPrev(keys, k, r2)
    ensures r1 == r2
  {
    if r1 != "" && r2 != "" && r1 != r2 {
      assert Less(r1, r2) && Less(r2, r1);
      LessAsymmetric(r1, r2);
    }
  }

  lemma NextUnique(keys: set<string>, k: string, r1: string, r2: string)
    requires "" !in keys && IsNext(keys, k, r1) && IsNext(keys, k, r2)
    ensures r1 == r2
  {
    if r1 != "" && r2 != "" && r1 != r2 {
      assert Less(r1, r2) && Less(r2, r1);
      LessAsymmetric(r1, r2);
    }
  }

  /** The state of the `lookupPrev` descent in `t`: `sub` is the subtree still to
      visit, and `r` is the best answer among the plates already passed, every
      one of which below `k` is at most `r`. */
  predicate PrevSearch(t: Tree, sub: Tree, k: string, r: string)
  {
    Keys(sub) <= Keys(t) &&
    (r != "" ==> r in Keys(t) && Less(r, k) && forall x :: x in Keys(sub) ==> Less(r, x)) &&
    (forall x :: x in Keys(t) && Less(x, k) && x !in Keys(sub) ==> r != "" && (x == r || Less(x, r)))
  }

  predicate NextSearch(t: Tree, sub: Tree, k: string, r: string)
  {
    Keys(sub) <= Keys(t) &&
    (r != "" ==> r in Keys(t) && Less(k, r) && forall x :: x in Keys(sub) ==> Less(x, r)) &&
    (forall x :: x in Keys(t) && Less(k, x) && x !in Keys(sub) ==> r != "" && (x == r || Less(r, x)))
  }

  lemma PrevStart(t: Tree, k: string)
    ensures PrevSearch(t, t, k, "")
  {
  }

  lemma NextStart(t: Tree, k: string)
    ensures NextSearch(t, t, k, "")
  {
  }

  /** One step of `lookupPrev`: a plate below `k` becomes the answer so far and
      the walk goes right; otherwise it goes left. */
  lemma PrevStep(t: Tree, sub: Tree, k: string, r: string)
    requires PrevSearch(t, sub, k, r) && sub.Branch? && Ordered(sub) && "" !in Keys(t)
    ensures Less(sub.plate, k) ==> PrevSearch(t, sub.right, k, sub.plate)
    ensures !Less(sub.plate, k) ==> PrevSearch(t, sub.left, k, r)
  {
    OrderedBranch(sub);
    var p := sub.plate;
    if Less(p, k) {
      forall x | x in Keys(t) && Less(x, k) && x !in Keys(sub.right)
        ensures x == p || Less(x, p)
      {
        if x !in Keys(sub) {
          if x != r {
            LessTransitive(x, r, p);
          }
        }
      }
    } else {
      forall x | x in Keys(t) && Less(x, k) && x !in Keys(sub.left)
        ensures x !in Keys(sub)
      {
        if x in Keys(sub.right) {
          LessTransitive(p, x, k);
        }
      }
    }
  }

  /** One step of `lookupNext`: a plate above `k` becomes the answer so far and
      the walk goes left; otherwise it goes right. */
  lemma NextStep(t: Tree, sub: Tree, k: string, r: string)
    requires NextSearch(t, sub, k, r) && sub.Branch? && Ordered(sub) && "" !in Keys(t)
    ensures Less(k, sub.plate) ==> NextSearch(t, sub.left, k, sub.plate)
    ensures !Less(k, sub.plate) ==> NextSearch(t, sub.right, k, r)
  {
    OrderedBranch(sub);
    var p := sub.plate;
    if Less(k, p) {
      forall x | x in Keys(t) && Less(k, x) && x !in Keys(sub.left)
        ensures x == p || Less(p, x)
      {
        if x !in Keys(sub) {
          if x != r {
            LessTransitive(p, r, x);
          }
        }
      }
    } else {
      forall x | x in Keys(t) && Less(k, x) && x !in Keys(sub.right)
        ensures x !in Keys(sub)
      {
        if x in Keys(sub.left) {
          LessTransitive(k, x, p);
        }
      }
    }
  }

  /** When the walk falls off the tree, the answer so far is the answer. */
  lemma PrevEnd(t: Tree, k: string, r: string)
    requires PrevSearch(t, Leaf, k, r)
    ensures IsPrev(Keys(t), k, r)
  {
  }

  lemma NextEnd(t: Tree, k: string, r: string)
    requires NextSearch(t, Leaf, k, r)
    ensures IsNext(Keys(t), k, r)
  {
  }
}
