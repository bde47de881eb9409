/** The abstract registry: the resident plates in ascending order, each with the
    flag that says whether it was chosen by the customer or generated. */
module PlateList {
  import opened StringOrder

  /** One resident plate; `isCustom` is fixed when the plate is registered. */
  datatype Entry = Entry(plate: string, isCustom: bool)

  /** Registration fee of one plate: 7 for a custom plate, 4 for a generated one. */
  function Fee(e: Entry): (r: int)
    ensures r == 7 || r == 4
  {
    if e.isCustom then 7 else 4
  }

  function Plates(es: seq<Entry>): set<string>
  {
    if es == [] then {} else {es[0].plate} + Plates(es[1..])
  }

  lemma {:induction false} PlatesConcat(a: seq<Entry>, b: seq<Entry>)
    ensures Plates(a + b) == Plates(a) + Plates(b)
    decreases |a|
  {
    if a != [] {
      assert (a + b)[1..] == a[1..] + b;
      PlatesConcat(a[1..], b);
    } else {
      assert a + b == b;
    }
  }

  lemma {:induction false} PlatesIndex(es: seq<Entry>, k: string)
    ensures k in Plates(es) <==> exists i :: 0 <= i < |es| && es[i].plate == k
    decreases |es|
  {
    if es != [] {
      PlatesIndex(es[1..], k);
      if k in Plates(es[1..]) {
        var i :| 0 <= i < |es[1..]| && es[1..][i].plate == k;
        assert es[i + 1].plate == k;
      }
      if exists i :: 0 <= i < |es| && es[i].plate == k {
        var i :| 0 <= i < |es| && es[i].plate == k;
        if i > 0 {
          assert es[1..][i - 1].plate == k;
        }
      }
    }
  }

  /** Ascending without repetition: the order an in-order walk of the tree yields. */
  predicate StrictlySorted(es: seq<Entry>)
  {
    forall i, j :: 0 <= i < j < |es| ==> Less(es[i].plate, es[j].plate)
  }

  predicate Ascending(s: seq<string>)
  {
    forall i, j :: 0 <= i < j < |s| ==> Less(s[i], s[j])
  }

  /** Placing a plate between everything below it and everything above it keeps a
      sorted list sorted. */
  lemma SortedInsert(a: seq<Entry>, e: Entry, b: seq<Entry>)
    requires StrictlySorted(a + b)
    requires forall i :: 0 <= i < |a| ==> Less(a[i].plate, e.plate)
    requires forall i :: 0 <= i < |b| ==> Less(e.plate, b[i].plate)
    ensures StrictlySorted(a + [e] + b)
  {
    var s := a + [e] + b;
    forall i, j | 0 <= i < j < |s| ensures Less(s[i].plate, s[j].plate) {
      if j < |a| {
        assert s[i] == (a + b)[i] && s[j] == (a + b)[j];
      } else if j == |a| {
        assert s[i] == a[i];
      } else if i == |a| {
        assert s[j] == b[j - |a| - 1];
      } else if i < |a| {
        assert s[i] == (a + b)[i] && s[j] == (a + b)[j - 1];
      } else {
        assert s[i] == (a + b)[i - 1] && s[j] == (a + b)[j - 1];
      }
    }
  }

  lemma SortedRemove(a: seq<Entry>, e: Entry, b: seq<Entry>)
    requires StrictlySorted(a + [e] + b)
    ensures StrictlySorted(a + b)
  {
    var s := a + [e] + b;
    forall i, j | 0 <= i < j < |a + b| ensures Less((a + b)[i].plate, (a + b)[j].plate) {
      var i' := if i < |a| then i else i + 1;
      var j' := if j < |a| then j else j + 1;
      assert (a + b)[i] == s[i'] && (a + b)[j] == s[j'];
    }
  }

  /** A sorted list splits at any element into a lower part, the element and an
      upper part. */
  lemma SortedSplit(a: seq<Entry>, e: Entry, b: seq<Entry>)
    requires StrictlySorted(a + [e] + b)
    ensures StrictlySorted(a) && StrictlySorted(b)
    ensures forall i :: 0 <= i < |a| ==> Less(a[i].plate, e.plate)
    ensures forall i :: 0 <= i < |b| ==> Less(e.plate, b[i].plate)
  {
    var s := a + [e] + b;
    assert forall i :: 0 <= i < |a| ==> s[i] == a[i];
    assert forall i :: 0 <= i < |b| ==> s[|a| + 1 + i] == b[i];
    assert s[|a|] == e;
  }

  lemma SortedJoin(a: seq<Entry>, e: Entry, b: seq<Entry>)
    requires StrictlySorted(a) && StrictlySorted(b)
    requires forall i :: 0 <= i < |a| ==> Less(a[i].plate, e.plate)
    requires forall i :: 0 <= i < |b| ==> Less(e.plate, b[i].plate)
    ensures StrictlySorted(a + [e] + b)
  {
    var s := a + [e] + b;
    forall i, j | 0 <= i < j < |s| ensures Less(s[i].plate, s[j].plate) {
      if j < |a| {
      } else if i < |a| && j == |a| {
      } else if i < |a| {
        assert s[j] == b[j - |a| - 1];
        LessTransitive(s[i].plate, e.plate, s[j].plate);
      } else if i == |a| {
        assert s[j] == b[j - |a| - 1];
      } else {
        assert s[i] == b[i - |a| - 1] && s[j] == b[j - |a| - 1];
      }
    }
  }

  function CustomCount(es: seq<Entry>): nat
  {
    if es == [] then 0 else (if es[0].isCustom then 1 else 0) + CustomCount(es[1..])
  }

  function GeneratedCount(es: seq<Entry>): nat
  {
    if es == [] then 0 else (if es[0].isCustom then 0 else 1) + GeneratedCount(es[1..])
  }

  /** What the registry should have earned: 7 per custom plate, 4 per generated one. */
  function Revenue(es: seq<Entry>): int
  {
    7 * CustomCount(es) + 4 * GeneratedCount(es)
  }

  lemma {:induction false} RevenueConcat(a: seq<Entry>, b: seq<Entry>)
    ensures CustomCount(a + b) == CustomCount(a) + CustomCount(b)
    ensures GeneratedCount(a + b) == GeneratedCount(a) + GeneratedCount(b)
    ensures Revenue(a + b) == Revenue(a) + Revenue(b)
    decreases |a|
  {
    if a != [] {
      assert (a + b)[1..] == a[1..] + b;
      RevenueConcat(a[1..], b);
    } else {
      assert a + b == b;
    }
  }

  /** Adding or removing one plate moves the revenue by exactly that plate's fee. */
  lemma RevenueSplice(a: seq<Entry>, e: Entry, b: seq<Entry>)
    ensures Revenue(a + [e] + b) == Revenue(a + b) + Fee(e)
  {
    RevenueConcat(a + [e], b);
    RevenueConcat(a, [e]);
    RevenueConcat(a, b);
    assert [e][1..] == [];
  }

  /** The plates `k` with `lo <= k <= hi`, in the order of `es`. */
  function InRange(es: seq<Entry>, lo: string, hi: string): seq<string>
  {
    if es == [] then []
    else (if LessEq(lo, es[0].plate) && LessEq(es[0].plate, hi) then [es[0].plate] else [])
         + InRange(es[1..], lo, hi)
  }

  lemma {:induction false} InRangeConcat(a: seq<Entry>, b: seq<Entry>, lo: string, hi: string)
    ensures InRange(a + b, lo, hi) == InRange(a, lo, hi) + InRange(b, lo, hi)
    decreases |a|
  {
    if a != [] {
      assert (a + b)[1..] == a[1..] + b;
      InRangeConcat(a[1..], b, lo, hi);
    } else {
      assert a + b == b;
    }
  }

  lemma {:induction false} InRangeNone(es: seq<Entry>, lo: string, hi: string)
    requires forall i :: 0 <= i < |es| ==> !(LessEq(lo, es[i].plate) && LessEq(es[i].plate, hi))
    ensures InRange(es, lo, hi) == []
    decreases |es|
  {
    if es != [] {
      assert forall i :: 0 <= i < |es[1..]| ==> es[1..][i] == es[i + 1];
      InRangeNone(es[1..], lo, hi);
    }
  }

  /** On a sorted list, `InRange` yields exactly the plates between `lo` and `hi`,
      strictly ascending; when `hi < lo` it yields nothing. */
  lemma {:induction false} InRangeSpec(es: seq<Entry>, lo: string, hi: string)
    requires StrictlySorted(es)
    ensures Ascending(InRange(es, lo, hi))
    ensures forall k :: k in InRange(es, lo, hi) <==> k in Plates(es) && LessEq(lo, k) && LessEq(k, hi)
    ensures Less(hi, lo) ==> InRange(es, lo, hi) == []
    ensures forall k :: k in InRange(es, lo, hi) ==> exists i :: 0 <= i < |es| && es[i].plate == k
    decreases |es|
  {
    if es != [] {
      var rest := es[1..];
      assert StrictlySorted(rest) by {
        forall i, j | 0 <= i < j < |rest| ensures Less(rest[i].plate, rest[j].plate) {
          assert rest[i] == es[i + 1] && rest[j] == es[j + 1];
        }
      }
      InRangeSpec(rest, lo, hi);
      var r := InRange(rest, lo, hi);
      var s := InRange(es, lo, hi);
      forall k | k in r ensures Less(es[0].plate, k) {
        var i :| 0 <= i < |rest| && rest[i].plate == k;
        assert es[i + 1] == rest[i];
      }
      assert Ascending(s) by {
        forall i, j | 0 <= i < j < |s| ensures Less(s[i], s[j]) {
          if |s| > |r| && i == 0 {
            assert s[j] == r[j - 1];
            assert s[j] in r;
          } else if |s| > |r| {
            assert s[i] == r[i - 1] && s[j] == r[j - 1];
          } else {
            assert s[i] == r[i] && s[j] == r[j];
          }
        }
      }
      if Less(hi, lo) {
        if LessEq(lo, es[0].plate) && LessEq(es[0].plate, hi) {
          if lo == es[0].plate {
            LessAsymmetric(hi, lo);
          } else if es[0].plate == hi {
            LessAsymmetric(hi, lo);
          } else {
            LessTransitive(lo, es[0].plate, hi);
            LessAsymmetric(hi, lo);
          }
        }
      }
      forall k | k in s ensures exists i :: 0 <= i < |es| && es[i].plate == k {
        if k in r {
          var i :| 0 <= i < |rest| && rest[i].plate == k;
          assert es[i + 1].plate == k;
        } else {
          assert es[0].plate == k;
        }
      }
    }
  }

  // ----- the registry's two updates, on the sorted list ----------------------

  /** `es` with `e` put where its plate belongs in ascending order. */
  function Insert(es: seq<Entry>, e: Entry): seq<Entry>
  {
    if es == [] || Less(e.plate, es[0].plate) then [e] + es
    else [es[0]] + Insert(es[1..], e)
  }

  /** `es` without the entries whose plate is `k`. */
  function Delete(es: seq<Entry>, k: string): seq<Entry>
  {
    if es == [] then []
    else if es[0].plate == k then Delete(es[1..], k)
    else [es[0]] + Delete(es[1..], k)
  }

  /** A sorted list is its least element followed by a sorted list above it. */
  lemma SortedTail(es: seq<Entry>)
    requires StrictlySorted(es) && es != []
    ensures StrictlySorted(es[1..])
    ensures forall k :: k in Plates(es[1..]) ==> Less(es[0].plate, k)
  {
    var r := es[1..];
    assert forall i :: 0 <= i < |r| ==> r[i] == es[i + 1];
    forall k | k in Plates(r) ensures Less(es[0].plate, k) {
      PlatesIndex(r, k);
    }
  }

  /** ... and conversely. */
  lemma SortedCons(h: Entry, r: seq<Entry>)
    requires StrictlySorted(r)
    requires forall k :: k in Plates(r) ==> Less(h.plate, k)
    ensures StrictlySorted([h] + r)
  {
    var s := [h] + r;
    forall i, j | 0 <= i < j < |s| ensures Less(s[i].plate, s[j].plate) {
      assert s[j] == r[j - 1];
      if i == 0 {
        PlatesIndex(r, r[j - 1].plate);
      } else {
        assert s[i] == r[i - 1];
      }
    }
  }

  lemma PlatesCons(h: Entry, r: seq<Entry>)
    ensures Plates([h] + r) == {h.plate} + Plates(r)
    ensures Revenue([h] + r) == Fee(h) + Revenue(r)
  {
    assert ([h] + r)[1..] == r;
  }

  /** Inserting into a sorted list a plate it lacks keeps it sorted and adds
      exactly that plate and that plate's fee. */
  lemma {:induction false} InsertSpec(es: seq<Entry>, e: Entry)
    requires StrictlySorted(es) && e.plate !in Plates(es)
    ensures StrictlySorted(Insert(es, e))
    ensures Plates(Insert(es, e)) == Plates(es) + {e.plate}
    ensures Revenue(Insert(es, e)) == Revenue(es) + Fee(e)
    ensures |Insert(es, e)| == |es| + 1
    decreases |es|
  {
    if es == [] || Less(e.plate, es[0].plate) {
      PlatesCons(e, es);
      if es != [] {
        SortedTail(es);
        PlatesCons(es[0], es[1..]);
        forall k | k in Plates(es) ensures Less(e.plate, k) {
          if k != es[0].plate {
            LessTransitive(e.plate, es[0].plate, k);
          }
        }
      }
      SortedCons(e, es);
    } else {
      SortedTail(es);
      PlatesCons(es[0], es[1..]);
      LessTrichotomy(e.plate, es[0].plate);
      InsertSpec(es[1..], e);
      PlatesCons(es[0], Insert(es[1..], e));
      SortedCons(es[0], Insert(es[1..], e));
    }
  }

  /** Deleting a plate from a sorted list keeps it sorted, removes exactly that
      plate, and removes the fee of the entry that held it; a plate that is not
      there leaves the list as it is. */
  lemma {:induction false} DeleteSpec(es: seq<Entry>, k: string)
    requires StrictlySorted(es)
    ensures StrictlySorted(Delete(es, k))
    ensures Plates(Delete(es, k)) == Plates(es) - {k}
    ensures k !in Plates(es) ==> Delete(es, k) == es
    ensures forall i :: 0 <= i < |es| && es[i].plate == k ==>
              Revenue(Delete(es, k)) == Revenue(es) - Fee(es[i]) && |Delete(es, k)| == |es| - 1
    decreases |es|
  {
    if es != [] {
      SortedTail(es);
      PlatesCons(es[0], es[1..]);
      DeleteSpec(es[1..], k);
      var r := es[1..];
      assert forall i :: 1 <= i < |es| ==> es[i] == r[i - 1];
      if es[0].plate == k {
        LessIrreflexive(k);
        assert k !in Plates(r);
        forall i | 0 <= i < |es| && es[i].plate == k ensures i == 0 {
          if i > 0 {
            PlatesIndex(r, k);
          }
        }
      } else {
        PlatesCons(es[0], Delete(r, k));
        SortedCons(es[0], Delete(r, k));
      }
    }
  }

  /** Inserting a plate a sorted list lacks, then deleting it, gives the list back. */
  lemma {:induction false} DeleteInsert(es: seq<Entry>, e: Entry)
    requires StrictlySorted(es) && e.plate !in Plates(es)
    ensures Delete(Insert(es, e), e.plate) == es
    decreases |es|
  {
    if es == [] || Less(e.plate, es[0].plate) {
      assert ([e] + es)[1..] == es;
      DeleteSpec(es, e.plate);
    } else {
      SortedTail(es);
      PlatesCons(es[0], es[1..]);
      DeleteInsert(es[1..], e);
      assert ([es[0]] + Insert(es[1..], e))[1..] == Insert(es[1..], e);
    }
  }

  /** Deleting an entry of a sorted list, then inserting it again, gives the list
      back. */
  lemma {:induction false} InsertDelete(es: seq<Entry>, i: nat)
    requires StrictlySorted(es) && i < |es|
    ensures Insert(Delete(es, es[i].plate), es[i]) == es
    decreases |es|
  {
    SortedTail(es);
    var r := es[1..];
    PlatesCons(es[0], r);
    if i == 0 {
      LessIrreflexive(es[0].plate);
      DeleteSpec(r, es[0].plate);
      assert Delete(es, es[0].plate) == r;
    } else {
      var e := es[i];
      assert e == r[i - 1];
      PlatesIndex(r, e.plate);
      LessIrreflexive(e.plate);
      LessAsymmetric(es[0].plate, e.plate);
      InsertDelete(r, i - 1);
      DeleteSpec(r, e.plate);
      var d := Delete(r, e.plate);
      assert Delete(es, e.plate) == [es[0]] + d;
      assert ([es[0]] + d)[1..] == d;
    }
  }

  /** Inserting a plate between everything below it and everything above it. */
  lemma {:induction false} InsertBetween(a: seq<Entry>, e: Entry, b: seq<Entry>)
    requires forall i :: 0 <= i < |a| ==> Less(a[i].plate, e.plate)
    requires forall i :: 0 <= i < |b| ==> Less(e.plate, b[i].plate)
    ensures Insert(a + b, e) == a + [e] + b
    decreases |a|
  {
    if a == [] {
      assert a + b == b;
    } else {
      LessAsymmetric(a[0].plate, e.plate);
      assert (a + b)[1..] == a[1..] + b;
      InsertBetween(a[1..], e, b);
      assert a + [e] + b == [a[0]] + (a[1..] + [e] + b);
    }
  }

  /** Deleting a plate that occurs nowhere changes nothing. */
  lemma {:induction false} DeleteMissing(es: seq<Entry>, k: string)
    requires forall i :: 0 <= i < |es| ==> es[i].plate != k
    ensures Delete(es, k) == es
    decreases |es|
  {
    if es != [] {
      assert forall i :: 0 <= i < |es[1..]| ==> es[1..][i] == es[i + 1];
      DeleteMissing(es[1..], k);
      assert es == [es[0]] + es[1..];
    }
  }

  /** Deleting the plate of an entry that sits between lower and higher plates
      takes out just that entry. */
  lemma {:induction false} DeleteBetween(a: seq<Entry>, e: Entry, b: seq<Entry>)
    requires forall i :: 0 <= i < |a| ==> Less(a[i].plate, e.plate)
    requires forall i :: 0 <= i < |b| ==> Less(e.plate, b[i].plate)
    ensures Delete(a + [e] + b, e.plate) == a + b
    decreases |a|
  {
    LessIrreflexive(e.plate);
    if a == [] {
      assert ([e] + b)[1..] == b;
      assert a + [e] + b == [e] + b;
      DeleteMissing(b, e.plate);
      assert a + b == b;
    } else {
      assert (a + [e] + b)[1..] == a[1..] + [e] + b;
      DeleteBetween(a[1..], e, b);
      assert a + b == [a[0]] + (a[1..] + b);
    }
  }

  /** Regrouping the pieces around one entry. */
  lemma Regroup(p: seq<Entry>, q: seq<Entry>, e: Entry, r: seq<Entry>, s: seq<Entry>)
    ensures p + (q + [e] + r) + s == (p + q) + [e] + (r + s)
    ensures p + (q + r) + s == (p + q) + (r + s)
  {
  }

  /** Two entries and the pieces around them, grouped either way. */
  lemma Rebracket(a: seq<Entry>, e: Entry, b: seq<Entry>, f: Entry, c: seq<Entry>)
    ensures (a + [e] + b) + [f] + c == a + [e] + (b + [f] + c)
  {
  }

  /** An entry and the pieces after a middle part join the outer pieces after it. */
  lemma ShiftAfter(p: seq<Entry>, t: seq<Entry>, e: Entry, r: seq<Entry>, s: seq<Entry>)
    ensures p + (t + [e] + r) + s == (p + []) + t + (([e] + r) + s)
  {
  }

  /** The pieces and an entry before a middle part join the outer pieces before it. */
  lemma ShiftBefore(p: seq<Entry>, l: seq<Entry>, e: Entry, t: seq<Entry>, s: seq<Entry>)
    ensures p + (l + [e] + t) + s == (p + (l + [e])) + t + ([] + s)
  {
  }

  /** An entry leading the middle piece leads the whole when nothing precedes it. */
  lemma Leading(p: seq<Entry>, e: Entry, r: seq<Entry>, s: seq<Entry>)
    requires p == []
    ensures p + ([e] + r) + s == [e] + (p + r + s)
  {
  }

  /** Appending three pieces one after the other appends their concatenation. */
  lemma AppendThree(a: seq<string>, b: seq<string>, c: seq<string>, d: seq<string>)
    ensures a + (b + c + d) == a + b + c + d
  {
  }

  /** Plates all below a pivot that is not above `lo` are all below the range. */
  lemma PruneBelow(es: seq<Entry>, pivot: string, lo: string, hi: string)
    requires forall i :: 0 <= i < |es| ==> Less(es[i].plate, pivot)
    requires !Less(lo, pivot)
    ensures InRange(es, lo, hi) == []
  {
    forall i | 0 <= i < |es| ensures !LessEq(lo, es[i].plate) {
      LessTrichotomy(lo, pivot);
      if pivot != lo {
        LessTransitive(es[i].plate, pivot, lo);
      }
      LessAsymmetric(es[i].plate, lo);
    }
    InRangeNone(es, lo, hi);
  }

  /** Plates all above a pivot that is not below `hi` are all above the range. */
  lemma PruneAbove(es: seq<Entry>, pivot: string, lo: string, hi: string)
    requires forall i :: 0 <= i < |es| ==> Less(pivot, es[i].plate)
    requires !Less(pivot, hi)
    ensures InRange(es, lo, hi) == []
  {
    forall i | 0 <= i < |es| ensures !LessEq(es[i].plate, hi) {
      LessTrichotomy(pivot, hi);
      if pivot != hi {
        LessTransitive(hi, pivot, es[i].plate);
      }
      LessAsymmetric(hi, es[i].plate);
    }
    InRangeNone(es, lo, hi);
  }
}
