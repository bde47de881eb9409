/** The order on plate strings.  `std::string`'s `operator<` compares the bytes of
    the two strings lexicographically, a proper prefix coming first.  Dafny's own
    `<` on sequences means "proper prefix", so the order is written out here, with
    each `char` standing for one byte of the plate. */
module StringOrder {

  /** Byte-lexicographic "strictly less than", as `a < b` on two `std::string`s. */
  predicate Less(a: string, b: string)
    decreases |a|
  {
    |b| > 0 && (|a| == 0 || a[0] < b[0] || (a[0] == b[0] && Less(a[1..], b[1..])))
  }

  /** `a <= b` on two `std::string`s. */
  predicate LessEq(a: string, b: string)
  {
    a == b || Less(a, b)
  }

  lemma {:induction false} LessIrreflexive(a: string)
    ensures !Less(a, a)
    decreases |a|
  {
    if |a| > 0 {
      LessIrreflexive(a[1..]);
    }
  }

  lemma {:induction false} LessTransitive(a: string, b: string, c: string)
    requires Less(a, b) && Less(b, c)
    ensures Less(a, c)
    decreases |a|
  {
    if |a| > 0 && a[0] == b[0] && b[0] == c[0] {
      LessTransitive(a[1..], b[1..], c[1..]);
    }
  }

  lemma {:induction false} LessTrichotomy(a: string, b: string)
    ensures Less(a, b) || a == b || Less(b, a)
    decreases |a|
  {
    if |a| > 0 && |b| > 0 && a[0] == b[0] {
      LessTrichotomy(a[1..], b[1..]);
      if a[1..] == b[1..] {
        assert a == [a[0]] + a[1..] && b == [b[0]] + b[1..];
      }
    }
  }

  /** `Less` is a strict total order: irreflexive, asymmetric, transitive and
      connected, so a tree ordered by it holds each plate at most once. */
  lemma StrictTotalOrder()
    ensures forall a: string :: !Less(a, a)
    ensures forall a: string, b: string :: Less(a, b) ==> !Less(b, a)
    ensures forall a: string, b: string, c: string :: Less(a, b) && Less(b, c) ==> Less(a, c)
    ensures forall a: string, b: string :: Less(a, b) || a == b || Less(b, a)
  {
    forall a: string { LessIrreflexive(a); }
    forall a: string, b: string | Less(a, b) ensures !Less(b, a) {
      if Less(b, a) {
        LessTransitive(a, b, a);
        LessIrreflexive(a);
      }
    }
    forall a: string, b: string, c: string | Less(a, b) && Less(b, c) ensures Less(a, c) {
      LessTransitive(a, b, c);
    }
    forall a: string, b: string { LessTrichotomy(a, b); }
  }

  lemma LessAsymmetric(a: string, b: string)
    requires Less(a, b)
    ensures !Less(b, a)
  {
    if Less(b, a) {
      LessTransitive(a, b, a);
      LessIrreflexive(a);
    }
  }

  /** The empty string is below every non-empty string and above none. */
  lemma EmptyIsLeast(a: string)
    ensures !Less(a, "")
    ensures a != "" ==> Less("", a)
  {
  }
}
