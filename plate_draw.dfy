/** How `addLicence` makes up a plate when the customer gives none: four draws of
    `rand() % 36`, each read as a digit (0-9) or a capital letter (10-35).  The
    values `rand()` returns are passed in as the sequence `rolls`; the `k`-th
    attempt uses `rolls[4k .. 4k + 4]`. */
module PlateDraw {

  /** The 36 characters a generated plate is made of. */
  predicate IsPlateChar(c: char)
  {
    '0' <= c <= '9' || 'A' <= c <= 'Z'
  }

  /** The character one value of `rand()` contributes. */
  function PlateChar(r: nat): (c: char)
    ensures IsPlateChar(c)
  {
    var d := r % 36;
    if d < 10 then ('0' as int + d) as char else ('A' as int + d - 10) as char
  }

  /** Two draws give the same character exactly when they agree modulo 36. */
  lemma PlateCharInjective(r: nat, s: nat)
    ensures PlateChar(r) == PlateChar(s) <==> r % 36 == s % 36
  {
  }

  /** Every digit and capital letter can be drawn. */
  lemma PlateCharOnto(c: char)
    requires IsPlateChar(c)
    ensures exists r: nat :: r < 36 && PlateChar(r) == c
  {
    if c <= '9' {
      assert PlateChar(c as int - '0' as int) == c;
    } else {
      assert PlateChar(c as int - 'A' as int + 10) == c;
    }
  }

  /** Whether `rolls` holds the four values of attempt `k`. */
  predicate HasAttempt(rolls: seq<nat>, k: nat)
  {
    4 * k + 4 <= |rolls|
  }

  /** The plate attempt `k` makes: four characters from 0-9 and A-Z. */
  function Candidate(rolls: seq<nat>, k: nat): (p: string)
    requires HasAttempt(rolls, k)
    ensures |p| == 4 && forall i :: 0 <= i < 4 ==> IsPlateChar(p[i])
  {
    [PlateChar(rolls[4 * k]), PlateChar(rolls[4 * k + 1]),
     PlateChar(rolls[4 * k + 2]), PlateChar(rolls[4 * k + 3])]
  }

  /** The inner `for` loop of `addLicence`: builds attempt `k` one character at a
      time. */
  method DrawPlate(rolls: seq<nat>, k: nat) returns (plate: string)
    requires HasAttempt(rolls, k)
    ensures plate == Candidate(rolls, k)
  {
    plate := "";
    for i := 0 to 4
      invariant plate == Candidate(rolls, k)[..i]
    {
      plate := plate + [PlateChar(rolls[4 * k + i])];
    }
  }

  datatype Option<T> = None | Some(value: T)

  /** The plate the `do … while` loop of `addLicence` settles on: the first
      attempt whose plate is not in `taken`, or `None` when `rolls` runs out
      before one comes up. */
  function FirstFree(rolls: seq<nat>, taken: set<string>): (r: Option<string>)
    ensures r.Some? ==> r.value !in taken && |r.value| == 4
    ensures r.Some? ==> forall i :: 0 <= i < 4 ==> IsPlateChar(r.value[i])
    decreases |rolls|
  {
    if !HasAttempt(rolls, 0) then None
    else if Candidate(rolls, 0) !in taken then Some(Candidate(rolls, 0))
    else FirstFree(rolls[4..], taken)
  }

  /** Dropping the first attempt renumbers the others. */
  lemma CandidateShift(rolls: seq<nat>, k: nat)
    requires HasAttempt(rolls, k + 1)
    ensures HasAttempt(rolls[4..], k) && Candidate(rolls[4..], k) == Candidate(rolls, k + 1)
  {
  }

  /** When attempts `0 .. k-1` are all taken and attempt `k` is free, the loop
      ends with attempt `k`'s plate. */
  lemma {:induction false} FirstFreeIsFirst(rolls: seq<nat>, taken: set<string>, k: nat)
    requires HasAttempt(rolls, k) && Candidate(rolls, k) !in taken
    requires forall j: nat :: j < k ==> Candidate(rolls, j) in taken
    ensures FirstFree(rolls, taken) == Some(Candidate(rolls, k))
    decreases k
  {
    if k > 0 {
      assert Candidate(rolls, 0) in taken;
      CandidateShift(rolls, k - 1);
      forall j: nat | j < k - 1
        ensures Candidate(rolls[4..], j) in taken
      {
        CandidateShift(rolls, j);
      }
      FirstFreeIsFirst(rolls[4..], taken, k - 1);
    }
  }

  /** When no plate comes up free, every attempt in `rolls` is taken. */
  lemma {:induction false} FirstFreeNone(rolls: seq<nat>, taken: set<string>, k: nat)
    requires FirstFree(rolls, taken).None? && HasAttempt(rolls, k)
    ensures Candidate(rolls, k) in taken
    decreases k
  {
    if k > 0 {
      CandidateShift(rolls, k - 1);
      FirstFreeNone(rolls[4..], taken, k - 1);
    }
  }
}
