/** The fixed ladder of table capacities and the lookups on it. */
module PrimeLadder {

  /** The ascending primes a table capacity is drawn from (31 entries). */
  const Primes: seq<nat> := [
    7, 13, 29,
    53, 97, 193, 389, 769,
    1543, 3079, 6151, 12289, 24593,
    49157, 98317, 196613, 393241, 786433,
    1572869, 3145739, 6291469, 12582917, 25165843,
    50331653, 100663319, 201326611, 402653189, 805306457,
    1610612741, 3221225473, 4294967291
  ]

  /** n is one of the ladder's primes. */
  ghost predicate OnLadder(n: nat)
  {
    exists i :: 0 <= i < PrimeCount && Primes[i] == n
  }

  /** Number of ladder entries. */
  const PrimeCount: nat := 31

  /** Largest 32-bit size value. */
  const MaxSize: nat := 0xFFFF_FFFF

  /** Every ladder entry is strictly smaller than the next one. */
  lemma LadderAscending(i: nat, j: nat)
    requires i < j < PrimeCount
    ensures |Primes| == PrimeCount
    ensures Primes[i] < Primes[j]
  {
    if i + 1 < j {
      LadderAscending(i, j - 1);
    }
  }

  /** The scan of findRange started at index i: the first index in [i, 30) whose
      prime is at least sz, or 30 when there is none. */
  function LadderIndexFrom(sz: nat, i: nat): (r: nat)
    requires 1 <= i <= PrimeCount - 1
    ensures i <= r <= PrimeCount - 1
    ensures r < PrimeCount - 1 ==> sz <= Primes[r]
    ensures forall j :: i <= j < r ==> Primes[j] < sz
    decreases PrimeCount - i
  {
    if i == PrimeCount - 1 then i
    else if sz <= Primes[i] then i
    else LadderIndexFrom(sz, i + 1)
  }

  /** findRange: the index of the smallest ladder prime at index >= 1 that
      holds sz, saturating at the last index. */
  function LadderIndex(sz: nat): (r: nat)
  {
    LadderIndexFrom(sz, 1)
  }

  /** findRange as the source writes it: a counting loop with an early exit. */
  method FindRange(sz: nat) returns (i: nat)
    requires sz <= MaxSize
    ensures i == LadderIndex(sz)
  {
    i := 1;
    while i < PrimeCount - 1
      invariant 1 <= i <= PrimeCount - 1
      invariant LadderIndexFrom(sz, i) == LadderIndexFrom(sz, 1)
      decreases PrimeCount - i
    {
      if sz <= Primes[i] {
        break;
      }
      i := i + 1;
    }
  }

  /** roundUp: the ladder prime chosen for a requested size. */
  function RoundUp(sz: nat): (r: nat)
  {
    Primes[LadderIndex(sz)]
  }

  /** roundUp never answers with the first ladder entry (7), always with an
      entry at index 1..30, and - when sz fits under the largest prime - with the
      smallest such entry that holds sz. */
  lemma {:induction false} RoundUpIsSmallestFit(sz: nat)
    ensures exists i :: 1 <= i < PrimeCount && RoundUp(sz) == Primes[i]
    ensures RoundUp(sz) != 7
    ensures sz <= Primes[PrimeCount - 1] ==> sz <= RoundUp(sz)
    ensures forall i :: 1 <= i < PrimeCount && sz <= Primes[i] ==> RoundUp(sz) <= Primes[i]
  {
    var r := LadderIndex(sz);
    assert 1 <= r < PrimeCount && RoundUp(sz) == Primes[r];
    LadderAscending(0, r);
    forall i | 1 <= i < PrimeCount && sz <= Primes[i]
      ensures Primes[r] <= Primes[i]
    {
      LadderFitIsAtLeast(sz, i);
    }
  }

  /** Any ladder prime at index >= 1 that holds sz sits at or after findRange(sz). */
  lemma {:induction false} LadderFitIsAtLeast(sz: nat, i: nat)
    requires 1 <= i < PrimeCount && sz <= Primes[i]
    ensures Primes[LadderIndex(sz)] <= Primes[i]
  {
    var r := LadderIndex(sz);
    LadderIndexAtMost(sz, i, r);
    if r < i {
      LadderAscending(r, i);
    }
  }

  lemma LadderIndexAtMost(sz: nat, i: nat, r: nat)
    requires 1 <= i < PrimeCount && sz <= Primes[i]
    requires r == LadderIndexFrom(sz, 1)
    ensures r <= i
  {
  }

  /** findRange of a ladder prime (other than 7) gives back its own index. */
  lemma {:induction false} LadderIndexOfPrime(i: nat)
    requires 1 <= i < PrimeCount
    ensures LadderIndex(Primes[i]) == i
  {
    var r := LadderIndex(Primes[i]);
    if r < i {
      LadderAscending(r, i);
    }
  }

  /** roundUp is idempotent: a size it already chose maps to itself. */
  lemma {:induction false} RoundUpIdempotent(sz: nat)
    ensures RoundUp(RoundUp(sz)) == RoundUp(sz)
  {
    LadderIndexOfPrime(LadderIndex(sz));
  }

  /** The capacity rehash moves to: the prime growFactor steps above the
      current one on the ladder. */
  function GrowTarget(cap: nat, growFactor: nat): (r: nat)
    requires LadderIndex(cap) + growFactor < PrimeCount
  {
    Primes[LadderIndex(cap) + growFactor]
  }

  /** A rehash target is strictly larger than a capacity that is itself on
      the ladder, for a positive grow factor. */
  lemma {:induction false} GrowTargetGrows(cap: nat, growFactor: nat)
    requires OnLadder(cap)
    requires 0 < growFactor
    requires LadderIndex(cap) + growFactor < PrimeCount
    ensures cap < GrowTarget(cap, growFactor)
  {
    var r := LadderIndex(cap);
    LadderTop(cap);
    LadderAscending(r, r + growFactor);
  }

  /** No ladder entry exceeds the last one. */
  lemma {:induction false} LadderTop(n: nat)
    requires OnLadder(n)
    ensures n <= Primes[PrimeCount - 1]
  {
    var i :| 0 <= i < PrimeCount && Primes[i] == n;
    if i < PrimeCount - 1 {
      LadderAscending(i, PrimeCount - 1);
    }
  }
}
