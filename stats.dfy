/** The diagnostics of stat/statIdx, as functions of the chains' key values. */
module HashStats {
  import opened ShmTypes

  /** Distinct key values statIdx remembers per chain. */
  const NumSample: nat := 0x20

  /** Buckets of the chain-length histogram. */
  const TopCount: nat := 10

  /** LsHashStat without its user-data pointer. */
  datatype HashStat = HashStat(
    numIdx: nat,
    numIdxOccupied: nat,
    num: nat,
    maxLink: nat,
    numDup: nat,
    top: seq<nat>)

  /** The zeroed statistics block stat starts from. */
  function Zero(): (st: HashStat)
    ensures |st.top| == TopCount
  {
    HashStat(0, 0, 0, 0, 0, seq(TopCount, _ => 0))
  }

  /** The histogram bucket of a chain of n >= 1 records: exact for 1..5, then
      6..10, 11..20, 21..50, 51..100 and more than 100. */
  function Bucket(n: nat): (b: nat)
    requires n >= 1
    ensures b < TopCount
    ensures n <= 5 ==> b == n - 1
    ensures n > 5 ==> b >= 5
  {
    if n <= 5 then n - 1
    else if n <= 10 then 5
    else if n <= 20 then 6
    else if n <= 50 then 7
    else if n <= 100 then 8
    else 9
  }

  /** Longer chains never land in a lower bucket. */
  lemma BucketMonotone(n: nat, m: nat)
    requires 1 <= n <= m
    ensures Bucket(n) <= Bucket(m)
  {
  }

  /** statIdx's duplicate count over the key values hs of one chain, with the
      sample table already holding table: a key found in the table is a
      duplicate; one not found is added while the table has room. */
  function DupScan(hs: seq<U32>, table: seq<U32>): nat
    decreases |hs|
  {
    if hs == [] then 0
    else if hs[0] in table then 1 + DupScan(hs[1..], table)
    else DupScan(hs[1..], if |table| < NumSample then table + [hs[0]] else table)
  }

  /** One step of statIdx's scan at position n of the chain's key values. */
  lemma DupScanStep(hs: seq<U32>, n: nat, table: seq<U32>)
    requires n < |hs|
    ensures DupScan(hs[n..], table) ==
              if hs[n] in table then 1 + DupScan(hs[n + 1..], table)
              else DupScan(hs[n + 1..], if |table| < NumSample then table + [hs[n]] else table)
  {
    assert hs[n..][1..] == hs[n + 1..];
  }

  /** The key values of a sequence, as a set. */
  function KeySet(hs: seq<U32>): set<U32>
  {
    set h | h in hs
  }

  /** Reference count of duplicates: the positions whose key value already
      occurred earlier, or is in seen. */
  function Repeats(seen: set<U32>, hs: seq<U32>): nat
    decreases |hs|
  {
    if hs == [] then 0
    else (if hs[0] in seen then 1 else 0) + Repeats(seen + {hs[0]}, hs[1..])
  }

  /** The repeats of a sequence are its length less its number of distinct values. */
  lemma {:induction false} RepeatsCount(seen: set<U32>, hs: seq<U32>)
    ensures Repeats(seen, hs) + |seen + KeySet(hs)| == |seen| + |hs|
    decreases |hs|
  {
    if hs != [] {
      RepeatsCount(seen + {hs[0]}, hs[1..]);
      assert seen + {hs[0]} + KeySet(hs[1..]) == seen + KeySet(hs);
      if hs[0] in seen {
        assert seen + {hs[0]} == seen;
      } else {
        assert |seen + {hs[0]}| == |seen| + 1;
      }
    }
  }

  /** The sampled count never exceeds the true number of duplicates. */
  lemma {:induction false} DupScanAtMostRepeats(hs: seq<U32>, table: seq<U32>, seen: set<U32>)
    requires KeySet(table) <= seen
    ensures DupScan(hs, table) <= Repeats(seen, hs)
    decreases |hs|
  {
    if hs != [] {
      var table' := if hs[0] in table || |table| >= NumSample then table else table + [hs[0]];
      assert KeySet(table + [hs[0]]) == KeySet(table) + {hs[0]};
      DupScanAtMostRepeats(hs[1..], table', seen + {hs[0]});
    }
  }

  /** With at most NumSample distinct key values the sampled count is exact. */
  lemma {:induction false} DupScanExact(hs: seq<U32>, table: seq<U32>, seen: set<U32>)
    requires KeySet(table) == seen && |table| == |seen|
    requires |seen + KeySet(hs)| <= NumSample
    ensures DupScan(hs, table) == Repeats(seen, hs)
    decreases |hs|
  {
    if hs != [] {
      var h := hs[0];
      assert seen + {h} + KeySet(hs[1..]) == seen + KeySet(hs);
      if h in table {
        assert seen + {h} == seen;
        DupScanExact(hs[1..], table, seen);
      } else {
        assert |seen + {h}| == |seen| + 1;
        assert |seen + {h}| <= |seen + KeySet(hs)| by {
          assert seen + {h} <= seen + KeySet(hs);
        }
        assert KeySet(table + [h]) == KeySet(table) + {h};
        DupScanExact(hs[1..], table + [h], seen + {h});
      }
    }
  }

  /** numDup of one chain, stated without the sample table: never more than
      its length less its distinct key values, and exactly that when it has at
      most NumSample distinct key values. */
  lemma ChainDups(hs: seq<U32>)
    ensures Repeats({}, hs) == |hs| - |KeySet(hs)|
    ensures DupScan(hs, []) <= Repeats({}, hs)
    ensures |KeySet(hs)| <= NumSample ==> DupScan(hs, []) == Repeats({}, hs)
  {
    assert KeySet([]) == {};
    assert {} + KeySet(hs) == KeySet(hs);
    RepeatsCount({}, hs);
    DupScanAtMostRepeats(hs, [], {});
    if |KeySet(hs)| <= NumSample {
      DupScanExact(hs, [], {});
    }
  }

  function Max(a: nat, b: nat): nat
  {
    if a < b then b else a
  }

  /** stat's accounting of one slot whose chain has key values hs. */
  function AddSlot(st: HashStat, hs: seq<U32>): (r: HashStat)
    requires |st.top| == TopCount
    ensures |r.top| == TopCount
  {
    if hs == [] then st.(numIdx := st.numIdx + 1)
    else
      var b := Bucket(|hs|);
      HashStat(
        st.numIdx + 1,
        st.numIdxOccupied + 1,
        st.num + |hs|,
        Max(st.maxLink, |hs|),
        st.numDup + DupScan(hs, []),
        st.top[b := st.top[b] + 1])
  }

  /** The statistics of a sequence of slots, scanned in order. */
  function Tally(ks: seq<seq<U32>>): (st: HashStat)
    ensures |st.top| == TopCount
  {
    if ks == [] then Zero() else AddSlot(Tally(ks[..|ks| - 1]), ks[|ks| - 1])
  }

  /** The scan of the first p + 1 slots adds slot p to the scan of the first p. */
  lemma TallyStep(ks: seq<seq<U32>>, p: nat)
    requires p < |ks|
    ensures Tally(ks[..p + 1]) == AddSlot(Tally(ks[..p]), ks[p])
  {
    assert ks[..p + 1][..p] == ks[..p];
  }

  function Sum(xs: seq<nat>): nat
  {
    if xs == [] then 0 else Sum(xs[..|xs| - 1]) + xs[|xs| - 1]
  }

  /** The number of records of a sequence of chains. */
  function TotalLen(ks: seq<seq<U32>>): nat
  {
    if ks == [] then 0 else TotalLen(ks[..|ks| - 1]) + |ks[|ks| - 1]|
  }

  /** The number of non-empty chains. */
  function Occupied(ks: seq<seq<U32>>): nat
  {
    if ks == [] then 0 else Occupied(ks[..|ks| - 1]) + (if ks[|ks| - 1] == [] then 0 else 1)
  }

  lemma {:induction false} SumZeros(n: nat)
    ensures Sum(seq(n, _ => 0)) == 0
  {
    if n > 0 {
      assert seq(n, _ => 0)[..n - 1] == seq(n - 1, _ => 0);
      SumZeros(n - 1);
    }
  }

  /** Raising one entry by one raises the sum by one. */
  lemma {:induction false} SumIncrement(xs: seq<nat>, b: nat)
    requires b < |xs|
    ensures Sum(xs[b := xs[b] + 1]) == Sum(xs) + 1
  {
    var ys := xs[b := xs[b] + 1];
    if b < |xs| - 1 {
      assert ys[..|ys| - 1] == xs[..|xs| - 1][b := xs[b] + 1];
      SumIncrement(xs[..|xs| - 1], b);
    } else {
      assert ys[..|ys| - 1] == xs[..|xs| - 1];
    }
  }

  /** stat's counters over any scan: numIdx counts the slots, numIdxOccupied the
      non-empty ones, num the records, and the histogram holds one entry per
      non-empty slot. */
  lemma {:induction false} TallyCounts(ks: seq<seq<U32>>)
    ensures Tally(ks).numIdx == |ks|
    ensures Tally(ks).numIdxOccupied == Occupied(ks)
    ensures Tally(ks).num == TotalLen(ks)
    ensures Sum(Tally(ks).top) == Occupied(ks)
  {
    if ks == [] {
      SumZeros(TopCount);
    } else {
      var init := ks[..|ks| - 1];
      var hs := ks[|ks| - 1];
      TallyCounts(init);
      if hs != [] {
        SumIncrement(Tally(init).top, Bucket(|hs|));
      }
    }
  }

  /** maxLink is the length of the longest chain, reached by one of them (or 0
      when all are empty). */
  lemma {:induction false} TallyMaxLink(ks: seq<seq<U32>>)
    ensures forall s :: 0 <= s < |ks| ==> |ks[s]| <= Tally(ks).maxLink
    ensures Tally(ks).maxLink == 0 || exists s :: 0 <= s < |ks| && |ks[s]| == Tally(ks).maxLink
  {
    if ks != [] {
      var init := ks[..|ks| - 1];
      var hs := ks[|ks| - 1];
      TallyMaxLink(init);
      var st := Tally(init);
      assert Tally(ks).maxLink == (if hs == [] then st.maxLink else Max(st.maxLink, |hs|));
      forall s | 0 <= s < |ks|
        ensures |ks[s]| <= Tally(ks).maxLink
      {
        if s < |ks| - 1 {
          assert ks[s] == init[s];
        }
      }
      if Tally(ks).maxLink != 0 && Tally(ks).maxLink != |hs| {
        var s :| 0 <= s < |init| && |init[s]| == st.maxLink;
        assert ks[s] == init[s];
      }
    }
  }

  /** The histogram entry of a bucket counts exactly the non-empty chains whose
      length falls in that bucket. */
  function InBucket(ks: seq<seq<U32>>, b: nat): nat
  {
    if ks == [] then 0
    else InBucket(ks[..|ks| - 1], b)
         + (if ks[|ks| - 1] != [] && Bucket(|ks[|ks| - 1]|) == b then 1 else 0)
  }

  lemma {:induction false} TallyHistogram(ks: seq<seq<U32>>, b: nat)
    requires b < TopCount
    ensures Tally(ks).top[b] == InBucket(ks, b)
  {
    if ks != [] {
      TallyHistogram(ks[..|ks| - 1], b);
    }
  }

  /** The true number of duplicates: per chain, the records whose key value
      occurs earlier in the same chain, summed over the slots. */
  function ChainDupTotal(ks: seq<seq<U32>>): nat
  {
    if ks == [] then 0 else ChainDupTotal(ks[..|ks| - 1]) + Repeats({}, ks[|ks| - 1])
  }

  /** numDup never exceeds the true duplicates per chain, summed, and equals
      that sum when no chain has more than NumSample distinct key values. */
  lemma {:induction false} TallyDups(ks: seq<seq<U32>>)
    ensures Tally(ks).numDup <= ChainDupTotal(ks)
    ensures (forall s :: 0 <= s < |ks| ==> |KeySet(ks[s])| <= NumSample) ==>
              Tally(ks).numDup == ChainDupTotal(ks)
  {
    if ks != [] {
      var init := ks[..|ks| - 1];
      var hs := ks[|ks| - 1];
      TallyDups(init);
      ChainDups(hs);
      if forall s :: 0 <= s < |ks| ==> |KeySet(ks[s])| <= NumSample {
        assert forall s :: 0 <= s < |init| ==> init[s] == ks[s];
      }
    }
  }
}
