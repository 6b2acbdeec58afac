/** The order in which iteration meets the records of a slot index: slot by
    slot, each chain in link order. */
module ChainOrder {
  import opened ShmTypes
  import opened HashChains

  /** The records of slots t, t+1, ... in iteration order. */
  function Walk(chains: Chains, t: nat): seq<Offset>
    decreases |chains| - t
  {
    if t >= |chains| then [] else chains[t] + Walk(chains, t + 1)
  }

  /** A marker term: the facts a Walkable predicate folds are unfolded where
      a proof mentions Use(true). */
  ghost predicate Use(b: bool)
  {
    true
  }

  /** The first offset of an iteration order, or the end cursor 0. */
  function First(w: seq<Offset>): Offset
  {
    if w == [] then Null else w[0]
  }

  /** What follows position p of an iteration order: the next offset, or 0. */
  function After(w: seq<Offset>, p: nat): Offset
  {
    if p + 1 < |w| then w[p + 1] else Null
  }

  /** An iteration order without repeated offsets. */
  predicate Distinct(w: seq<Offset>)
  {
    forall i, j :: 0 <= i < j < |w| ==> w[i] != w[j]
  }

  /** The walk from slot s is the tail of the walk from any earlier slot t. */
  lemma {:induction false} WalkSuffix(chains: Chains, t: nat, s: nat)
    requires t <= s <= |chains|
    ensures |Walk(chains, s)| <= |Walk(chains, t)|
    ensures Walk(chains, t)[|Walk(chains, t)| - |Walk(chains, s)|..] == Walk(chains, s)
    decreases s - t
  {
    if t < s {
      WalkSuffix(chains, t + 1, s);
      var a := chains[t];
      var b := Walk(chains, t + 1);
      var n := |Walk(chains, s)|;
      assert Walk(chains, t) == a + b;
      assert (a + b)[|a + b| - n..] == b[|b| - n..];
    }
  }

  /** Every position of the walk from t holds some chain position at or after slot t. */
  lemma {:induction false} WalkIndex(chains: Chains, t: nat, j: nat) returns (s: nat, k: nat)
    requires j < |Walk(chains, t)|
    ensures t <= s < |chains| && k < |chains[s]|
    ensures Walk(chains, t)[j] == chains[s][k]
    ensures j == |Walk(chains, t)| - |Walk(chains, s)| + k
    decreases |chains| - t
  {
    assert t < |chains|;
    assert Walk(chains, t) == chains[t] + Walk(chains, t + 1);
    if j < |chains[t]| {
      s, k := t, j;
    } else {
      s, k := WalkIndex(chains, t + 1, j - |chains[t]|);
    }
  }

  /** Position k of slot s sits in the walk from t at a fixed place, and what
      follows it there is its chain successor or else the first record of a
      later slot. */
  lemma {:induction false} WalkPosition(chains: Chains, t: nat, s: nat, k: nat)
    requires t <= s < |chains| && k < |chains[s]|
    ensures |Walk(chains, s)| <= |Walk(chains, t)|
    ensures var w := Walk(chains, t);
            var p := |w| - |Walk(chains, s)| + k;
            && p < |w| && w[p] == chains[s][k]
            && After(w, p) == (if k + 1 < |chains[s]| then chains[s][k + 1] else First(Walk(chains, s + 1)))
  {
    WalkSuffix(chains, t, s);
    var w := Walk(chains, t);
    var d := |w| - |Walk(chains, s)|;
    assert Walk(chains, s) == chains[s] + Walk(chains, s + 1);
    assert w[d + k] == Walk(chains, s)[k];
    if d + k + 1 < |w| {
      assert w[d + k + 1] == Walk(chains, s)[k + 1];
    }
  }

  /** A walk is unaffected by what happens to earlier slots. */
  lemma {:induction false} WalkUpdateBelow(chains: Chains, u: nat, c: seq<Offset>, t: nat)
    requires u < t && u < |chains|
    ensures Walk(chains[u := c], t) == Walk(chains, t)
    decreases |chains| - t
  {
    if t < |chains| {
      WalkUpdateBelow(chains, u, c, t + 1);
    }
  }

  /** Dropping the first record of a walk: it is the head of the first
      non-empty slot s0, and the walk over the chains with that head popped is
      the rest of the walk. */
  lemma {:induction false} PopFirst(chains: Chains, t: nat) returns (s0: nat)
    requires Walk(chains, t) != []
    ensures t <= s0 < |chains| && chains[s0] != []
    ensures chains[s0][0] == Walk(chains, t)[0]
    ensures Walk(chains[s0 := chains[s0][1..]], t) == Walk(chains, t)[1..]
    decreases |chains| - t
  {
    assert t < |chains|;
    assert Walk(chains, t) == chains[t] + Walk(chains, t + 1);
    if chains[t] != [] {
      s0 := t;
      var chains' := chains[t := chains[t][1..]];
      WalkUpdateBelow(chains, t, chains[t][1..], t + 1);
      assert Walk(chains', t) == chains[t][1..] + Walk(chains, t + 1);
    } else {
      s0 := PopFirst(chains, t + 1);
      var chains' := chains[s0 := chains[s0][1..]];
      assert Walk(chains', t) == chains'[t] + Walk(chains', t + 1);
    }
  }

  /** The whole walk holds exactly the chained records, each once. */
  lemma WalkIsMembers(recs: Records, heads: seq<Offset>, cap: nat, chains: Chains)
    requires ChainsOk(recs, heads, cap, chains)
    ensures forall x :: x in Walk(chains, 0) <==> x in Members(chains)
    ensures Distinct(Walk(chains, 0))
    ensures |Walk(chains, 0)| == |Members(chains)|
  {
    var w := Walk(chains, 0);
    forall x | x in w
      ensures x in Members(chains)
    {
      var j :| 0 <= j < |w| && w[j] == x;
      var s, k := WalkIndex(chains, 0, j);
      InMembers(chains, s, k);
    }
    forall x | x in Members(chains)
      ensures x in w
    {
      var s, k :| 0 <= s < |chains| && 0 <= k < |chains[s]| && chains[s][k] == x;
      WalkPosition(chains, 0, s, k);
    }
    forall i, j | 0 <= i < j < |w|
      ensures w[i] != w[j]
    {
      var s, k := WalkIndex(chains, 0, i);
      var s', k' := WalkIndex(chains, 0, j);
      PositionsDiffer(recs, heads, cap, chains, s, k, s', k');
    }
    DistinctCard(w);
    assert Elems(w) == Members(chains);
  }

  /** Chained records are never the end cursor, so a walk starting at 0 is
      empty exactly when its first offset is. */
  lemma FirstNull(recs: Records, heads: seq<Offset>, cap: nat, chains: Chains)
    requires ChainsOk(recs, heads, cap, chains)
    ensures First(Walk(chains, 0)) == Null <==> Walk(chains, 0) == []
  {
    if Walk(chains, 0) != [] {
      var s, k := WalkIndex(chains, 0, 0);
    }
  }

  /** A non-zero first offset of the walk is its first element and chained. */
  lemma FirstIsMember(recs: Records, heads: seq<Offset>, cap: nat, chains: Chains)
    requires ChainsOk(recs, heads, cap, chains)
    requires First(Walk(chains, 0)) != Null
    ensures Walk(chains, 0) != [] && First(Walk(chains, 0)) == Walk(chains, 0)[0]
    ensures First(Walk(chains, 0)) in Members(chains)
  {
    var s, k := WalkIndex(chains, 0, 0);
    InMembers(chains, s, k);
  }

  /** An empty walk means empty chains. */
  lemma EmptyWalk(recs: Records, heads: seq<Offset>, cap: nat, chains: Chains)
    requires ChainsOk(recs, heads, cap, chains)
    requires Walk(chains, 0) == []
    ensures Members(chains) == {}
  {
    WalkIsMembers(recs, heads, cap, chains);
  }

  /** The offsets of an iteration order. */
  function Elems(w: seq<Offset>): set<Offset>
  {
    set x | x in w
  }

  /** The elements of a prefix one longer gain exactly the next entry. */
  lemma PrefixElems(w: seq<Offset>, n: nat)
    requires n < |w|
    ensures Elems(w[..n + 1]) == Elems(w[..n]) + {w[n]}
  {
    assert w[..n + 1] == w[..n] + [w[n]];
  }

  /** The walk holds exactly the chained records. */
  lemma ElemsWalk(recs: Records, heads: seq<Offset>, cap: nat, chains: Chains)
    requires ChainsOk(recs, heads, cap, chains)
    ensures Elems(Walk(chains, 0)) == Members(chains)
  {
    WalkIsMembers(recs, heads, cap, chains);
  }

  /** A sequence without repeats has as many elements as its set. */
  lemma {:induction false} DistinctCard(w: seq<Offset>)
    requires Distinct(w)
    ensures |Elems(w)| == |w|
  {
    if w != [] {
      DistinctCard(w[1..]);
      assert Elems(w) == {w[0]} + Elems(w[1..]);
    }
  }

  /** What next answers for x on the order w: the offset after x's first
      occurrence, or 0 when x is last or absent. */
  function Succ(w: seq<Offset>, x: Offset): Offset
  {
    var r := From(w, x);
    if |r| >= 2 then r[1] else Null
  }

  /** What follows the first entry of an order is the first entry of the rest. */
  lemma SuccHead(w: seq<Offset>)
    requires w != []
    ensures Succ(w, w[0]) == First(w[1..])
  {
  }

  /** In an order without repeats, the order from its j-th entry is its
      suffix at j. */
  lemma {:induction false} FromDistinct(w: seq<Offset>, j: nat)
    requires Distinct(w) && j < |w|
    ensures From(w, w[j]) == w[j..]
  {
    if j > 0 {
      assert w[1..][j - 1] == w[j];
      FromDistinct(w[1..], j - 1);
      assert w[1..][j - 1..] == w[j..];
    }
  }

  /** The walk from its j-th entry is its suffix at j. */
  lemma FromWalk(recs: Records, heads: seq<Offset>, cap: nat, chains: Chains, j: nat)
    requires ChainsOk(recs, heads, cap, chains)
    requires j < |Walk(chains, 0)|
    ensures From(Walk(chains, 0), Walk(chains, 0)[j]) == Walk(chains, 0)[j..]
  {
    WalkIsMembers(recs, heads, cap, chains);
    FromDistinct(Walk(chains, 0), j);
  }

  /** The record after position k of slot s in iteration order is its chain
      successor, or else the first record of a later slot. */
  lemma Successor(recs: Records, heads: seq<Offset>, cap: nat, chains: Chains, s: nat, k: nat)
    requires ChainsOk(recs, heads, cap, chains)
    requires s < cap && k < |chains[s]|
    ensures Succ(Walk(chains, 0), chains[s][k]) ==
              (if k + 1 < |chains[s]| then chains[s][k + 1] else First(Walk(chains, s + 1)))
  {
    WalkPosition(chains, 0, s, k);
    var w := Walk(chains, 0);
    var p := |w| - |Walk(chains, s)| + k;
    FromWalk(recs, heads, cap, chains, p);
  }

  /** Every entry of the walk is chained. */
  lemma WalkMember(recs: Records, heads: seq<Offset>, cap: nat, chains: Chains, j: nat)
    requires ChainsOk(recs, heads, cap, chains)
    requires j < |Walk(chains, 0)|
    ensures Walk(chains, 0)[j] in Members(chains) && Walk(chains, 0)[j] != Null
  {
    var s, k := WalkIndex(chains, 0, j);
    InMembers(chains, s, k);
  }

  /** Every chained record is on the walk. */
  lemma MemberInWalk(recs: Records, heads: seq<Offset>, cap: nat, chains: Chains, x: Offset)
    requires ChainsOk(recs, heads, cap, chains)
    requires x in Members(chains)
    ensures x in Walk(chains, 0)
  {
    var s, k :| 0 <= s < |chains| && 0 <= k < |chains[s]| && chains[s][k] == x;
    WalkPosition(chains, 0, s, k);
  }

  /** Chained records are never the end cursor. */
  lemma {:induction false} WalkNonNull(recs: Records, heads: seq<Offset>, cap: nat, chains: Chains, j: nat)
    requires ChainsOk(recs, heads, cap, chains)
    requires j < |Walk(chains, 0)|
    ensures Walk(chains, 0)[j] != Null
  {
    var s, k := WalkIndex(chains, 0, j);
  }

  /** The walk has no repeats. */
  lemma WalkDistinct(recs: Records, heads: seq<Offset>, cap: nat, chains: Chains)
    requires ChainsOk(recs, heads, cap, chains)
    ensures Distinct(Walk(chains, 0))
  {
    WalkIsMembers(recs, heads, cap, chains);
  }

  /** The records for_each visits from beg: the suffix of the walk that
      starts at beg, empty for the end cursor, with no null offset. */
  lemma Along(recs: Records, heads: seq<Offset>, cap: nat, chains: Chains, beg: Offset) returns (w: seq<Offset>)
    requires ChainsOk(recs, heads, cap, chains)
    requires beg == Null || beg in Members(chains)
    ensures w == From(Walk(chains, 0), beg)
    ensures |w| <= |Walk(chains, 0)| && w == Walk(chains, 0)[|Walk(chains, 0)| - |w|..]
    ensures beg == if w == [] then Null else w[0]
    ensures forall j :: 0 <= j < |w| ==> w[j] != Null
  {
    var W := Walk(chains, 0);
    w := From(W, beg);
    if beg != Null {
      MemberInWalk(recs, heads, cap, chains, beg);
    }
    WalkNoNull(recs, heads, cap, chains);
    SuffixNoNull(W, w);
  }

  /** No entry of the walk is the end cursor. */
  lemma WalkNoNull(recs: Records, heads: seq<Offset>, cap: nat, chains: Chains)
    requires ChainsOk(recs, heads, cap, chains)
    ensures forall j :: 0 <= j < |Walk(chains, 0)| ==> Walk(chains, 0)[j] != Null
  {
    forall j | 0 <= j < |Walk(chains, 0)|
      ensures Walk(chains, 0)[j] != Null
    {
      WalkNonNull(recs, heads, cap, chains, j);
    }
  }

  /** A suffix of an order without null offsets has none either. */
  lemma SuffixNoNull(W: seq<Offset>, w: seq<Offset>)
    requires forall j :: 0 <= j < |W| ==> W[j] != Null
    requires |w| <= |W| && w == W[|W| - |w|..]
    ensures forall j :: 0 <= j < |w| ==> w[j] != Null
  {
    forall j | 0 <= j < |w|
      ensures w[j] != Null
    {
      SuffixAt(W, w, j);
    }
  }

  /** Position j of a suffix w of W is position |W| - |w| + j of W. */
  lemma SuffixAt(W: seq<Offset>, w: seq<Offset>, j: nat)
    requires |w| <= |W| && w == W[|W| - |w|..] && j < |w|
    ensures w[j] == W[|W| - |w| + j]
  {
  }

  /** On a suffix w of an order W without repeats, Succ steps one place along
      w, and off its end to 0. */
  lemma {:induction false} SuccAlong(W: seq<Offset>, w: seq<Offset>, n: nat)
    requires Distinct(W) && |w| <= |W| && w == W[|W| - |w|..] && n < |w|
    ensures Succ(W, w[n]) == if n + 1 < |w| then w[n + 1] else Null
  {
    var d := |W| - |w|;
    SuffixAt(W, w, n);
    FromDistinct(W, d + n);
    if n + 1 < |w| {
      SuffixAt(W, w, n + 1);
    }
  }

  /** The part of an iteration order that starts at x: empty when x does not
      occur. */
  function From(w: seq<Offset>, x: Offset): (r: seq<Offset>)
    ensures |r| <= |w| && r == w[|w| - |r|..]
    ensures r != [] ==> r[0] == x
    ensures x in w ==> r != []
  {
    if w == [] then []
    else if w[0] == x then w
    else From(w[1..], x)
  }

  /** for_each's count over the order w: the records before the end marker
      whose callbacks all answered 0, stopping at the first non-zero answer. */
  function Visited(w: seq<Offset>, end: Offset, f: Offset -> int): (n: nat)
    ensures n <= |w|
  {
    if w == [] || w[0] == end then 0
    else if f(w[0]) != 0 then 0
    else 1 + Visited(w[1..], end, f)
  }

  /** A record before the end marker whose callback answers 0 is counted,
      and the visit goes on from the record after it. */
  lemma VisitedStep(w: seq<Offset>, end: Offset, f: Offset -> int, n: nat)
    requires n < |w| && w[n] != end && f(w[n]) == 0
    ensures Visited(w[n..], end, f) == 1 + Visited(w[n + 1..], end, f)
  {
    assert w[n..][1..] == w[n + 1..];
  }

  /** A visit counts nothing from the end of the order, from the end marker
      or from a record whose callback answers non-zero. */
  lemma VisitedNone(w: seq<Offset>, end: Offset, f: Offset -> int, n: nat)
    requires n <= |w|
    requires n == |w| || w[n] == end || f(w[n]) != 0
    ensures Visited(w[n..], end, f) == 0
  {
  }

  /** Callbacks that always answer 0 and an end marker outside the order visit
      the whole order. */
  lemma {:induction false} VisitedAll(w: seq<Offset>, end: Offset, f: Offset -> int)
    requires forall i :: 0 <= i < |w| ==> f(w[i]) == 0 && w[i] != end
    ensures Visited(w, end, f) == |w|
  {
    if w != [] {
      VisitedAll(w[1..], end, f);
    }
  }

  /** A visit stops at the first non-zero answer: every record counted answered
      0, and the record after them, if any, is the end marker or answered
      non-zero. */
  lemma {:induction false} VisitedStops(w: seq<Offset>, end: Offset, f: Offset -> int)
    ensures forall i :: 0 <= i < Visited(w, end, f) ==> f(w[i]) == 0 && w[i] != end
    ensures Visited(w, end, f) < |w| ==> w[Visited(w, end, f)] == end || f(w[Visited(w, end, f)]) != 0
  {
    if w != [] && w[0] != end && f(w[0]) == 0 {
      VisitedStops(w[1..], end, f);
    }
  }
}
