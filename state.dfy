/** The table's index state as a value, its invariant, and the invariant's
    preservation by each sequence of stores the table operations make. */
module TableState {
  import opened ShmTypes
  import opened PrimeLadder
  import opened HashChains
  import opened ChainOrder

  /** The records, the current generation (slot heads, capacity, chains), the
      new generation of an interrupted or running rehash, the bitmap, the work
      cursor, and whether the two generations differ. */
  datatype Snap = Snap(
    recs: Records,
    heads: seq<Offset>, cap: nat, chains: Chains,
    newHeads: seq<Offset>, newCap: nat, newChains: Chains,
    bits: seq<bool>, cursor: Offset, growing: bool)

  /** The live records: on a chain of either generation, or held by the cursor. */
  ghost function LiveOf(t: Snap): set<Offset>
  {
    if !t.growing then Members(t.chains)
    else Members(t.chains) + Members(t.newChains) + (if t.cursor == Null then {} else {t.cursor})
  }

  /** Without a rehash: one bit per slot, set exactly for the non-empty chains,
      and no cursor. */
  ghost predicate StableInv(t: Snap)
  {
    && |t.chains| == t.cap == |t.bits|
    && t.heads == t.newHeads
    && t.cursor == Null
    && forall s :: 0 <= s < t.cap ==> (t.bits[s] <==> t.chains[s] != [])
  }

  /** The cursor record sits at a crash point of a move: head of its old slot
      and outside the new index; in neither index; or head of its new slot and
      outside the old index. Its new slot's bit is set. */
  ghost predicate CursorInv(t: Snap)
    requires t.cap > 0 && t.newCap > 0 && |t.chains| == t.cap && |t.newChains| == t.newCap
  {
    var c := t.cursor;
    && c in t.recs
    && var so := t.recs[c].hkey % t.cap;
    && var sn := t.recs[c].hkey % t.newCap;
    && sn < |t.bits| && t.bits[sn]
    && ((c in Members(t.chains) && t.chains[so] != [] && t.chains[so][0] == c && c !in Members(t.newChains))
        || (c !in Members(t.chains) && c !in Members(t.newChains))
        || (c !in Members(t.chains) && t.newChains[sn] != [] && t.newChains[sn][0] == c))
  }

  /** During a rehash: the new index is well formed, larger than the old one
      and disjoint from it, owns the bitmap, and every set bit is owed to a
      live record. */
  ghost predicate GrowingInv(t: Snap)
    requires t.cap > 0 && |t.chains| == t.cap
  {
    && ChainsOk(t.recs, t.newHeads, t.newCap, t.newChains)
    && OnLadder(t.newCap) && t.cap < t.newCap
    && Members(t.chains) !! Members(t.newChains)
    && |t.bits| == t.newCap
    && (forall u :: 0 <= u < t.newCap && t.newChains[u] != [] ==> t.bits[u])
    && (forall u :: 0 <= u < t.newCap && t.bits[u] ==> u in SlotsOf(t.recs, LiveOf(t), t.newCap))
    && (t.cursor != Null ==> CursorInv(t))
  }

  /** The index invariant. */
  ghost predicate Inv(t: Snap)
  {
    && ChainsOk(t.recs, t.heads, t.cap, t.chains)
    && OnLadder(t.cap)
    && (!t.growing ==> StableInv(t))
    && (t.growing ==> GrowingInv(t))
  }

  /** Whether the cursor holds a record that neither index links. */
  ghost predicate Detached(t: Snap)
  {
    t.growing && t.cursor != Null && t.cursor !in Members(t.chains) && t.cursor !in Members(t.newChains)
  }

  /** The number of live records, counted along the iteration orders. */
  ghost function LiveCount(t: Snap): nat
  {
    |Walk(t.chains, 0)| + (if t.growing then |Walk(t.newChains, 0)| else 0) + (if Detached(t) then 1 else 0)
  }

  /** The count is the number of live records. */
  lemma LiveCountIsCard(t: Snap)
    requires ChainsOk(t.recs, t.heads, t.cap, t.chains)
    requires t.growing ==> ChainsOk(t.recs, t.newHeads, t.newCap, t.newChains) && Members(t.chains) !! Members(t.newChains)
    ensures LiveCount(t) == |LiveOf(t)|
  {
    WalkIsMembers(t.recs, t.heads, t.cap, t.chains);
    if t.growing {
      WalkIsMembers(t.recs, t.newHeads, t.newCap, t.newChains);
      UnionCount(Members(t.chains), Members(t.newChains), t.cursor);
    }
  }

  /** Two disjoint sets and one more offset, counted. */
  lemma UnionCount(a: set<Offset>, b: set<Offset>, c: Offset)
    requires a !! b
    ensures var e := if c == Null then {} else {c};
            |a + b + e| == |a| + |b| + (if c != Null && c !in a && c !in b then 1 else 0)
  {
    if c != Null && (c in a || c in b) {
      assert a + b + {c} == a + b;
    }
  }

  /** Two valid states with the same live records count the same. */
  lemma SameCount(t: Snap, t': Snap)
    requires Inv(t) && Inv(t') && LiveOf(t) == LiveOf(t')
    ensures LiveCount(t) == LiveCount(t')
  {
    LiveCountIsCard(t);
    LiveCountIsCard(t');
  }

  /** The new slot of the cursor record. */
  ghost function CursorNewSlot(t: Snap): nat
    requires t.cursor in t.recs && t.newCap > 0
  {
    t.recs[t.cursor].hkey % t.newCap
  }

  // ---- rehash: allocating the new generation -------------------------------

  /** The state after the new generation is allocated, zeroed and published. */
  ghost function Fresh(t: Snap, n: nat): Snap
  {
    t.(newHeads := seq(n, _ => Null), newCap := n, newChains := seq(n, _ => []),
       bits := seq(n, _ => false), growing := true)
  }

  lemma FreshKeeps(t: Snap, n: nat)
    requires Inv(t) && !t.growing && OnLadder(n) && t.cap < n
    ensures Inv(Fresh(t, n)) && LiveOf(Fresh(t, n)) == LiveOf(t)
  {
    var t' := Fresh(t, n);
    EmptyChainsOk(t.recs, n);
    assert LiveOf(t') == Members(t.chains);
  }

  // ---- rehash: one move ----------------------------------------------------

  /** Setting the bit of o's new slot, then naming o in the cursor. */
  ghost function Claimed(t: Snap, o: Offset): Snap
    requires o in t.recs && t.newCap > 0 && t.recs[o].hkey % t.newCap < |t.bits|
  {
    t.(bits := t.bits[t.recs[o].hkey % t.newCap := true], cursor := o)
  }

  lemma ClaimKeeps(t: Snap, o: Offset)
    requires Inv(t) && t.growing
    requires o in Members(t.chains)
    requires t.heads[t.recs[o].hkey % t.cap] == o
    requires t.cursor == Null || t.cursor in Members(t.newChains)
    ensures o in t.recs && t.recs[o].hkey % t.newCap < |t.bits|
    ensures Inv(Claimed(t, o)) && LiveOf(Claimed(t, o)) == LiveOf(t)
  {
    var s, k := MemberPosition(t.recs, t.heads, t.cap, t.chains, o);
    var t' := Claimed(t, o);
    assert LiveOf(t') == LiveOf(t);
    InSlotsOf(t.recs, LiveOf(t), t.newCap, o);
    ClaimCursor(t, o);
  }

  lemma ClaimCursor(t: Snap, o: Offset)
    requires Inv(t) && t.growing
    requires o in Members(t.chains)
    requires t.heads[t.recs[o].hkey % t.cap] == o
    ensures o in t.recs && t.recs[o].hkey % t.newCap < |t.bits|
    ensures CursorInv(Claimed(t, o))
  {
    var so := t.recs[o].hkey % t.cap;
    assert t.heads[so] == Head(t.chains[so]);
  }

  /** A crash between the two stores of a claim: the bit of o's new slot is
      set while the cursor still names the previous record. */
  lemma BitOnlyKeeps(t: Snap, o: Offset)
    requires Inv(t) && t.growing
    requires o in Members(t.chains)
    ensures o in t.recs && t.recs[o].hkey % t.newCap < |t.bits|
    ensures Inv(t.(bits := t.bits[t.recs[o].hkey % t.newCap := true]))
  {
    var s, k := MemberPosition(t.recs, t.heads, t.cap, t.chains, o);
    InSlotsOf(t.recs, LiveOf(t), t.newCap, o);
  }

  /** Unhooking the cursor record from the head of its old slot. */
  ghost function Unlinked(t: Snap): Snap
    requires t.cursor in t.recs && t.cap > 0
    requires t.recs[t.cursor].hkey % t.cap < |t.heads| && t.recs[t.cursor].hkey % t.cap < |t.chains|
    requires t.chains[t.recs[t.cursor].hkey % t.cap] != []
  {
    var so := t.recs[t.cursor].hkey % t.cap;
    t.(heads := t.heads[so := t.recs[t.cursor].next], chains := t.chains[so := t.chains[so][1..]])
  }

  lemma UnlinkKeeps(t: Snap)
    requires Inv(t) && t.growing && t.cursor != Null
    requires t.cursor in t.recs && t.heads[t.recs[t.cursor].hkey % t.cap] == t.cursor
    ensures t.chains[t.recs[t.cursor].hkey % t.cap] != []
    ensures Inv(Unlinked(t)) && LiveOf(Unlinked(t)) == LiveOf(t)
    ensures t.cursor !in Members(Unlinked(t).chains) && t.cursor !in Members(t.newChains)
  {
    var c := t.cursor;
    var so := t.recs[c].hkey % t.cap;
    assert t.heads[so] == Head(t.chains[so]);
    InMembers(t.chains, so, 0);
    RemoveHead(t.recs, t.heads, t.cap, t.chains, so);
    var t' := Unlinked(t);
    assert LiveOf(t') == LiveOf(t);
    assert Members(t'.chains) !! Members(t'.newChains);
  }

  /** Linking the cursor record in front of its new slot. */
  ghost function Linked(t: Snap): Snap
    requires t.cursor in t.recs && t.newCap > 0
    requires t.recs[t.cursor].hkey % t.newCap < |t.newHeads| && t.recs[t.cursor].hkey % t.newCap < |t.newChains|
  {
    var c := t.cursor;
    var sn := t.recs[c].hkey % t.newCap;
    t.(recs := t.recs[c := t.recs[c].(next := t.newHeads[sn])],
       newHeads := t.newHeads[sn := c],
       newChains := t.newChains[sn := [c] + t.newChains[sn]])
  }

  lemma LinkKeeps(t: Snap)
    requires Inv(t) && t.growing && t.cursor != Null
    requires t.cursor !in Members(t.chains) && t.cursor !in Members(t.newChains)
    ensures t.cursor in t.recs
    ensures Inv(Linked(t)) && LiveOf(Linked(t)) == LiveOf(t)
    ensures SameData(t.recs, Linked(t).recs)
    ensures t.cursor in Members(Linked(t).newChains)
  {
    var c := t.cursor;
    var sn := t.recs[c].hkey % t.newCap;
    var e := t.recs[c].(next := t.newHeads[sn]);
    Prepend(t.recs, t.newHeads, t.newCap, t.newChains, c, e);
    UpdateOutside(t.recs, t.heads, t.cap, t.chains, c, e);
    var t' := Linked(t);
    assert LiveOf(t') == LiveOf(t);
    SlotsOfSameData(t.recs, t'.recs, LiveOf(t), t.newCap);
    InMembers(t'.newChains, sn, 0);
  }

  /** A crash between the two stores of a link: the detached cursor record
      already points at its new slot's head, which does not yet name it. */
  lemma NextOnlyKeeps(t: Snap)
    requires Inv(t) && t.growing && t.cursor != Null
    requires t.cursor !in Members(t.chains) && t.cursor !in Members(t.newChains)
    ensures t.cursor in t.recs && t.recs[t.cursor].hkey % t.newCap < |t.newHeads|
    ensures var c := t.cursor;
            Inv(t.(recs := t.recs[c := t.recs[c].(next := t.newHeads[t.recs[c].hkey % t.newCap])]))
  {
    var c := t.cursor;
    var e := t.recs[c].(next := t.newHeads[t.recs[c].hkey % t.newCap]);
    UpdateOutside(t.recs, t.heads, t.cap, t.chains, c, e);
    UpdateOutside(t.recs, t.newHeads, t.newCap, t.newChains, c, e);
    var t' := t.(recs := t.recs[c := e]);
    assert LiveOf(t') == LiveOf(t);
    SlotsOfSameData(t.recs, t'.recs, LiveOf(t), t.newCap);
  }

  // ---- rehash: resuming an interrupted move ---------------------------------

  /** The resume step: a cursor record that does not yet head its new slot is
      taken off its old slot if it still heads that one, then linked in front
      of its new slot; otherwise nothing changes. Either way the invariant and
      the live records are kept and the cursor record ends on the new index. */
  ghost function Resumed(t: Snap): (r: Snap)
    requires Inv(t) && t.growing
    ensures Inv(r) && r.growing && LiveOf(r) == LiveOf(t)
    ensures SameData(t.recs, r.recs)
    ensures r.cursor == t.cursor
    ensures r.cursor == Null || r.cursor in Members(r.newChains)
  {
    ResumeCases(t);
    if t.cursor == Null then t
    else
      var c := t.cursor;
      var so := t.recs[c].hkey % t.cap;
      var sn := t.recs[c].hkey % t.newCap;
      if t.newHeads[sn] == c then t
      else if t.heads[so] == c then
        UnlinkKeeps(t);
        LinkKeeps(Unlinked(t));
        Linked(Unlinked(t))
      else
        LinkKeeps(t);
        Linked(t)
  }

  /** Which case of the resume step applies: a cursor record that heads its
      new slot is on the new index; one that heads neither slot is on neither
      index. */
  lemma ResumeCases(t: Snap)
    requires Inv(t) && t.growing
    ensures t.cursor != Null ==> t.cursor in t.recs
    ensures t.cursor != Null && t.newHeads[CursorNewSlot(t)] == t.cursor ==> t.cursor in Members(t.newChains)
    ensures t.cursor != Null && t.newHeads[CursorNewSlot(t)] != t.cursor && t.heads[t.recs[t.cursor].hkey % t.cap] != t.cursor
            ==> t.cursor !in Members(t.chains) && t.cursor !in Members(t.newChains)
  {
    var c := t.cursor;
    if c != Null {
      var so := t.recs[c].hkey % t.cap;
      var sn := t.recs[c].hkey % t.newCap;
      assert t.heads[so] == Head(t.chains[so]);
      assert t.newHeads[sn] == Head(t.newChains[sn]);
      if t.newHeads[sn] == c {
        InMembers(t.newChains, sn, 0);
      }
    }
  }

  /** Resuming twice is resuming once: after the step the cursor record heads
      its new slot (or there is no cursor), so a second step changes nothing. */
  lemma ResumeIdempotent(t: Snap)
    requires Inv(t) && t.growing
    ensures Resumed(Resumed(t)) == Resumed(t)
  {
  }

  /** Clearing the cursor and installing the new generation. */
  ghost function Ended(t: Snap): Snap
  {
    Snap(t.recs, t.newHeads, t.newCap, t.newChains, t.newHeads, t.newCap, t.newChains, t.bits, Null, false)
  }

  lemma EndKeeps(t: Snap)
    requires Inv(t) && t.growing
    requires t.cursor == Null || t.cursor in Members(t.newChains)
    requires Members(t.chains) == {}
    ensures Inv(Ended(t)) && LiveOf(Ended(t)) == LiveOf(t)
  {
    var t' := Ended(t);
    assert LiveOf(t) == Members(t.newChains);
    forall u | 0 <= u < t.newCap && t.bits[u]
      ensures t.newChains[u] != []
    {
      var x :| x in LiveOf(t) && x in t.recs && t.recs[x].hkey % t.newCap == u;
      MemberSlot(t.recs, t.newHeads, t.newCap, t.newChains, x);
    }
  }

  // ---- the stable operations ------------------------------------------------

  /** insert2's stores: record o, holding e, goes in front of its slot, whose
      bit is set. */
  ghost function Inserted(t: Snap, o: Offset, e: Elem): Snap
    requires t.cap > 0 && |t.heads| == |t.chains| == |t.bits| == t.cap
  {
    var s := e.hkey % t.cap;
    t.(recs := t.recs[o := e],
       heads := t.heads[s := o], newHeads := t.heads[s := o],
       chains := t.chains[s := [o] + t.chains[s]],
       bits := t.bits[s := true])
  }

  lemma InsertKeeps(t: Snap, o: Offset, e: Elem)
    requires Inv(t) && !t.growing
    requires o != Null && o !in LiveOf(t)
    requires e.next == t.heads[e.hkey % t.cap]
    ensures Inv(Inserted(t, o, e)) && !Inserted(t, o, e).growing
    ensures LiveOf(Inserted(t, o, e)) == LiveOf(t) + {o}
    ensures LiveCount(Inserted(t, o, e)) == LiveCount(t) + 1
  {
    var t' := Inserted(t, o, e);
    Prepend(t.recs, t.heads, t.cap, t.chains, o, e);
    LiveCountIsCard(t);
    LiveCountIsCard(t');
  }

  /** eraseIteratorHelper when the record heads its slot: the slot starts at
      its successor, and the slot's bit is cleared when there is none. */
  ghost function ErasedHead(t: Snap, s: nat): Snap
    requires s < |t.chains| && s < |t.heads| && s < |t.bits|
    requires t.chains[s] != [] && t.chains[s][0] in t.recs
  {
    var nx := t.recs[t.chains[s][0]].next;
    t.(heads := t.heads[s := nx], newHeads := t.heads[s := nx],
       chains := t.chains[s := t.chains[s][1..]],
       bits := if nx == Null then t.bits[s := false] else t.bits)
  }

  lemma EraseHeadKeeps(t: Snap, s: nat)
    requires Inv(t) && !t.growing
    requires s < t.cap && t.chains[s] != []
    ensures t.chains[s][0] in t.recs
    ensures Inv(ErasedHead(t, s)) && !ErasedHead(t, s).growing
    ensures LiveOf(ErasedHead(t, s)) == LiveOf(t) - {t.chains[s][0]}
    ensures LiveCount(ErasedHead(t, s)) == LiveCount(t) - 1
  {
    InMembers(t.chains, s, 0);
    var t' := ErasedHead(t, s);
    RemoveHead(t.recs, t.heads, t.cap, t.chains, s);
    LiveCountIsCard(t);
    LiveCountIsCard(t');
  }

  /** eraseIteratorHelper when the record sits at position k > 0: its
      predecessor links past it; the index and the bitmap stay. */
  ghost function ErasedAfter(t: Snap, s: nat, k: nat): Snap
    requires s < |t.chains| && 0 < k < |t.chains[s]|
    requires t.chains[s][k - 1] in t.recs && t.chains[s][k] in t.recs
  {
    var p := t.chains[s][k - 1];
    t.(recs := t.recs[p := t.recs[p].(next := t.recs[t.chains[s][k]].next)],
       chains := t.chains[s := Without(t.chains[s], k)])
  }

  lemma EraseAfterKeeps(t: Snap, s: nat, k: nat)
    requires Inv(t) && !t.growing
    requires s < t.cap && 0 < k < |t.chains[s]|
    ensures t.chains[s][k - 1] in t.recs && t.chains[s][k] in t.recs
    ensures Inv(ErasedAfter(t, s, k)) && !ErasedAfter(t, s, k).growing
    ensures LiveOf(ErasedAfter(t, s, k)) == LiveOf(t) - {t.chains[s][k]}
    ensures LiveCount(ErasedAfter(t, s, k)) == LiveCount(t) - 1
  {
    InMembers(t.chains, s, k);
    var t' := ErasedAfter(t, s, k);
    RemoveAfter(t.recs, t.heads, t.cap, t.chains, s, k);
    LiveCountIsCard(t);
    LiveCountIsCard(t');
  }

  /** clear's memset of the bitmap and the index. */
  ghost function Cleared(t: Snap): Snap
  {
    t.(heads := seq(t.cap, _ => Null), newHeads := seq(t.cap, _ => Null),
       chains := seq(t.cap, _ => []), bits := seq(t.cap, _ => false))
  }

  lemma ClearKeeps(t: Snap)
    requires Inv(t) && !t.growing
    ensures Inv(Cleared(t)) && !Cleared(t).growing
    ensures LiveOf(Cleared(t)) == {} && LiveCount(Cleared(t)) == 0
  {
    EmptyChainsOk(t.recs, t.cap);
    WalkIsMembers(t.recs, seq(t.cap, _ => Null), t.cap, seq(t.cap, _ => []));
  }
}
