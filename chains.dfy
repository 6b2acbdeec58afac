/** Bucket chains as values: the element records of the segment, the slot
    heads of one index generation, and the abstract chain behind each slot.
    Every pointer operation of the table is a small surgery on these, and the
    lemmas below say which surgeries keep the chains well formed. */
module HashChains {
  import opened ShmTypes

  /** An element record (LsShmHElem): its 32-bit key value, its key and
      value bytes and the offset of the next record in its bucket chain. */
  datatype Elem = Elem(hkey: U32, key: seq<Byte>, value: seq<Byte>, next: Offset)

  /** The element records of the segment, by offset. */
  type Records = map<Offset, Elem>

  /** One chain of offsets per slot, in link order. */
  type Chains = seq<seq<Offset>>

  /** The slot a key belongs to (getIndex). */
  function SlotOf(hkey: nat, cap: nat): nat
    requires cap > 0
  {
    hkey % cap
  }

  function Head(c: seq<Offset>): Offset
  {
    if c == [] then Null else c[0]
  }

  /** The link stored after position k of a chain: its successor, or null. */
  function NextIn(c: seq<Offset>, k: nat): Offset
  {
    if k + 1 < |c| then c[k + 1] else Null
  }

  /** Slot s of heads starts the chain chains[s]. */
  ghost predicate HeadsMatch(heads: seq<Offset>, chains: Chains)
  {
    |heads| == |chains| && forall s :: 0 <= s < |chains| ==> heads[s] == Head(chains[s])
  }

  /** Every record of chain s is a non-null offset of records, belongs to
      slot s and links to its successor in the chain. */
  ghost predicate LinksOk(recs: Records, cap: nat, chains: Chains)
    requires cap > 0
  {
    && (forall s, k :: 0 <= s < |chains| && 0 <= k < |chains[s]| ==>
          chains[s][k] != Null && chains[s][k] in recs)
    && (forall s, k {:trigger recs[chains[s][k]]} :: 0 <= s < |chains| && 0 <= k < |chains[s]| ==>
          recs[chains[s][k]].hkey % cap == s && recs[chains[s][k]].next == NextIn(chains[s], k))
  }

  /** No chain repeats an offset. */
  ghost predicate NoRepeats(chains: Chains)
  {
    forall s, i, j :: 0 <= s < |chains| && 0 <= i < j < |chains[s]| ==> chains[s][i] != chains[s][j]
  }

  /** heads is a well-formed slot index of capacity cap over records, and
      chains[s] is the chain it holds at slot s. */
  ghost predicate ChainsOk(recs: Records, heads: seq<Offset>, cap: nat, chains: Chains)
  {
    && cap > 0 && |chains| == cap
    && HeadsMatch(heads, chains)
    && LinksOk(recs, cap, chains)
    && NoRepeats(chains)
  }

  /** The offsets on some chain. */
  ghost function Members(chains: Chains): set<Offset>
  {
    set s, k | 0 <= s < |chains| && 0 <= k < |chains[s]| :: chains[s][k]
  }

  /** A record is chained exactly when it is on the chain of its own slot. */
  lemma MemberSlot(recs: Records, heads: seq<Offset>, cap: nat, chains: Chains, x: Offset)
    requires ChainsOk(recs, heads, cap, chains)
    ensures x in Members(chains) <==> x in recs && x in chains[recs[x].hkey % cap]
  {
    if x in Members(chains) {
      var s, k :| 0 <= s < |chains| && 0 <= k < |chains[s]| && chains[s][k] == x;
      assert recs[x].hkey % cap == s;
    }
    if x in recs && x in chains[recs[x].hkey % cap] {
      var s := recs[x].hkey % cap;
      var k :| 0 <= k < |chains[s]| && chains[s][k] == x;
      assert chains[s][k] in Members(chains);
    }
  }

  /** Position of a chained record within its slot's chain. */
  lemma MemberPosition(recs: Records, heads: seq<Offset>, cap: nat, chains: Chains, x: Offset)
    returns (s: nat, k: nat)
    requires ChainsOk(recs, heads, cap, chains)
    requires x in Members(chains)
    ensures s == recs[x].hkey % cap && s < cap
    ensures k < |chains[s]| && chains[s][k] == x
    ensures forall j :: 0 <= j < |chains[s]| && chains[s][j] == x ==> j == k
  {
    MemberSlot(recs, heads, cap, chains, x);
    s := recs[x].hkey % cap;
    k :| 0 <= k < |chains[s]| && chains[s][k] == x;
  }

  /** The empty index: every slot null, every chain empty. */
  lemma EmptyChainsOk(recs: Records, cap: nat)
    requires cap > 0
    ensures ChainsOk(recs, seq(cap, _ => Null), cap, seq(cap, _ => []))
    ensures Members(seq(cap, _ => [])) == {}
  {
  }

  lemma InMembers(chains: Chains, s: nat, k: nat)
    requires s < |chains| && k < |chains[s]|
    ensures chains[s][k] in Members(chains)
  {
  }

  /** A record that no chain holds appears at no position of any chain. */
  lemma NotMemberNowhere(chains: Chains, o: Offset)
    requires o !in Members(chains)
    ensures forall s, k :: 0 <= s < |chains| && 0 <= k < |chains[s]| ==> chains[s][k] != o
  {
    forall s, k | 0 <= s < |chains| && 0 <= k < |chains[s]|
      ensures chains[s][k] != o
    {
      InMembers(chains, s, k);
    }
  }

  /** Rewriting a record that no chain holds leaves the chains intact. */
  lemma UpdateOutside(recs: Records, heads: seq<Offset>, cap: nat, chains: Chains, o: Offset, e: Elem)
    requires ChainsOk(recs, heads, cap, chains)
    requires o !in Members(chains)
    ensures ChainsOk(recs[o := e], heads, cap, chains)
  {
    NotMemberNowhere(chains, o);
  }

  lemma PrependLinks(recs: Records, cap: nat, chains: Chains, o: Offset, e: Elem)
    requires cap > 0 && |chains| == cap
    requires LinksOk(recs, cap, chains)
    requires o != Null && o !in Members(chains)
    requires e.next == Head(chains[e.hkey % cap])
    ensures LinksOk(recs[o := e], cap, chains[e.hkey % cap := [o] + chains[e.hkey % cap]])
  {
    var t := e.hkey % cap;
    var chains' := chains[t := [o] + chains[t]];
    var recs' := recs[o := e];
    NotMemberNowhere(chains, o);
    forall s, k | 0 <= s < cap && 0 <= k < |chains'[s]|
      ensures chains'[s][k] != Null && chains'[s][k] in recs'
      ensures recs'[chains'[s][k]].hkey % cap == s
      ensures recs'[chains'[s][k]].next == NextIn(chains'[s], k)
    {
      if s == t && k > 0 {
        assert chains'[s][k] == chains[t][k - 1];
      }
    }
  }

  lemma PrependNoRepeats(chains: Chains, t: nat, o: Offset)
    requires t < |chains|
    requires NoRepeats(chains)
    requires o !in Members(chains)
    ensures NoRepeats(chains[t := [o] + chains[t]])
  {
    var chains' := chains[t := [o] + chains[t]];
    NotMemberNowhere(chains, o);
    forall s, i, j | 0 <= s < |chains'| && 0 <= i < j < |chains'[s]|
      ensures chains'[s][i] != chains'[s][j]
    {
      if s == t && i > 0 {
        assert chains'[s][i] == chains[t][i - 1];
      }
    }
  }

  lemma PrependMembers(chains: Chains, t: nat, o: Offset)
    requires t < |chains|
    ensures Members(chains[t := [o] + chains[t]]) == Members(chains) + {o}
  {
    var chains' := chains[t := [o] + chains[t]];
    forall x
      ensures x in Members(chains') <==> x in Members(chains) || x == o
    {
      if x in Members(chains') {
        var s, k :| 0 <= s < |chains'| && 0 <= k < |chains'[s]| && chains'[s][k] == x;
        if s == t && k > 0 {
          assert chains[t][k - 1] == x;
          InMembers(chains, t, k - 1);
        } else if s != t {
          InMembers(chains, s, k);
        }
      }
      if x in Members(chains) {
        var s, k :| 0 <= s < |chains| && 0 <= k < |chains[s]| && chains[s][k] == x;
        if s == t {
          assert chains'[t][k + 1] == x;
          InMembers(chains', t, k + 1);
        } else {
          InMembers(chains', s, k);
        }
      }
      if x == o {
        InMembers(chains', t, 0);
      }
    }
  }

  /** insert2's linking: o, stored with next = the old head of slot t, becomes
      the head of slot t in front of the old chain. */
  lemma Prepend(recs: Records, heads: seq<Offset>, cap: nat, chains: Chains, o: Offset, e: Elem)
    requires ChainsOk(recs, heads, cap, chains)
    requires o != Null && o !in Members(chains)
    requires e.next == heads[e.hkey % cap]
    ensures ChainsOk(recs[o := e], heads[e.hkey % cap := o], cap,
                     chains[e.hkey % cap := [o] + chains[e.hkey % cap]])
    ensures Members(chains[e.hkey % cap := [o] + chains[e.hkey % cap]]) == Members(chains) + {o}
  {
    var t := e.hkey % cap;
    PrependLinks(recs, cap, chains, o, e);
    PrependNoRepeats(chains, t, o);
    PrependMembers(chains, t, o);
  }

  lemma RemoveHeadLinks(recs: Records, cap: nat, chains: Chains, s0: nat)
    requires cap > 0 && |chains| == cap
    requires LinksOk(recs, cap, chains)
    requires s0 < cap && chains[s0] != []
    ensures LinksOk(recs, cap, chains[s0 := chains[s0][1..]])
  {
    var chains' := chains[s0 := chains[s0][1..]];
    forall s, k | 0 <= s < cap && 0 <= k < |chains'[s]|
      ensures chains'[s][k] != Null && chains'[s][k] in recs
      ensures recs[chains'[s][k]].hkey % cap == s
      ensures recs[chains'[s][k]].next == NextIn(chains'[s], k)
    {
      if s == s0 {
        assert chains'[s][k] == chains[s0][k + 1];
      }
    }
  }

  lemma RemoveHeadNoRepeats(chains: Chains, s0: nat)
    requires NoRepeats(chains)
    requires s0 < |chains| && chains[s0] != []
    ensures NoRepeats(chains[s0 := chains[s0][1..]])
  {
    var chains' := chains[s0 := chains[s0][1..]];
    forall s, i, j | 0 <= s < |chains'| && 0 <= i < j < |chains'[s]|
      ensures chains'[s][i] != chains'[s][j]
    {
      if s == s0 {
        assert chains'[s][i] == chains[s0][i + 1] && chains'[s][j] == chains[s0][j + 1];
      }
    }
  }

  /** In well-formed chains two different positions hold different offsets. */
  lemma PositionsDiffer(recs: Records, heads: seq<Offset>, cap: nat, chains: Chains,
                        s: nat, k: nat, s': nat, k': nat)
    requires ChainsOk(recs, heads, cap, chains)
    requires s < cap && k < |chains[s]| && s' < cap && k' < |chains[s']|
    requires s != s' || k != k'
    ensures chains[s][k] != chains[s'][k']
  {
    if s != s' {
      assert recs[chains[s][k]].hkey % cap == s;
      assert recs[chains[s'][k']].hkey % cap == s';
    } else if k < k' {
      assert chains[s][k] != chains[s][k'];
    } else {
      assert chains[s][k'] != chains[s][k];
    }
  }

  lemma RemoveHeadMembers(recs: Records, heads: seq<Offset>, cap: nat, chains: Chains, s0: nat)
    requires ChainsOk(recs, heads, cap, chains)
    requires s0 < cap && chains[s0] != []
    ensures Members(chains[s0 := chains[s0][1..]]) == Members(chains) - {chains[s0][0]}
  {
    forall x
      ensures x in Members(chains[s0 := chains[s0][1..]]) <==> x in Members(chains) && x != chains[s0][0]
    {
      if x in Members(chains[s0 := chains[s0][1..]]) {
        RemoveHeadKept(recs, heads, cap, chains, s0, x);
      }
      if x in Members(chains) && x != chains[s0][0] {
        RemoveHeadStays(chains, s0, x);
      }
    }
  }

  /** A member left after the head's unlink was a member, and not the head. */
  lemma RemoveHeadKept(recs: Records, heads: seq<Offset>, cap: nat, chains: Chains, s0: nat, x: Offset)
    requires ChainsOk(recs, heads, cap, chains)
    requires s0 < cap && chains[s0] != []
    requires x in Members(chains[s0 := chains[s0][1..]])
    ensures x in Members(chains) && x != chains[s0][0]
  {
    var chains' := chains[s0 := chains[s0][1..]];
    var s, k :| 0 <= s < |chains'| && 0 <= k < |chains'[s]| && chains'[s][k] == x;
    if s == s0 {
      assert chains[s0][k + 1] == x;
      InMembers(chains, s0, k + 1);
      PositionsDiffer(recs, heads, cap, chains, s0, k + 1, s0, 0);
    } else {
      InMembers(chains, s, k);
      PositionsDiffer(recs, heads, cap, chains, s, k, s0, 0);
    }
  }

  /** A member other than the head survives the head's unlink. */
  lemma RemoveHeadStays(chains: Chains, s0: nat, x: Offset)
    requires s0 < |chains| && chains[s0] != []
    requires x in Members(chains) && x != chains[s0][0]
    ensures x in Members(chains[s0 := chains[s0][1..]])
  {
    var chains' := chains[s0 := chains[s0][1..]];
    var s, k :| 0 <= s < |chains| && 0 <= k < |chains[s]| && chains[s][k] == x;
    if s == s0 {
      assert chains'[s0][k - 1] == x;
      InMembers(chains', s0, k - 1);
    } else {
      InMembers(chains', s, k);
    }
  }

  /** The unlink of a slot's head: the slot now starts at the head's successor. */
  lemma RemoveHead(recs: Records, heads: seq<Offset>, cap: nat, chains: Chains, s0: nat)
    requires ChainsOk(recs, heads, cap, chains)
    requires s0 < cap && chains[s0] != []
    ensures ChainsOk(recs, heads[s0 := recs[chains[s0][0]].next], cap, chains[s0 := chains[s0][1..]])
    ensures Members(chains[s0 := chains[s0][1..]]) == Members(chains) - {chains[s0][0]}
  {
    RemoveHeadLinks(recs, cap, chains, s0);
    RemoveHeadNoRepeats(chains, s0);
    RemoveHeadMembers(recs, heads, cap, chains, s0);
  }

  /** The chain of slot s0 without its position k0. */
  function Without(c: seq<Offset>, k0: nat): (r: seq<Offset>)
    requires k0 < |c|
    ensures |r| == |c| - 1
    ensures forall i :: 0 <= i < k0 ==> r[i] == c[i]
    ensures forall i :: k0 <= i < |r| ==> r[i] == c[i + 1]
  {
    c[..k0] + c[k0 + 1..]
  }

  lemma RemoveAfterLinks(recs: Records, heads: seq<Offset>, cap: nat, chains: Chains, s0: nat, k0: nat)
    requires ChainsOk(recs, heads, cap, chains)
    requires s0 < cap && 0 < k0 < |chains[s0]|
    ensures var p := chains[s0][k0 - 1];
            LinksOk(recs[p := recs[p].(next := recs[chains[s0][k0]].next)], cap,
                    chains[s0 := Without(chains[s0], k0)])
  {
    var p := chains[s0][k0 - 1];
    var o := chains[s0][k0];
    var c := Without(chains[s0], k0);
    var chains' := chains[s0 := c];
    var recs' := recs[p := recs[p].(next := recs[o].next)];
    forall s, k | 0 <= s < cap && 0 <= k < |chains'[s]|
      ensures chains'[s][k] != Null && chains'[s][k] in recs'
      ensures recs'[chains'[s][k]].hkey % cap == s
      ensures recs'[chains'[s][k]].next == NextIn(chains'[s], k)
    {
      if s == s0 {
        if k < k0 - 1 {
          assert chains[s0][k] != p;
        } else if k >= k0 {
          assert chains[s0][k + 1] != p;
        }
      } else {
        assert recs[chains[s][k]].hkey % cap == s;
      }
    }
  }

  lemma RemoveAfterNoRepeats(chains: Chains, s0: nat, k0: nat)
    requires NoRepeats(chains)
    requires s0 < |chains| && k0 < |chains[s0]|
    ensures NoRepeats(chains[s0 := Without(chains[s0], k0)])
  {
    var chains' := chains[s0 := Without(chains[s0], k0)];
    forall s, i, j | 0 <= s < |chains'| && 0 <= i < j < |chains'[s]|
      ensures chains'[s][i] != chains'[s][j]
    {
      if s == s0 {
        var i' := if i < k0 then i else i + 1;
        var j' := if j < k0 then j else j + 1;
        assert chains'[s][i] == chains[s0][i'] && chains'[s][j] == chains[s0][j'];
      }
    }
  }

  lemma RemoveAfterMembersSub(recs: Records, heads: seq<Offset>, cap: nat, chains: Chains, s0: nat, k0: nat)
    requires ChainsOk(recs, heads, cap, chains)
    requires s0 < cap && k0 < |chains[s0]|
    ensures forall x :: x in Members(chains[s0 := Without(chains[s0], k0)]) ==>
              x in Members(chains) && x != chains[s0][k0]
  {
    var chains' := chains[s0 := Without(chains[s0], k0)];
    forall x | x in Members(chains')
      ensures x in Members(chains) && x != chains[s0][k0]
    {
      var s, k :| 0 <= s < |chains'| && 0 <= k < |chains'[s]| && chains'[s][k] == x;
      if s == s0 {
        var k' := if k < k0 then k else k + 1;
        assert chains[s0][k'] == x;
        InMembers(chains, s0, k');
        PositionsDiffer(recs, heads, cap, chains, s0, k', s0, k0);
      } else {
        InMembers(chains, s, k);
        PositionsDiffer(recs, heads, cap, chains, s, k, s0, k0);
      }
    }
  }

  lemma RemoveAfterMembersSup(chains: Chains, s0: nat, k0: nat)
    requires s0 < |chains| && k0 < |chains[s0]|
    ensures forall x :: x in Members(chains) && x != chains[s0][k0] ==>
              x in Members(chains[s0 := Without(chains[s0], k0)])
  {
    var chains' := chains[s0 := Without(chains[s0], k0)];
    forall x | x in Members(chains) && x != chains[s0][k0]
      ensures x in Members(chains')
    {
      var s, k :| 0 <= s < |chains| && 0 <= k < |chains[s]| && chains[s][k] == x;
      if s == s0 {
        var k' := if k < k0 then k else k - 1;
        assert chains'[s0][k'] == x;
        InMembers(chains', s0, k');
      } else {
        InMembers(chains', s, k);
      }
    }
  }

  lemma RemoveAfterMembers(recs: Records, heads: seq<Offset>, cap: nat, chains: Chains, s0: nat, k0: nat)
    requires ChainsOk(recs, heads, cap, chains)
    requires s0 < cap && k0 < |chains[s0]|
    ensures Members(chains[s0 := Without(chains[s0], k0)]) == Members(chains) - {chains[s0][k0]}
  {
    RemoveAfterMembersSub(recs, heads, cap, chains, s0, k0);
    RemoveAfterMembersSup(chains, s0, k0);
  }

  /** eraseIteratorHelper's unlink of a non-head record at position k0 of slot
      s0: its predecessor's link is redirected to the record's successor. */
  lemma RemoveAfter(recs: Records, heads: seq<Offset>, cap: nat, chains: Chains, s0: nat, k0: nat)
    requires ChainsOk(recs, heads, cap, chains)
    requires s0 < cap && 0 < k0 < |chains[s0]|
    ensures var p := chains[s0][k0 - 1];
            var recs' := recs[p := recs[p].(next := recs[chains[s0][k0]].next)];
            ChainsOk(recs', heads, cap, chains[s0 := Without(chains[s0], k0)])
    ensures Members(chains[s0 := Without(chains[s0], k0)]) == Members(chains) - {chains[s0][k0]}
  {
    RemoveAfterLinks(recs, heads, cap, chains, s0, k0);
    RemoveAfterNoRepeats(chains, s0, k0);
    RemoveAfterMembers(recs, heads, cap, chains, s0, k0);
  }

  /** Two segment states that differ at most in the chain links. */
  ghost predicate SameData(a: Records, b: Records)
  {
    && a.Keys == b.Keys
    && forall x :: x in a ==> a[x].hkey == b[x].hkey && a[x].key == b[x].key && a[x].value == b[x].value
  }

  /** The slots of a capacity cap that the records xs belong to. */
  ghost function SlotsOf(recs: Records, xs: set<Offset>, cap: nat): set<nat>
    requires cap > 0
  {
    set x | x in xs && x in recs :: recs[x].hkey % cap
  }

  lemma InSlotsOf(recs: Records, xs: set<Offset>, cap: nat, x: Offset)
    requires cap > 0 && x in xs && x in recs
    ensures recs[x].hkey % cap in SlotsOf(recs, xs, cap)
  {
  }

  /** Relinking records leaves the slots they belong to as they were. */
  lemma SlotsOfSameData(a: Records, b: Records, xs: set<Offset>, cap: nat)
    requires cap > 0 && SameData(a, b)
    ensures SlotsOf(a, xs, cap) == SlotsOf(b, xs, cap)
  {
    forall t | t in SlotsOf(a, xs, cap)
      ensures t in SlotsOf(b, xs, cap)
    {
      var x :| x in xs && x in a && a[x].hkey % cap == t;
      InSlotsOf(b, xs, cap, x);
    }
    forall t | t in SlotsOf(b, xs, cap)
      ensures t in SlotsOf(a, xs, cap)
    {
      var x :| x in xs && x in b && b[x].hkey % cap == t;
      InSlotsOf(a, xs, cap, x);
    }
  }

  /** The key values along a chain (0 for an offset that holds no record). */
  function KeysOf(recs: Records, c: seq<Offset>): (hs: seq<U32>)
    ensures |hs| == |c|
  {
    seq(|c|, i requires 0 <= i < |c| => if c[i] in recs then recs[c[i]].hkey else 0)
  }

  /** The key values of every slot's chain. */
  function SlotKeys(recs: Records, chains: Chains): (ks: seq<seq<U32>>)
    ensures |ks| == |chains|
    ensures forall s :: 0 <= s < |chains| ==> ks[s] == KeysOf(recs, chains[s])
  {
    seq(|chains|, s requires 0 <= s < |chains| => KeysOf(recs, chains[s]))
  }

  /** The first record of chain c whose contents satisfy matches, or null. */
  function FirstMatch(recs: Records, c: seq<Offset>, matches: Elem -> bool): Offset
  {
    if c == [] then Null
    else if c[0] in recs && matches(recs[c[0]]) then c[0]
    else FirstMatch(recs, c[1..], matches)
  }

  /** A lookup finds something exactly when some record of the chain matches,
      and what it finds is the first matching position. */
  lemma {:induction false} FirstMatchSpec(recs: Records, c: seq<Offset>, matches: Elem -> bool)
    requires forall i :: 0 <= i < |c| ==> c[i] != Null && c[i] in recs
    ensures var r := FirstMatch(recs, c, matches);
            && (r != Null <==> exists i :: 0 <= i < |c| && matches(recs[c[i]]))
            && (r != Null ==> exists i :: 0 <= i < |c| && c[i] == r && matches(recs[r]) &&
                                forall j :: 0 <= j < i ==> !matches(recs[c[j]]))
  {
    if c != [] {
      FirstMatchSpec(recs, c[1..], matches);
      var r := FirstMatch(recs, c, matches);
      if !matches(recs[c[0]]) {
        if exists i :: 0 <= i < |c| && matches(recs[c[i]]) {
          var i :| 0 <= i < |c| && matches(recs[c[i]]);
          assert c[1..][i - 1] == c[i];
        }
        if r != Null {
          var i :| 0 <= i < |c[1..]| && c[1..][i] == r && matches(recs[r]) &&
                   forall j :: 0 <= j < i ==> !matches(recs[c[1..][j]]);
          assert c[i + 1] == r;
          forall j | 0 <= j < i + 1
            ensures !matches(recs[c[j]])
          {
            if j > 0 {
              assert c[j] == c[1..][j - 1];
            }
          }
        }
      } else {
        assert c[0] == r;
      }
    }
  }
}
