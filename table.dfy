/** LsShmHash: a chained hash table whose slot index, occupancy bitmap and
    element records live in a shared segment and refer to each other by offset. */
module ShmHashTable {
  import opened ShmTypes
  import opened PrimeLadder
  import opened HashChains
  import opened ChainOrder
  import opened HashStats
  import opened TableState

  /** The LRU variants a table can be created with. */
  datatype LruMode = LruNone | LruMode1 | LruMode2 | LruMode3

  /** The LRU bookkeeping block of the header (LsHashLruInfo). */
  datatype LruInfo = LruInfo(linkFirst: Offset, linkLast: Offset, nValSet: nat, nDataSet: nat)

  /** Key modes: numeric keys (no hash function) and generic keys. */
  const NumericMode: int := 0
  const GenericMode: int := 1

  /** The generic-mode match of find2: same key value, same key length and a
      zero answer from the comparator over the key bytes. */
  function Matches2(key: U32, k: seq<Byte>, vc: (seq<Byte>, seq<Byte>) -> int): Elem -> bool
  {
    (e: Elem) => e.hkey == key && |e.key| == |k| && vc(k, e.key) == 0
  }

  /** The key word stored at the front of a numeric-mode record's key bytes,
      read little-endian; None when fewer than four bytes are stored. */
  function StoredWord(key: seq<Byte>): Option<U32>
  {
    if |key| < 4 then None
    else Some(key[0] as int + 0x100 * key[1] as int + 0x1_0000 * key[2] as int + 0x100_0000 * key[3] as int)
  }

  /** The numeric-mode match of findNum: the key value and the stored key word
      both equal the key. */
  function MatchesNum(key: U32): Elem -> bool
  {
    (e: Elem) => e.hkey == key && StoredWord(e.key) == Some(key)
  }

  /** One entry of statIdx's sample table: a key value and how often it
      repeated. */
  datatype StatKey = StatKey(key: U32, numDup: nat)

  /** The key values of the first entries of a sample table. */
  function SampleKeys(t: seq<StatKey>): (ks: seq<U32>)
    ensures |ks| == |t|
  {
    seq(|t|, i requires 0 <= i < |t| => t[i].key)
  }

  /** The sample-table lookup of statIdx: a key value found among the first
      numKey entries has its repeat count raised; one not found is added while
      the table has room. found tells which. */
  method Sample(keyTable: array<StatKey>, numKey: nat, h: U32) returns (found: bool, numKey': nat)
    requires numKey <= keyTable.Length == NumSample
    modifies keyTable
    ensures numKey' <= NumSample
    ensures found <==> h in old(SampleKeys(keyTable[..numKey]))
    ensures SampleKeys(keyTable[..numKey']) ==
              if found || numKey >= NumSample then old(SampleKeys(keyTable[..numKey]))
              else old(SampleKeys(keyTable[..numKey])) + [h]
  {
    ghost var table := SampleKeys(keyTable[..numKey]);
    var i := 0;
    while i < numKey
      invariant 0 <= i <= numKey
      invariant SampleKeys(keyTable[..numKey]) == table
      invariant forall j :: 0 <= j < i ==> table[j] != h
    {
      if keyTable[i].key == h {
        assert table[i] == h;
        keyTable[i] := keyTable[i].(numDup := keyTable[i].numDup + 1);
        assert SampleKeys(keyTable[..numKey]) == table;
        return true, numKey;
      }
      i := i + 1;
    }
    found := false;
    numKey' := numKey;
    if i < NumSample {
      keyTable[i] := StatKey(h, 0);
      numKey' := numKey + 1;
      assert SampleKeys(keyTable[..numKey']) == table + [h];
    }
  }

  class ShmHash {
    // The process-local handle.
    var magic: int
    var mode: int
    var lruMode: LruMode
    var lockEnabled: bool
    var refCount: int
    var ready: bool
    var tableOffset: Offset

    // The header in the segment (LsShmHTable).
    var tableMagic: int
    var tableMode: int
    var tableLruMode: LruMode
    var size: nat
    var capacity: nat
    var fullFactor: int
    var growFactor: int
    var index: array<Offset>
    var bitmap: array<bool>
    var newCapacity: nat
    var newIndex: array<Offset>
    var workCursor: Offset
    var lru: LruInfo

    // The segment: element records by offset, and the record blocks the
    // allocator has handed out.
    var records: Records
    var inUse: set<Offset>

    /** The chain behind each slot of index, and of newIndex while growing. */
    ghost var chains: Chains
    ghost var newChains: Chains

    /** No rehash in progress: the header's two index offsets agree. */
    ghost predicate Stable()
      reads this
    {
      index == newIndex
    }

    /** The live records: those on a chain of either generation, and the one
        an interrupted move holds in the work cursor. */
    ghost function Live(): set<Offset>
      reads this, index, newIndex, bitmap
    {
      LiveOf(Snapshot())
    }

    /** The index state as a value. */
    ghost function Snapshot(): Snap
      reads this, index, newIndex, bitmap
    {
      Snap(records, index[..], capacity, chains, newIndex[..], newCapacity, newChains,
           bitmap[..], workCursor, index != newIndex)
    }

    /** The table invariant. It holds after each single store a rehash move
        makes, so a crash inside a move leaves a state it covers; the stores
        that publish a fresh generation and those that install it are each
        taken as one step. */
    ghost predicate Valid()
      reads this, index, newIndex, bitmap
    {
      && Coherent()
      && fullFactor > 0 && growFactor > 0
      && Live() <= inUse
    }

    /** The index invariant, with the header's size counting the live records. */
    ghost predicate Coherent()
      reads this, index, newIndex, bitmap
    {
      Inv(Snapshot()) && size == LiveCount(Snapshot())
    }

    /** The iteration order of the current index. */
    ghost function Order(): seq<Offset>
      reads this
    {
      Walk(chains, 0)
    }

    /** The slot scan of begin and next: the first non-zero head at or after
        slot p0, which is the first record of the walk from p0. */
    method ScanFrom(p0: nat) returns (r: Offset)
      requires ChainsOk(records, index[..], capacity, chains)
      requires p0 <= capacity
      ensures r == First(Walk(chains, p0))
    {
      var p := p0;
      while p < index.Length
        invariant p0 <= p <= index.Length
        invariant Walk(chains, p) == Walk(chains, p0)
      {
        assert Walk(chains, p) == chains[p] + Walk(chains, p + 1);
        assert index[p] == Head(chains[p]);
        if index[p] != Null {
          return index[p];
        }
        p := p + 1;
      }
      return Null;
    }

    /** begin: the end cursor 0 for an empty table, else the first non-zero
        slot head, which is the first record of the iteration order. */
    method Begin() returns (r: Offset)
      requires Coherent()
      ensures r == First(Order())
    {
      if size == 0 {
        WalkIsMembers(records, index[..], capacity, chains);
        assert Members(chains) <= Live();
        return Null;
      }
      r := ScanFrom(0);
    }

    /** next: what follows cursor o in the iteration order, or 0 at the end. */
    method Next(o: Offset) returns (r: Offset)
      requires ChainsOk(records, index[..], capacity, chains)
      requires o == Null || o in Members(chains)
      ensures o == Null ==> r == Null
      ensures o != Null ==> r == Succ(Order(), o)
    {
      if o == Null {
        return Null;
      }
      var e := records[o];
      ghost var s, k := MemberPosition(records, index[..], capacity, chains, o);
      Successor(records, index[..], capacity, chains, s, k);
      if e.next != Null {
        return e.next;
      }
      r := ScanFrom(SlotOf(e.hkey, capacity) + 1);
    }

    /** The chain walk shared by find2 and findNum: bitmap quick check, then the
        first record of slot key % capacity that matches. */
    method Search(key: U32, matches: Elem -> bool) returns (r: Offset)
      requires Valid() && Stable()
      ensures r == FirstMatch(records, chains[key % capacity], matches)
    {
      var slot := SlotOf(key, capacity);
      if !bitmap[slot] {
        return Null;
      }
      r := index[slot];
      ghost var c := chains[slot];
      ghost var j := 0;
      while r != Null
        invariant 0 <= j <= |c|
        invariant r == (if j < |c| then c[j] else Null)
        invariant FirstMatch(records, c[j..], matches) == FirstMatch(records, c, matches)
        decreases |c| - j
      {
        var e := records[r];
        if matches(e) {
          return;
        }
        assert c[j..][1..] == c[j + 1..];
        r := e.next;
        j := j + 1;
      }
    }

    /** Lookups through Search answer exactly for the live records: 0 when no
        live record matches, else a live matching record that comes first in
        its slot's chain. */
    lemma SearchSpec(key: U32, matches: Elem -> bool)
      requires Valid() && Stable()
      requires forall e :: matches(e) ==> e.hkey == key
      ensures var r := FirstMatch(records, chains[key % capacity], matches);
              && (r == Null <==> forall x :: x in Live() ==> !matches(records[x]))
              && (r != Null ==> r in Live() && matches(records[r]))
    {
      var c := chains[key % capacity];
      FirstMatchSpec(records, c, matches);
      var r := FirstMatch(records, c, matches);
      if r != Null {
        var i :| 0 <= i < |c| && c[i] == r && matches(records[r]);
        InMembers(chains, key % capacity, i);
      }
      forall x | x in Live() && matches(records[x])
        ensures r != Null
      {
        var s, k := MemberPosition(records, index[..], capacity, chains, x);
      }
    }

    /** find2: the first record of the key's slot with the same key value, the
        same key length and a zero comparator answer; 0 when there is none. */
    method Find2(key: U32, k: seq<Byte>, vc: (seq<Byte>, seq<Byte>) -> int) returns (r: Offset)
      requires Valid() && Stable()
      ensures r == FirstMatch(records, chains[key % capacity], Matches2(key, k, vc))
      ensures r == Null <==> forall x :: x in Live() ==> !Matches2(key, k, vc)(records[x])
      ensures r != Null ==> r in Live() && Matches2(key, k, vc)(records[r])
    {
      r := Search(key, Matches2(key, k, vc));
      SearchSpec(key, Matches2(key, k, vc));
    }

    /** findNum: the key is the pointer value of the key buffer, cut to 32
        bits; a record matches when its key value and its stored key word both
        equal it. */
    method FindNum(keyPtr: nat) returns (r: Offset)
      requires Valid() && Stable()
      ensures r == FirstMatch(records, chains[(keyPtr % Two32) % capacity], MatchesNum(keyPtr % Two32))
      ensures r == Null <==> forall x :: x in Live() ==> !MatchesNum(keyPtr % Two32)(records[x])
      ensures r != Null ==> r in Live() && MatchesNum(keyPtr % Two32)(records[r])
    {
      var key: U32 := keyPtr % Two32;
      r := Search(key, MatchesNum(key));
      SearchSpec(key, MatchesNum(key));
    }
  
    /** The first two stores of a move: the bit of the record's new slot, then
        the work cursor, which names the head o of an old slot. */
    method Claim(o: Offset)
      requires Valid() && !Stable()
      requires o in Members(chains)
      requires index[records[o].hkey % capacity] == o
      requires workCursor == Null || workCursor in Members(newChains)
      modifies this`workCursor, bitmap
      ensures Valid() && !Stable()
      ensures Snapshot() == Claimed(old(Snapshot()), o)
      ensures Live() == old(Live())
    {
      ghost var t := Snapshot();
      ClaimKeeps(t, o);
      SameCount(t, Claimed(t, o));
      bitmap[SlotOf(records[o].hkey, newCapacity)] := true;
      workCursor := o;
      assert Snapshot() == Claimed(t, o);
    }

    /** The third store of a move: the old slot the cursor record heads now
        starts at the record's successor. */
    method UnlinkFromOld()
      requires Valid() && !Stable()
      requires workCursor != Null && workCursor in records
      requires index[records[workCursor].hkey % capacity] == workCursor
      modifies this`chains, index
      ensures Valid() && !Stable()
      ensures old(chains[records[workCursor].hkey % capacity]) != []
      ensures Snapshot() == Unlinked(old(Snapshot()))
      ensures Live() == old(Live())
      ensures workCursor !in Members(chains) && workCursor !in Members(newChains)
    {
      ghost var t := Snapshot();
      UnlinkKeeps(t);
      SameCount(t, Unlinked(t));
      StoreUnlinked();
    }

    /** The stores of UnlinkFromOld. */
    method StoreUnlinked()
      requires !Stable() && workCursor in records && capacity > 0 && index.Length == |chains| == capacity
      requires chains[records[workCursor].hkey % capacity] != []
      modifies this`chains, index
      ensures Snapshot() == Unlinked(old(Snapshot()))
    {
      ghost var t := Snapshot();
      var c := workCursor;
      var so := SlotOf(records[c].hkey, capacity);
      index[so] := records[c].next;
      chains := chains[so := chains[so][1..]];
      assert Snapshot() == Unlinked(t);
    }

    /** The last two stores of a move: the cursor record links to the head of
        its new slot and becomes that head. */
    method LinkIntoNew()
      requires Valid() && !Stable()
      requires workCursor != Null && workCursor !in Members(chains) && workCursor !in Members(newChains)
      modifies this`records, this`newChains, newIndex
      ensures Valid() && !Stable()
      ensures old(workCursor) in old(records)
      ensures Snapshot() == Linked(old(Snapshot()))
      ensures Live() == old(Live())
      ensures workCursor in Members(newChains) && SameData(old(records), records)
    {
      ghost var t := Snapshot();
      LinkKeeps(t);
      SameCount(t, Linked(t));
      StoreLinked();
    }

    /** The stores of LinkIntoNew. */
    method StoreLinked()
      requires workCursor in records && newCapacity > 0 && newIndex.Length == |newChains| == newCapacity
      requires !Stable()
      modifies this`records, this`newChains, newIndex
      ensures Snapshot() == Linked(old(Snapshot()))
    {
      ghost var t := Snapshot();
      var c := workCursor;
      var sn := SlotOf(records[c].hkey, newCapacity);
      records := records[c := records[c].(next := newIndex[sn])];
      newIndex[sn] := c;
      newChains := newChains[sn := [c] + newChains[sn]];
      assert Snapshot() == Linked(t);
    }

    /** The end of the sweep: the cursor is cleared, then the new generation
        becomes the table's index and its size the capacity. */
    method EndSweep()
      requires Valid() && !Stable()
      requires workCursor == Null || workCursor in Members(newChains)
      requires Order() == []
      modifies this`workCursor, this`capacity, this`index, this`chains
      ensures Valid() && Stable()
      ensures Snapshot() == Ended(old(Snapshot()))
      ensures Live() == old(Live())
      ensures index == old(newIndex)
    {
      ghost var t := Snapshot();
      EmptyWalk(records, index[..], capacity, chains);
      EndKeeps(t);
      SameCount(t, Ended(t));
      StoreEnded();
    }

    /** The stores of EndSweep. */
    method StoreEnded()
      modifies this`workCursor, this`capacity, this`index, this`chains
      ensures Snapshot() == Ended(old(Snapshot()))
    {
      ghost var t := Snapshot();
      workCursor := Null;
      capacity := newCapacity;
      index := newIndex;
      chains := newChains;
      assert Snapshot() == Ended(t);
    }

    /** The resume step: the record an interrupted move left in the work
        cursor is finished - taken off its old slot if it still heads it, and
        linked in front of its new slot - unless it already heads its new slot,
        in which case nothing changes. */
    method FinishMove()
      requires Valid() && !Stable()
      modifies this`chains, this`records, this`newChains, index, newIndex
      ensures Valid() && !Stable()
      ensures Snapshot() == Resumed(old(Snapshot()))
      ensures Live() == old(Live())
      ensures workCursor == Null || workCursor in Members(newChains)
      ensures SameData(old(records), records)
    {
      ghost var t := Snapshot();
      ResumeCases(t);
      var c := workCursor;
      if c == Null {
        return;
      }
      var sn := SlotOf(records[c].hkey, newCapacity);
      if newIndex[sn] != c {
        var so := SlotOf(records[c].hkey, capacity);
        if index[so] == c {
          UnlinkFromOld();
        }
        LinkIntoNew();
      }
    }

    /** The fresh-start branch of rehash: the bitmap and slot index of the new
        generation are allocated zeroed and published in the header. */
    method StartRehash(n: nat)
      requires Valid() && Stable()
      requires OnLadder(n) && capacity < n
      modifies this`bitmap, this`newCapacity, this`newIndex, this`newChains
      ensures Valid() && !Stable()
      ensures Snapshot() == Fresh(old(Snapshot()), n)
      ensures Live() == old(Live())
      ensures fresh(bitmap) && fresh(newIndex)
    {
      ghost var t := Snapshot();
      FreshKeeps(t, n);
      SameCount(t, Fresh(t, n));
      StoreFresh(n);
    }

    /** The stores of StartRehash. */
    method StoreFresh(n: nat)
      requires Stable()
      modifies this`bitmap, this`newCapacity, this`newIndex, this`newChains
      ensures Snapshot() == Fresh(old(Snapshot()), n)
      ensures fresh(bitmap) && fresh(newIndex)
    {
      ghost var t := Snapshot();
      var nb := new bool[n](_ => false);
      var ni := new Offset[n](_ => Null);
      bitmap := nb;
      newCapacity := n;
      newIndex := ni;
      newChains := seq(n, _ => []);
      assert Snapshot() == Fresh(t, n);
    }

    /** One move of the sweep: the first record of the iteration order, the
        head of its old slot, is claimed, unhooked from the old index and
        linked in front of its new slot. */
    method MoveHead(it: Offset)
      requires Sound() && !Stable()
      requires it != Null && it == First(Order())
      requires workCursor == Null || workCursor in Members(newChains)
      modifies this`workCursor, this`chains, this`records, this`newChains, bitmap, index, newIndex
      ensures Sound() && !Stable()
      ensures Order() == old(Order())[1..]
      ensures workCursor in Members(newChains)
      ensures Live() == old(Live()) && SameData(old(records), records)
    {
      UnfoldValid();
      FirstIsMember(records, index[..], capacity, chains);
      ghost var s0 := PopFirst(chains, 0);
      assert records[chains[s0][0]].hkey % capacity == s0;
      Claim(it);
      UnlinkFromOld();
      LinkIntoNew();
      FoldValid();
    }

    /** next on the first record of the iteration order. */
    method NextOfFirst(it: Offset) returns (nx: Offset)
      requires Sound()
      requires it != Null && it == First(Order())
      ensures nx == First(Order()[1..])
    {
      UnfoldValid();
      FirstIsMember(records, index[..], capacity, chains);
      nx := Next(it);
      SuccHead(Order());
    }

    /** The sweep loop of rehash: next is taken before each move, and the
        moves run until the old index is empty. */
    method Sweep()
      requires Valid() && !Stable()
      requires workCursor == Null || workCursor in Members(newChains)
      modifies this`workCursor, this`chains, this`records, this`newChains, bitmap, index, newIndex
      ensures Valid() && !Stable()
      ensures Order() == []
      ensures workCursor == Null || workCursor in Members(newChains)
      ensures Live() == old(Live()) && SameData(old(records), records)
    {
      var it := Begin();
      FoldValid();
      while it != Null
        invariant Sound() && !Stable()
        invariant it == First(Order())
        invariant workCursor == Null || workCursor in Members(newChains)
        invariant Live() == old(Live()) && SameData(old(records), records)
        decreases |Order()|
      {
        var nx := NextOfFirst(it);
        MoveHead(it);
        it := nx;
      }
      UnfoldValid();
      FirstNull(records, index[..], capacity, chains);
    }

    /** Valid in folded form, for the same purpose as Walkable: assert
        Use(true) unfolds it, see UnfoldValid. */
    ghost predicate Sound()
      reads this, index, newIndex, bitmap
    {
      forall b: bool {:trigger Use(b)} :: Use(b) ==> Valid()
    }

    lemma FoldValid()
      requires Valid()
      ensures Sound()
    {
    }

    lemma UnfoldValid()
      requires Sound()
      ensures Valid()
    {
      assert Use(true);
    }

    /** The second half of rehash: the sweep, then the switch to the new
        index. */
    method Complete()
      requires Valid() && !Stable()
      requires workCursor == Null || workCursor in Members(newChains)
      modifies this`workCursor, this`chains, this`records, this`newChains, this`capacity, this`index,
               bitmap, index, newIndex
      ensures Valid() && Stable() && workCursor == Null
      ensures Live() == old(Live()) && SameData(old(records), records)
      ensures capacity == old(newCapacity) && index == old(newIndex) && bitmap == old(bitmap)
    {
      Sweep();
      EndSweep();
    }

    /** The first half of rehash, once the allocation of a fresh generation
        is known to succeed: with no rehash in progress, allocate the new
        generation growFactor primes up the ladder; with one in progress,
        finish the move its work cursor names. */
    method Prepare()
      requires Valid()
      requires Stable() ==> LadderIndex(capacity) + growFactor < PrimeCount
      modifies this`records, this`chains, this`newChains, this`bitmap, this`newCapacity, this`newIndex, index, newIndex
      ensures Valid() && !Stable() && Live() == old(Live()) && SameData(old(records), records)
      ensures workCursor == Null || workCursor in Members(newChains)
      ensures old(Stable()) ==> newCapacity == GrowTarget(old(capacity), growFactor)
      ensures old(Stable()) ==> fresh(newIndex) && fresh(bitmap) && old(capacity) < newCapacity
      ensures !old(Stable()) ==> newIndex == old(newIndex) && bitmap == old(bitmap)
    {
      if index == newIndex {
        LadderBounded(capacity);
        var i := FindRange(capacity);
        GrowTargetGrows(capacity, growFactor);
        StartRehash(Primes[i + growFactor]);
      } else {
        FinishMove();
      }
    }

    /** rehash: LS_FAIL when a fresh generation would be needed and its
        blocks cannot be allocated; otherwise prepare the new generation, move
        every record of the old index, in iteration order, to the head of its
        new slot, and install the new index with its capacity. */
    method Rehash(allocOk: bool) returns (r: int)
      requires Valid()
      requires Stable() ==> LadderIndex(capacity) + growFactor < PrimeCount
      modifies this`workCursor, this`chains, this`records, this`newChains, this`capacity, this`index,
               this`bitmap, this`newCapacity, this`newIndex, index, newIndex, bitmap
      ensures r == Fail || r == 0
      ensures r == Fail <==> old(Stable()) && !allocOk
      ensures r == Fail ==> unchanged(this) && unchanged(index) && unchanged(bitmap)
      ensures Valid() && Live() == old(Live()) && SameData(old(records), records)
      ensures r == 0 ==> Stable() && workCursor == Null
      ensures r == 0 ==> old(capacity) < capacity
      ensures r == 0 ==> if old(Stable()) then capacity == GrowTarget(old(capacity), growFactor)
                                               && fresh(index) && fresh(bitmap)
                         else capacity == old(newCapacity) && index == old(newIndex) && bitmap == old(bitmap)
    {
      assert !Stable() ==> capacity < newCapacity;
      if index == newIndex && !allocOk {
        return Fail;
      }
      Prepare();
      Complete();
      r := 0;
    }

    /** In a stable table every live record is on the chain of its slot
        hkey % capacity, so after a completed rehash each record sits in the
        slot its key value picks under the new capacity. */
    lemma StableSlots()
      requires Valid() && Stable()
      ensures forall x :: x in Live() ==> x in chains[records[x].hkey % capacity]
    {
      forall x | x in Live()
        ensures x in chains[records[x].hkey % capacity]
      {
        var s, k := MemberPosition(records, index[..], capacity, chains, x);
      }
    }

    /** insert2: the record block off comes from the allocator (0 when it has
        none); a table whose size times fullFactor exceeds its capacity is
        rehashed first, and gives up - keeping the block - when that fails with
        the table exactly full; otherwise the record goes in front of its slot,
        whose bit is set, and the size grows by one. */
    method Insert2(key: U32, k: seq<Byte>, v: seq<Byte>, off: Offset, rehashAllocOk: bool) returns (r: Offset)
      requires Valid() && Stable()
      requires off != Null ==> off !in inUse
      requires size * fullFactor > capacity ==> LadderIndex(capacity) + growFactor < PrimeCount
      modifies this`records, this`chains, this`newChains, this`inUse, this`size, this`workCursor,
               this`capacity, this`index, this`bitmap, this`newCapacity, this`newIndex, index, newIndex, bitmap
      ensures Valid() && Stable()
      ensures off == Null ==> r == Null && unchanged(this)
      ensures off != Null ==> inUse == old(inUse) + {off}
      ensures r == Null <==> off == Null || (old(size * fullFactor > capacity) && !rehashAllocOk && old(size) == old(capacity))
      ensures r != Null ==> r == off && Live() == old(Live()) + {off} && size == old(size) + 1
      ensures r != Null ==> records[off].hkey == key && records[off].key == k && records[off].value == v
      ensures r != Null ==> chains[key % capacity] != [] && chains[key % capacity][0] == off && bitmap[key % capacity]
      ensures r == Null && off != Null ==> Live() == old(Live()) && off !in Live()
      ensures r != Null && !(old(size * fullFactor > capacity) && rehashAllocOk) ==>
                var s := old(key % capacity);
                && records == old(records)[off := Elem(key, k, v, Head(old(chains[s])))]
                && chains == old(chains)[s := [off] + old(chains[s])]
                && bitmap[..] == old(bitmap[..])[s := true]
      ensures off != Null ==> capacity == if old(size * fullFactor > capacity) && rehashAllocOk
                                         then GrowTarget(old(capacity), old(growFactor)) else old(capacity)
      ensures SameData(old(records) - {off}, records - {off})
    {
      if off == Null {
        return Null;
      }
      inUse := inUse + {off};
      r := Place(key, k, v, off, rehashAllocOk);
    }

    /** insert2 once its record block is allocated: make room, then link the
        record in front of its slot; 0 when there is no room. */
    method Place(key: U32, k: seq<Byte>, v: seq<Byte>, off: Offset, allocOk: bool) returns (r: Offset)
      requires Valid() && Stable()
      requires off != Null && off in inUse && off !in Live()
      requires size * fullFactor > capacity ==> LadderIndex(capacity) + growFactor < PrimeCount
      modifies this`records, this`chains, this`newChains, this`size, this`workCursor,
               this`capacity, this`index, this`bitmap, this`newCapacity, this`newIndex, index, newIndex, bitmap
      ensures Valid() && Stable()
      ensures r == Null <==> old(size * fullFactor > capacity) && !allocOk && old(size) == old(capacity)
      ensures r != Null ==> r == off && Live() == old(Live()) + {off} && size == old(size) + 1
      ensures r != Null ==> records[off].hkey == key && records[off].key == k && records[off].value == v
      ensures r != Null ==> chains[key % capacity] != [] && chains[key % capacity][0] == off && bitmap[key % capacity]
      ensures r == Null ==> Live() == old(Live())
      ensures r != Null && !(old(size * fullFactor > capacity) && allocOk) ==>
                var s := old(key % capacity);
                && records == old(records)[off := Elem(key, k, v, Head(old(chains[s])))]
                && chains == old(chains)[s := [off] + old(chains[s])]
                && bitmap[..] == old(bitmap[..])[s := true]
      ensures capacity == if old(size * fullFactor > capacity) && allocOk
                          then GrowTarget(old(capacity), growFactor) else old(capacity)
      ensures SameData(old(records) - {off}, records - {off})
    {
      ghost var grows := size * fullFactor > capacity && allocOk;
      ghost var s, c0, i0, b0 := key % capacity, chains, index[..], bitmap[..];
      var room := MakeRoom(allocOk);
      if !room {
        return Null;
      }
      assert !grows ==> s == key % capacity && chains == c0 && index[..] == i0 && bitmap[..] == b0;
      assert index[key % capacity] == Head(chains[key % capacity]);
      Link(key, k, v, off);
      r := off;
    }

    /** The growth check of insert2: when size times fullFactor exceeds the
        capacity the table is rehashed; the answer is false only when that
        rehash fails with the table exactly full. */
    method MakeRoom(allocOk: bool) returns (ok: bool)
      requires Valid() && Stable()
      requires size * fullFactor > capacity ==> LadderIndex(capacity) + growFactor < PrimeCount
      modifies this`workCursor, this`chains, this`records, this`newChains, this`capacity, this`index,
               this`bitmap, this`newCapacity, this`newIndex, index, newIndex, bitmap
      ensures Valid() && Stable()
      ensures !ok <==> old(size * fullFactor > capacity) && !allocOk && size == capacity
      ensures Live() == old(Live()) && SameData(old(records), records)
      ensures capacity == if old(size * fullFactor > capacity) && allocOk then GrowTarget(old(capacity), growFactor) else old(capacity)
      ensures !(old(size * fullFactor > capacity) && allocOk) ==> unchanged(this) && unchanged(index) && unchanged(bitmap)
      ensures index == old(index) || fresh(index)
      ensures bitmap == old(bitmap) || fresh(bitmap)
    {
      ok := true;
      if size * fullFactor > capacity {
        var rr := Rehash(allocOk);
        if rr < 0 && size == capacity {
          ok := false;
        }
      }
    }

    /** The stores at the end of insert2: the new record links to the head of
        its slot and becomes that head, the slot's bit is set and the size
        grows by one. */
    method Link(key: U32, k: seq<Byte>, v: seq<Byte>, off: Offset)
      requires Valid() && Stable()
      requires off != Null && off in inUse && off !in Live()
      modifies this`records, this`chains, this`size, index, bitmap
      ensures Valid() && Stable()
      ensures Live() == old(Live()) + {off} && size == old(size) + 1
      ensures records == old(records)[off := Elem(key, k, v, old(index[key % capacity]))]
      ensures chains == old(chains)[key % capacity := [off] + old(chains[key % capacity])]
      ensures bitmap[..] == old(bitmap[..])[key % capacity := true]
      ensures records[off].hkey == key && records[off].key == k && records[off].value == v
      ensures chains[key % capacity] != [] && chains[key % capacity][0] == off && bitmap[key % capacity]
      ensures SameData(old(records) - {off}, records - {off})
    {
      ghost var t := Snapshot();
      var slot := SlotOf(key, capacity);
      var e := Elem(key, k, v, index[slot]);
      InsertKeeps(t, off, e);
      StoreInserted(off, e);
    }

    /** The stores of insert2 that link record e in at off. */
    method StoreInserted(off: Offset, e: Elem)
      requires Stable() && capacity > 0 && index.Length == |chains| == bitmap.Length == capacity
      modifies this`records, this`chains, this`size, index, bitmap
      ensures Snapshot() == Inserted(old(Snapshot()), off, e) && size == old(size) + 1
    {
      ghost var t := Snapshot();
      var slot := SlotOf(e.hkey, capacity);
      records := records[off := e];
      index[slot] := off;
      chains := chains[slot := [off] + chains[slot]];
      bitmap[slot] := true;
      size := size + 1;
      assert Snapshot() == Inserted(t, off, e);
    }

    /** eraseIteratorHelper: a null record is ignored; otherwise the record is
        unhooked from its slot - the slot moves to its successor, clearing the
        slot's bit when there is none, or its predecessor, found by walking the
        chain, links past it - its block is released and the size drops by
        one. k0 is the record's position in its chain. */
    method Erase(o: Offset) returns (ghost k0: nat)
      requires Valid() && Stable()
      requires o == Null || o in Live()
      modifies this`records, this`chains, this`inUse, this`size, index, bitmap
      ensures Valid() && Stable()
      ensures o == Null ==> unchanged(this) && unchanged(index) && unchanged(bitmap)
      ensures o != Null ==> Live() == old(Live()) - {o} && size == old(size) - 1 && inUse == old(inUse) - {o}
      ensures o != Null ==> var s := old(records[o].hkey) % capacity;
                            && old(k0 < |chains[s]| && chains[s][k0] == o)
                            && chains == old(chains)[s := Without(old(chains[s]), k0)]
                            && bitmap[..] == old(bitmap[..])[s := chains[s] != []]
      ensures SameData(old(records), records)
    {
      if o == Null {
        return 0;
      }
      k0 := Unhook(o);
      inUse := inUse - {o};
      size := size - 1;
    }

    /** The unhooking stores of eraseIteratorHelper, which leave the size one
        above the live count until it is decremented. */
    method Unhook(o: Offset) returns (ghost k: nat)
      requires Valid() && Stable()
      requires o in Live()
      modifies this`records, this`chains, index, bitmap
      ensures Inv(Snapshot()) && Stable() && LiveCount(Snapshot()) + 1 == size
      ensures Live() == old(Live()) - {o}
      ensures var s := old(records[o].hkey) % capacity;
              && old(k < |chains[s]| && chains[s][k] == o)
              && chains == old(chains)[s := Without(old(chains[s]), k)]
              && bitmap[..] == old(bitmap[..])[s := chains[s] != []]
      ensures SameData(old(records), records)
    {
      var slot := SlotOf(records[o].hkey, capacity);
      ghost var s;
      s, k := MemberPosition(records, index[..], capacity, chains, o);
      if index[slot] == o {
        assert k == 0;
        UnhookHead(slot);
      } else {
        UnhookAfter(o, slot, k);
      }
    }

    /** The record heading slot s is taken off: the slot starts at its
        successor, and its bit is cleared when there is none. */
    method UnhookHead(s: nat)
      requires Valid() && Stable()
      requires s < capacity && chains[s] != []
      modifies this`chains, index, bitmap
      ensures Inv(Snapshot()) && Stable() && LiveCount(Snapshot()) + 1 == size
      ensures Snapshot() == ErasedHead(old(Snapshot()), s)
      ensures Live() == old(Live()) - {old(chains[s][0])}
      ensures chains == old(chains)[s := Without(old(chains[s]), 0)]
    {
      ghost var t := Snapshot();
      EraseHeadKeeps(t, s);
      assert Without(chains[s], 0) == chains[s][1..];
      StoreErasedHead(s);
    }

    /** The record at position k > 0 of slot s is taken off: the chain is
        walked from the head to its predecessor, which then links past it. */
    method UnhookAfter(o: Offset, s: nat, ghost k: nat)
      requires Valid() && Stable()
      requires s < capacity && 0 < k < |chains[s]| && chains[s][k] == o
      modifies this`records, this`chains
      ensures Inv(Snapshot()) && Stable() && LiveCount(Snapshot()) + 1 == size
      ensures Snapshot() == ErasedAfter(old(Snapshot()), s, k)
      ensures Live() == old(Live()) - {o}
      ensures chains == old(chains)[s := Without(old(chains[s]), k)]
    {
      ghost var t := Snapshot();
      EraseAfterKeeps(t, s, k);
      ghost var c := chains[s];
      var p := index[s];
      ghost var j := 0;
      while records[p].next != o
        invariant 0 <= j < k && p == c[j]
        decreases k - j
      {
        p := records[p].next;
        j := j + 1;
      }
      records := records[p := records[p].(next := records[o].next)];
      chains := chains[s := Without(chains[s], k)];
      assert Snapshot() == ErasedAfter(t, s, k);
    }

    /** The stores of UnhookHead. */
    method StoreErasedHead(s: nat)
      requires Stable() && s < index.Length == |chains| == bitmap.Length
      requires chains[s] != [] && index[s] == chains[s][0] && chains[s][0] in records
      modifies this`chains, index, bitmap
      ensures Snapshot() == ErasedHead(old(Snapshot()), s)
    {
      ghost var t := Snapshot();
      var nx := records[index[s]].next;
      index[s] := nx;
      if nx == Null {
        bitmap[s] := false;
      }
      chains := chains[s := chains[s][1..]];
      assert Snapshot() == ErasedHead(t, s);
    }

    /** for_each: LS_FAIL without a callback; otherwise the records from beg
        on, in iteration order, each handed to the callback after its
        successor has been read, until the end marker, the end of the table or
        the first non-zero answer; the answer is the number of records whose
        callback answered 0. */
    method ForEach(beg: Offset, end: Offset, fun: Option<Offset -> int>) returns (n: int)
      requires ChainsOk(records, index[..], capacity, chains)
      requires beg == Null || beg in Members(chains)
      ensures fun.None? ==> n == Fail
      ensures fun.Some? ==> n == Visited(From(Order(), beg), end, fun.value)
    {
      if fun.None? {
        return Fail;
      }
      ghost var w := StartAt(beg);
      n := VisitFrom(beg, end, fun.value, w);
    }

    /** The suffix of the iteration order that for_each walks from beg, with
        the index folded for the walk. */
    lemma StartAt(beg: Offset) returns (w: seq<Offset>)
      requires ChainsOk(records, index[..], capacity, chains)
      requires beg == Null || beg in Members(chains)
      ensures Walkable()
      ensures w == From(Walk(chains, 0), beg) && |w| <= |Walk(chains, 0)| && w == Walk(chains, 0)[|Walk(chains, 0)| - |w|..]
      ensures beg == if w == [] then Null else w[0]
      ensures forall j :: 0 <= j < |w| ==> w[j] != Null
    {
      w := Along(records, index[..], capacity, chains, beg);
    }

    /** The loop of for_each over the suffix w of the iteration order that
        starts at beg. */
    method VisitFrom(beg: Offset, end: Offset, f: Offset -> int, ghost w: seq<Offset>) returns (n: nat)
      requires Walkable()
      requires |w| <= |Walk(chains, 0)| && w == Walk(chains, 0)[|Walk(chains, 0)| - |w|..]
      requires beg == if w == [] then Null else w[0]
      requires forall j :: 0 <= j < |w| ==> w[j] != Null
      ensures n == Visited(w, end, f)
    {
      n := 0;
      var iterNext := beg;
      while iterNext != Null && iterNext != end
        invariant n <= |w|
        invariant iterNext == if n < |w| then w[n] else Null
        invariant Visited(w, end, f) == n + Visited(w[n..], end, f)
        decreases |w| - n
      {
        var iterOff := iterNext;
        iterNext := StepAlong(iterNext, w, n);
        if f(iterOff) != 0 {
          VisitedNone(w, end, f, n);
          return;
        }
        VisitedStep(w, end, f, n);
        n := n + 1;
      }
      VisitedNone(w, end, f, n);
    }

    /** ChainsOk of the current index in folded form: its conjuncts reach the
        solver only where a proof mentions Use(true) (assert Use(true) unfolds
        it, see Unfold), which keeps the loops that walk the table cheap to
        check. */
    ghost predicate Walkable()
      reads this, index
    {
      forall b: bool {:trigger Use(b)} :: Use(b) ==> ChainsOk(records, index[..], capacity, chains)
    }

    lemma Fold()
      requires ChainsOk(records, index[..], capacity, chains)
      ensures Walkable()
      ensures forall j :: 0 <= j < |Order()| ==> Order()[j] != Null
    {
      WalkNoNull(records, index[..], capacity, chains);
    }

    lemma Unfold()
      requires Walkable()
      ensures ChainsOk(records, index[..], capacity, chains)
    {
      assert Use(true);
    }

    /** next on the n-th record of a suffix w of the iteration order. */
    method StepAlong(it: Offset, ghost w: seq<Offset>, ghost n: nat) returns (nx: Offset)
      requires Walkable()
      requires |w| <= |Walk(chains, 0)| && w == Walk(chains, 0)[|Walk(chains, 0)| - |w|..]
      requires n < |w| && it == w[n]
      ensures nx == if n + 1 < |w| then w[n + 1] else Null
    {
      Unfold();
      ghost var W := Walk(chains, 0);
      WalkDistinct(records, index[..], capacity, chains);
      SuffixAt(W, w, n);
      WalkMember(records, index[..], capacity, chains, |W| - |w| + n);
      SuccAlong(W, w, n);
      nx := Next(it);
    }

    /** for_each2: for_each with a user-data argument handed to every callback. */
    method ForEach2<D>(beg: Offset, end: Offset, fun: Option<(Offset, D) -> int>, udata: D) returns (n: int)
      requires ChainsOk(records, index[..], capacity, chains)
      requires beg == Null || beg in Members(chains)
      ensures fun.None? ==> n == Fail
      ensures fun.Some? ==> n == Visited(From(Order(), beg), end, (o: Offset) => fun.value(o, udata))
    {
      if fun.None? {
        return Fail;
      }
      var f := fun.value;
      n := ForEach(beg, end, Some((o: Offset) => f(o, udata)));
    }

    /** init: the handle attaches to the header at offset and fails unless
        the header's magic, key mode and LRU mode are the handle's; on success
        the LRU modes 2 and 3 turn the table lock off, the reference count
        becomes 1 and the handle is ready. */
    method Init(offset: Offset) returns (r: int)
      modifies this`tableOffset, this`lockEnabled, this`refCount, this`ready
      ensures tableOffset == offset
      ensures r == Fail || r == 0
      ensures r == Fail <==> magic != tableMagic || mode != tableMode || lruMode != tableLruMode
      ensures r == Fail ==> lockEnabled == old(lockEnabled) && refCount == old(refCount) && ready == old(ready)
      ensures r == 0 ==> refCount == 1 && ready
      ensures r == 0 ==> lockEnabled == (old(lockEnabled) && lruMode != LruMode2 && lruMode != LruMode3)
    {
      tableOffset := offset;
      if magic != tableMagic || mode != tableMode || lruMode != tableLruMode {
        return Fail;
      }
      if lruMode == LruMode2 || lruMode == LruMode3 {
        lockEnabled := false;
      }
      refCount := 1;
      ready := true;
      r := 0;
    }

    /** setFullFactor: only a positive factor is stored. */
    method SetFullFactor(f: int)
      modifies this`fullFactor
      ensures fullFactor == if f > 0 then f else old(fullFactor)
      ensures old(Valid()) ==> Valid()
    {
      if f > 0 {
        fullFactor := f;
      }
    }

    /** setGrowFactor: only a positive factor is stored. */
    method SetGrowFactor(f: int)
      modifies this`growFactor
      ensures growFactor == if f > 0 then f else old(growFactor)
      ensures old(Valid()) ==> Valid()
    {
      if f > 0 {
        growFactor := f;
      }
    }

    /** The for_each2 walk of clear with release_hash_elem as its callback:
        every record, in iteration order, has its block released after its
        successor is read; the count is the length of the order. */
    method ReleaseAll(beg: Offset) returns (n: nat)
      requires Walkable() && Stable()
      requires beg == First(Order()) && forall j :: 0 <= j < |Order()| ==> Order()[j] != Null
      modifies this`inUse
      ensures inUse == old(inUse) - old(Live())
      ensures n == |Order()|
    {
      ghost var W := Order();
      assert W[|W| - |W|..] == W;
      n := 0;
      var it := beg;
      while it != Null
        invariant 0 <= n <= |W|
        invariant it == if n < |W| then W[n] else Null
        invariant inUse == old(inUse) - Elems(W[..n])
        decreases |W| - n
      {
        var nx := StepAlong(it, W, n);
        inUse := inUse - {it};
        PrefixElems(W, n);
        n := n + 1;
        it := nx;
      }
      assert W[..n] == W;
      Unfold();
      ElemsWalk(records, index[..], capacity, chains);
    }

    /** The stores of clear after the walk: the bitmap and the slot index are
        zeroed and the size becomes 0, so every chain is empty. */
    method Wipe()
      requires index.Length == capacity && bitmap.Length == capacity
      modifies this`chains, this`size, index, bitmap
      ensures index[..] == seq(capacity, _ => Null) && bitmap[..] == seq(capacity, _ => false)
      ensures chains == seq(capacity, _ => []) && size == 0
    {
      forall i | 0 <= i < bitmap.Length {
        bitmap[i] := false;
      }
      forall i | 0 <= i < index.Length {
        index[i] := Null;
      }
      chains := seq(capacity, _ => []);
      size := 0;
    }

    /** clear: every record block is released, the bitmap and the slot index
        are zeroed, the size becomes 0 and, for an LRU table, the LRU block is
        reset. */
    method Clear()
      requires Valid() && Stable()
      modifies this`inUse, this`chains, this`size, this`lru, index, bitmap
      ensures Valid() && Stable()
      ensures Live() == {} && size == 0 && Order() == []
      ensures inUse == old(inUse) - old(Live())
      ensures index[..] == seq(capacity, _ => Null) && bitmap[..] == seq(capacity, _ => false)
      ensures lru == if lruMode != LruNone then LruInfo(Null, Null, 0, 0) else old(lru)
      ensures records == old(records) && capacity == old(capacity)
    {
      ghost var t := Snapshot();
      ClearKeeps(t);
      var b := Begin();
      Fold();
      var n := ReleaseAll(b);
      assert n == size;
      Wipe();
      if lruMode != LruNone {
        lru := LruInfo(Null, Null, 0, 0);
      }
      assert Snapshot() == Cleared(t);
    }

    /** statIdx: the number of records on the chain that starts at iterOff
        (the head of slot s), and stat's duplicate count raised by the
        records whose key value matches one of the first NumSample distinct key
        values seen on the chain. */
    method StatIdx(iterOff: Offset, st: HashStat, ghost s: nat) returns (numInIdx: nat, r: HashStat)
      requires ChainsOk(records, index[..], capacity, chains)
      requires s < capacity && iterOff == index[s]
      ensures numInIdx == |chains[s]|
      ensures r == st.(numDup := st.numDup + DupScan(KeysOf(records, chains[s]), []))
    {
      var keyTable := new StatKey[NumSample](_ => StatKey(0, 0));
      var numKey := 0;
      var curDup := 0;
      ghost var c := chains[s];
      ghost var hs := KeysOf(records, c);
      numInIdx := 0;
      var it := iterOff;
      while it != Null
        invariant 0 <= numInIdx <= |c|
        invariant it == if numInIdx < |c| then c[numInIdx] else Null
        invariant 0 <= numKey <= NumSample
        invariant DupScan(hs, []) == curDup + DupScan(hs[numInIdx..], SampleKeys(keyTable[..numKey]))
        decreases |c| - numInIdx
      {
        var e := records[it];
        DupScanStep(hs, numInIdx, SampleKeys(keyTable[..numKey]));
        var found;
        found, numKey := Sample(keyTable, numKey, e.hkey);
        if found {
          curDup := curDup + 1;
        }
        numInIdx := numInIdx + 1;
        it := e.next;
      }
      assert hs[numInIdx..] == [];
      r := st.(numDup := st.numDup + curDup);
    }

    /** stat: LS_FAIL without a statistics block; otherwise every slot is
        counted, every non-empty one is scanned by statIdx, and its length goes
        into num, maxLink and the histogram; the answer is num. */
    method Stat(present: bool) returns (r: int, st: HashStat)
      requires Valid() && Stable()
      ensures !present ==> r == Fail
      ensures present ==> st == Tally(SlotKeys(records, chains)) && r == st.num
    {
      st := Zero();
      if !present {
        return Fail, st;
      }
      ghost var ks := SlotKeys(records, chains);
      var p := 0;
      while p < index.Length
        invariant 0 <= p <= index.Length
        invariant st == Tally(ks[..p])
      {
        TallyStep(ks, p);
        st := StatSlot(p, st);
        p := p + 1;
      }
      assert ks[..p] == ks;
      r := st.num;
    }

    /** One slot of stat's scan: it is counted and, when its head is not null,
        scanned by statIdx, with the chain's length going into num, maxLink and
        its histogram bucket. */
    method StatSlot(p: nat, st: HashStat) returns (r: HashStat)
      requires ChainsOk(records, index[..], capacity, chains)
      requires p < capacity && |st.top| == TopCount
      ensures r == AddSlot(st, KeysOf(records, chains[p]))
    {
      assert index[p] == Head(chains[p]);
      r := st.(numIdx := st.numIdx + 1);
      if index[p] != Null {
        r := r.(numIdxOccupied := r.numIdxOccupied + 1);
        var num;
        num, r := StatIdx(index[p], r, p);
        if num != 0 {
          r := r.(num := r.num + num);
          if num > r.maxLink {
            r := r.(maxLink := num);
          }
          var topidx := Bucket(num);
          r := r.(top := r.top[topidx := r.top[topidx] + 1]);
        }
      }
    }

    /** stat over a stable table counts exactly its size. */
    lemma StatCountsAll()
      requires Coherent() && Stable()
      ensures Tally(SlotKeys(records, chains)).num == size
    {
      TallyCounts(SlotKeys(records, chains));
      TotalLenWalk(records, chains, capacity);
      assert SlotKeys(records, chains)[..capacity] == SlotKeys(records, chains);
    }

    /** for_each from begin() to end() with a callback that always answers 0
        counts every record of the table. */
    lemma ForEachCountsAll(f: Offset -> int)
      requires Coherent() && Stable()
      requires forall o :: f(o) == 0
      ensures Visited(From(Order(), First(Order())), Null, f) == size
    {
      WalkIsMembers(records, index[..], capacity, chains);
      forall i | 0 <= i < |Order()|
        ensures Order()[i] != Null
      {
        WalkNonNull(records, index[..], capacity, chains, i);
      }
      VisitedAll(Order(), Null, f);
    }
  }

  /** The records of the first p slots together with the walk from slot p
      make up the whole walk. */
  lemma {:induction false} TotalLenWalk(recs: Records, chains: Chains, p: nat)
    requires p <= |chains|
    ensures TotalLen(SlotKeys(recs, chains)[..p]) + |Walk(chains, p)| == |Walk(chains, 0)|
  {
    var ks := SlotKeys(recs, chains);
    if p > 0 {
      assert ks[..p][..p - 1] == ks[..p - 1];
      TotalLenWalk(recs, chains, p - 1);
    } else {
      assert ks[..0] == [];
    }
  }

  /** Every ladder prime fits in 32 bits. */
  lemma LadderBounded(cap: nat)
    requires OnLadder(cap)
    ensures cap <= MaxSize
  {
  }
}
