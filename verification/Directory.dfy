/**
  An entry of the hash directory, src/pager.c:166-246: two inline slots and a linked
  chain of further ones, of which removed mappings leave holes that inserts reuse. It
  is a finite map from page ids to headers.
*/
module Directory {
  import opened Cells

  /** A slot; page 0 marks a hole, which keeps its stale header. */
  datatype Mapping = Mapping(page: PageId, header: nat)

  // ------------------------------------------------------ the slots as a map

  predicate Unique(slots: seq<Mapping>) {
    forall i, j :: 0 <= i < j < |slots| && slots[i].page == slots[j].page ==> slots[i].page == 0
  }

  predicate HoldsAt(slots: seq<Mapping>, i: int, id: PageId) {
    0 <= i < |slots| && slots[i].page == id
  }

  ghost predicate Contains(slots: seq<Mapping>, id: PageId) {
    exists i :: HoldsAt(slots, i, id)
  }

  /** The first slot with the id, or the number of slots. With id 0, the first hole. */
  function First(slots: seq<Mapping>, id: PageId): (i: nat)
    ensures i <= |slots| && (i < |slots| ==> slots[i].page == id)
    ensures forall j :: 0 <= j < i ==> slots[j].page != id
  {
    if slots == [] || slots[0].page == id then 0 else 1 + First(slots[1..], id)
  }

  lemma FirstIs(slots: seq<Mapping>, id: PageId, i: nat)
    requires i <= |slots| && (i < |slots| ==> slots[i].page == id)
    requires forall j :: 0 <= j < i ==> slots[j].page != id
    ensures First(slots, id) == i && (Contains(slots, id) <==> i < |slots|)
  {
    assert i < |slots| ==> HoldsAt(slots, i, id);
  }

  /** What `pager_directory_insert` makes of the slots: it fills the first hole, or
      adds a slot. */
  function Placed(slots: seq<Mapping>, m: Mapping): seq<Mapping> {
    if First(slots, 0) < |slots| then slots[First(slots, 0) := m] else slots + [m]
  }

  /** What `pager_directory_remove` makes of them. */
  function Cleared(slots: seq<Mapping>, id: PageId): seq<Mapping> {
    var i := First(slots, id);
    if i < |slots| then slots[i := slots[i].(page := 0)] else slots
  }

  /** The slots hold exactly the bindings of m. */
  ghost predicate Stands(slots: seq<Mapping>, m: map<PageId, nat>) {
    && Unique(slots) && 0 !in m
    && (forall i :: 0 <= i < |slots| && slots[i].page != 0 ==>
                      slots[i].page in m && m[slots[i].page] == slots[i].header)
    && (forall id :: id in m ==> Contains(slots, id))
  }

  lemma LookupStands(slots: seq<Mapping>, m: map<PageId, nat>, id: PageId)
    requires Stands(slots, m) && id != 0
    ensures First(slots, id) < |slots| <==> id in m
    ensures id in m ==> slots[First(slots, id)].header == m[id]
  {
    if id in m {
      var i :| HoldsAt(slots, i, id);
    }
  }

  lemma PlacedStands(slots: seq<Mapping>, m: map<PageId, nat>, id: PageId, header: nat)
    requires Stands(slots, m) && id != 0 && id !in m
    ensures Stands(Placed(slots, Mapping(id, header)), m[id := header])
  {
    hide First;
    var k := First(slots, 0);
    var slots' := Placed(slots, Mapping(id, header));
    assert HoldsAt(slots', k, id);
    forall p | p in m ensures Contains(slots', p) {
      var i :| HoldsAt(slots, i, p);
      assert HoldsAt(slots', i, p);
    }
  }

  lemma ClearedStands(slots: seq<Mapping>, m: map<PageId, nat>, id: PageId)
    requires Stands(slots, m) && id != 0
    ensures Stands(Cleared(slots, id), m - {id})
  {
    var slots' := Cleared(slots, id);
    LookupStands(slots, m, id);
    forall p | p in m && p != id ensures Contains(slots', p) {
      var i :| HoldsAt(slots, i, p);
      assert HoldsAt(slots', i, p);
    }
  }

  /** The mapping goes where the first hole was, and no other slot changes. */
  ghost predicate FillsFirstHole(before: seq<Mapping>, after: seq<Mapping>, m: Mapping) {
    exists k: nat :: HoldsAt(before, k, 0) && after == before[k := m]
                     && forall j :: 0 <= j < k ==> before[j].page != 0
  }

  lemma PlacedFills(slots: seq<Mapping>, m: Mapping)
    ensures if Contains(slots, 0) then FillsFirstHole(slots, Placed(slots, m), m) else Placed(slots, m) == slots + [m]
  {
    assert First(slots, 0) < |slots| ==> HoldsAt(slots, First(slots, 0), 0);
  }

  /** The slots with the id are holes now, which keep their headers, and no other slot
      changes. */
  predicate MakesHole(before: seq<Mapping>, after: seq<Mapping>, id: PageId) {
    && |after| == |before|
    && forall i :: 0 <= i < |before| ==>
         after[i] == if before[i].page == id then Mapping(0, before[i].header) else before[i]
  }

  lemma ClearedMakes(slots: seq<Mapping>, m: map<PageId, nat>, id: PageId)
    requires Stands(slots, m) && id != 0
    ensures MakesHole(slots, Cleared(slots, id), id)
  {
  }

  /** Filling the first hole, which may be a slot that was added for it. */
  lemma FilledIsPlaced(before: seq<Mapping>, slots: seq<Mapping>, grown: bool, k: nat, m: Mapping)
    requires slots == if grown then before + [Mapping(0, 0)] else before
    requires grown ==> First(before, 0) == |before|
    requires k < |slots| && First(slots, 0) == k
    ensures slots[k := m] == Placed(before, m)
    ensures !grown ==> Contains(before, 0)
  {
    if !grown {
      assert HoldsAt(before, k, 0);
    }
  }

  lemma EitherPart<T>(before: seq<T>, s: seq<T>, k: nat)
    requires before <= s && k < |s|
    ensures s[k] in before || s[k] in s[|before|..]
  {
    if k < |before| {
      assert s[k] == before[k];
    } else {
      assert s[k] == s[|before|..][k - |before|];
    }
  }

  // ------------------------------------------------------------- the entry

  class Bucket {
    var value: Mapping
    var next: Bucket?

    /** Fresh memory is zeroed. */
    constructor ()
      ensures value == Mapping(0, 0) && next == null
    {
      value, next := Mapping(0, 0), null;
    }
  }

  class HashEntry {
    var first: Mapping
    var second: Mapping
    var overflow: Bucket?

    /** The buckets of the chain, the slots in the order of a search, and the map. */
    ghost var chain: seq<Bucket>
    ghost var slots: seq<Mapping>
    ghost var contents: map<PageId, nat>

    /** The chain has an end, hence no cycle. */
    ghost predicate Linked()
      reads `overflow, `chain, chain
    {
      && overflow == At(0)
      && (forall i :: 0 <= i < |chain| ==> chain[i].next == At(i + 1))
      && (forall i, j :: 0 <= i < j < |chain| ==> chain[i] != chain[j])
    }

    ghost function At(i: nat): Bucket?
      reads `chain
    {
      if i < |chain| then chain[i] else null
    }

    ghost predicate SlotsAre()
      reads `first, `second, `slots, `chain, chain
    {
      && |slots| == 2 + |chain| && slots[0] == first && slots[1] == second
      && forall i :: 0 <= i < |chain| ==> slots[2 + i] == chain[i].value
    }

    ghost predicate Valid()
      reads this, chain
    {
      Linked() && SlotsAre() && Stands(slots, contents)
    }

    /** As `pager_open` zeroes it. */
    constructor ()
      ensures Valid() && contents == map[] && chain == []
    {
      first, second, overflow := Mapping(0, 0), Mapping(0, 0), null;
      chain, slots, contents := [], [Mapping(0, 0), Mapping(0, 0)], map[];
    }

    /** `entry_directory_lookup`. */
    method Lookup(id: PageId) returns (found: bool, header: nat)
      requires Valid() && id != 0
      ensures found <==> id in contents
      ensures found ==> header == contents[id]
    {
      hide Stands, Contains, First, Linked;
      LookupStands(slots, contents, id);
      header := 0;
      if first.page == id {
        FirstIs(slots, id, 0);
        return true, first.header;
      }
      if second.page == id {
        FirstIs(slots, id, 1);
        return true, second.header;
      }
      found, header := LookupInChain(id);
    }

    /** Lines 178-185. */
    method LookupInChain(id: PageId) returns (found: bool, header: nat)
      requires Linked() && SlotsAre() && |slots| == 2 + |chain| && slots[0].page != id && slots[1].page != id
      ensures found <==> First(slots, id) < |slots|
      ensures found ==> header == slots[First(slots, id)].header
    {
      hide Linked, SlotsAre, Contains;
      header := 0;
      var bucket := overflow;
      ghost var k := 0;
      Ends();
      while bucket != null
        invariant k <= |chain| && (bucket != null <==> k < |chain|) && (bucket != null ==> bucket == chain[k])
        invariant forall j :: 0 <= j < 2 + k ==> slots[j].page != id
        decreases |chain| - k
      {
        NodeAt(k);
        if bucket.value.page == id {
          FirstIs(slots, id, 2 + k);
          return true, bucket.value.header;
        }
        bucket := bucket.next;
        k := k + 1;
      }
      FirstIs(slots, id, |slots|);
      found := false;
    }

    /** `pager_directory_insert`, for an id that is not there. `memory` says whether an
        allocation succeeds. Without a hole or memory nothing changes; a hole is filled
        before the chain grows, and the chain never loses a bucket. */
    method Insert(id: PageId, header: nat, memory: bool) returns (ok: bool)
      requires Valid() && id != 0 && id !in contents
      modifies this, chain
      ensures Valid() && (ok <==> memory || Contains(old(slots), 0))
      ensures contents == if ok then old(contents)[id := header] else old(contents)
      ensures slots == if ok then Placed(old(slots), Mapping(id, header)) else old(slots)
      ensures old(chain) <= chain && |chain| <= |old(chain)| + 1 && fresh(chain[|old(chain)|..])
      ensures ok && Contains(old(slots), 0) ==> FillsFirstHole(old(slots), slots, Mapping(id, header))
      ensures ok && !Contains(old(slots), 0) ==> slots == old(slots) + [Mapping(id, header)]
    {
      var m := Mapping(id, header);
      PlacedFills(slots, m);
      PlacedStands(slots, contents, id, header);
      if first.page == 0 {
        FirstIs(slots, 0, 0);
        first, slots, contents := m, slots[0 := m], contents[id := header];
        return true;
      }
      if second.page == 0 {
        FirstIs(slots, 0, 1);
        second, slots, contents := m, slots[1 := m], contents[id := header];
        return true;
      }
      ok := InsertInChain(m, memory);
    }

    /** Lines 204-223: `grown` says that the chain has got its new bucket, which is
        empty and filled in the next turn. */
    method InsertInChain(m: Mapping, memory: bool) returns (ok: bool)
      requires Valid() && slots[0].page != 0 && slots[1].page != 0
      requires Stands(Placed(slots, m), contents[m.page := m.header]) && m.page != 0
      modifies this, chain
      ensures Valid() && (ok <==> memory || Contains(old(slots), 0))
      ensures contents == if ok then old(contents)[m.page := m.header] else old(contents)
      ensures slots == if ok then Placed(old(slots), m) else old(slots)
      ensures old(chain) <= chain && |chain| <= |old(chain)| + 1 && fresh(chain[|old(chain)|..])
    {
      hide Linked, SlotsAre, Stands, Contains, First, Placed;
      ghost var grown, placed, after := false, Placed(slots, m), contents[m.page := m.header];
      Ends();
      if overflow == null {
        FirstIs(slots, 0, |slots|);
        if !memory {
          return false;
        }
        Start();
        grown := true;
      }
      var bucket := overflow;
      ghost var k := 0;
      Ends();
      while true
        invariant Linked() && SlotsAre() && k < |chain| && bucket == chain[k] && contents == old(contents)
        invariant |slots| == 2 + |chain|
        invariant old(chain) <= chain && fresh(chain[|old(chain)|..])
        invariant if grown then slots == old(slots) + [Mapping(0, 0)] && memory && First(old(slots), 0) == |old(slots)|
                  else slots == old(slots) && chain == old(chain)
        invariant forall j :: 0 <= j < 2 + k ==> slots[j].page != 0
        decreases |chain| - k, !grown
      {
        NodeAt(k);
        if bucket.value.page == 0 {
          FirstIs(slots, 0, 2 + k);
          FilledIsPlaced(old(slots), slots, grown, 2 + k, m);
          EitherPart(old(chain), chain, k);
          Fill(bucket, k, m);
          contents := after;
          assert slots == placed;
          return true;
        }
        if bucket.next == null {
          FirstIs(slots, 0, |slots|);
          if !memory {
            return false;
          }
          Grow(bucket);
          grown := true;
        }
        bucket := bucket.next;
        k := k + 1;
      }
    }

    /** The chain is empty exactly if the entry has no bucket. */
    lemma Ends()
      requires Linked() && SlotsAre()
      ensures |slots| == 2 + |chain| && (overflow == null <==> chain == []) && (chain != [] ==> overflow == chain[0])
    {
    }

    lemma NodeAt(k: nat)
      requires Linked() && SlotsAre() && k < |chain|
      ensures |slots| == 2 + |chain| && slots[2 + k] == chain[k].value
      ensures chain[k].next == null <==> k == |chain| - 1
      ensures k < |chain| - 1 ==> chain[k].next == chain[k + 1]
    {
    }

    method Fill(bucket: Bucket, ghost k: nat, m: Mapping)
      requires Linked() && SlotsAre() && k < |chain| && bucket == chain[k] && |slots| == 2 + |chain|
      modifies bucket`value, `slots
      ensures Linked() && SlotsAre() && slots == old(slots)[2 + k := m]
    {
      bucket.value := m;
      slots := slots[2 + k := m];
    }

    /** The first bucket. */
    method Start()
      requires Linked() && SlotsAre() && overflow == null
      modifies `overflow, `chain, `slots
      ensures Linked() && SlotsAre() && fresh(overflow) && overflow != null
      ensures chain == [overflow] && slots == old(slots) + [Mapping(0, 0)]
    {
      overflow := new Bucket();
      chain, slots := [overflow], slots + [Mapping(0, 0)];
    }

    /** One more bucket after the last one. */
    method Grow(last: Bucket)
      requires Linked() && SlotsAre() && chain != [] && last == chain[|chain| - 1]
      modifies last`next, `chain, `slots
      ensures Linked() && SlotsAre() && last.next != null && fresh(last.next)
      ensures chain == old(chain) + [last.next] && slots == old(slots) + [Mapping(0, 0)]
    {
      var more := new Bucket();
      last.next := more;
      chain, slots := chain + [more], slots + [Mapping(0, 0)];
    }

    /** `pager_directory_remove`: the mapping becomes a hole, no bucket is freed. */
    method Remove(id: PageId)
      requires Valid() && id != 0
      modifies this, chain
      ensures Valid() && contents == old(contents) - {id} && chain == old(chain)
      ensures slots == Cleared(old(slots), id) && MakesHole(old(slots), slots, id)
    {
      hide Linked, Stands, First, MakesHole;
      ClearedStands(slots, contents, id);
      ClearedMakes(slots, contents, id);
      contents := contents - {id};
      if first.page == id {
        FirstIs(slots, id, 0);
        first := first.(page := 0);
        slots := slots[0 := first];
        return;
      }
      if second.page == id {
        FirstIs(slots, id, 1);
        second := second.(page := 0);
        slots := slots[1 := second];
        return;
      }
      RemoveFromChain(id);
    }

    /** Lines 239-245. */
    method RemoveFromChain(id: PageId)
      requires Linked() && SlotsAre() && |slots| == 2 + |chain| && slots[0].page != id && slots[1].page != id
      modifies `slots, chain
      ensures Linked() && SlotsAre() && slots == Cleared(old(slots), id)
    {
      hide Linked, SlotsAre, Contains;
      var bucket := overflow;
      ghost var k := 0;
      Ends();
      while bucket != null
        invariant Linked() && SlotsAre() && k <= |chain| && (bucket != null <==> k < |chain|)
        invariant bucket != null ==> bucket == chain[k]
        invariant slots == old(slots)
        invariant forall j :: 0 <= j < 2 + k ==> slots[j].page != id
        decreases |chain| - k
      {
        NodeAt(k);
        if bucket.value.page == id {
          FirstIs(slots, id, 2 + k);
          Fill(bucket, k, bucket.value.(page := 0));
          return;
        }
        bucket := bucket.next;
        k := k + 1;
      }
      FirstIs(slots, id, |slots|);
    }
  }
}
