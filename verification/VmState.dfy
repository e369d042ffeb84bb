/**
 The memory state of the kernel as one value: page pool, page tables, TLB, free envs and
 ASID bitmap, with the invariant that spans them and one lemma for each elementary change.
 */
module VmState {
  import opened Common
  import opened PageTables

  const NENV: nat := 1024
  const NASID: nat := 64

  /** pp_ref is an unsigned 16-bit field. */
  const REF_LIMIT: nat := 0x1_0000

  datatype TlbKey = TlbKey(asid: nat, vpn: nat)
  type Tlb = map<TlbKey, Pte>

  datatype Vm = Vm(npage: nat, reserved: nat, ref: seq<nat>, freeList: seq<nat>, envs: Envs, tlb: Tlb,
                   envFree: seq<nat>, asidUsed: seq<bool>)

  /** Every managed page has an exact count, and free pages are unreferenced. */
  ghost predicate PagesExact(s: Vm) {
    && |s.ref| == s.npage && WellShaped(s.envs)
    && (forall p: nat :: p < s.npage ==> s.ref[p] < REF_LIMIT)
    && Counted(s.envs, s.ref, s.reserved) && Owned(s.envs, s.npage, s.reserved)
    && Distinct(s.freeList)
    && (forall p :: p in s.freeList ==> s.reserved <= p < s.npage && s.ref[p] == 0)
  }

  /** An env is either on the free list or live; live envs have allocated ASIDs of their own. */
  ghost predicate EnvsApart(s: Vm) {
    && |s.asidUsed| == NASID && Distinct(s.envFree)
    && (forall e: nat :: e in s.envFree ==> e < NENV && e !in s.envs)
    && (forall e :: e in s.envs ==> s.envs[e].asid < NASID && s.asidUsed[s.envs[e].asid])
    && (forall e, e' :: e in s.envs && e' in s.envs && e != e' ==> s.envs[e].asid != s.envs[e'].asid)
  }

  /** Env `e` is live, holds the ASID of `k`, and its table maps `k.vpn` to `pte` right now. */
  ghost predicate Backs(envs: Envs, e: nat, k: TlbKey, pte: Pte) {
    && e in envs && envs[e].asid == k.asid
    && DirShape(envs[e].slots) && Walk(envs[e].slots, k.vpn) == Some(pte)
  }

  /** Every TLB entry equals the current table entry of the live env that holds its ASID. */
  ghost predicate Coherent(envs: Envs, tlb: Tlb) {
    forall k :: k in tlb ==> exists e :: Backs(envs, e, k, tlb[k])
  }

  /** The processor may use this entry for an address of ASID `asid`: a global entry matches every ASID. */
  predicate Applies(k: TlbKey, pte: Pte, asid: nat) {
    k.asid == asid || pte.perm & PTE_G != 0
  }

  /** Whatever entry the processor uses for a live env is the one in the page table of that env. */
  ghost predicate Follows(s: Vm)
    requires WellShaped(s.envs)
  {
    forall e, k :: e in s.envs && k in s.tlb && Applies(k, s.tlb[k], s.envs[e].asid) ==>
      Walk(s.envs[e].slots, k.vpn) == Some(s.tlb[k])
  }

  /** Translation follows the page tables iff every cached global entry is in the page table of every live env. */
  lemma FollowsExact(s: Vm)
    requires Inv(s)
    ensures Follows(s) <==>
            forall e, k :: e in s.envs && k in s.tlb && s.tlb[k].perm & PTE_G != 0 ==>
              Walk(s.envs[e].slots, k.vpn) == Some(s.tlb[k])
  {
    forall e, k | e in s.envs && k in s.tlb && s.envs[e].asid == k.asid
      ensures Walk(s.envs[e].slots, k.vpn) == Some(s.tlb[k])
    {
      var y :| Backs(s.envs, y, k, s.tlb[k]);
      assert y == e;
    }
  }

  /** No page is mapped with PTE_G. */
  ghost predicate NoGlobals(envs: Envs)
    requires WellShaped(envs)
  {
    forall e, v: nat :: e in envs && Walk(envs[e].slots, v).Some? ==> Walk(envs[e].slots, v).value.perm & PTE_G == 0
  }

  /** While no env maps a page with PTE_G, translation follows the page tables. */
  lemma TranslationFollowsTables(s: Vm)
    requires Inv(s) && NoGlobals(s.envs)
    ensures Follows(s)
  {
    FollowsExact(s);
    forall k | k in s.tlb ensures s.tlb[k].perm & PTE_G == 0 {
      var y :| Backs(s.envs, y, k, s.tlb[k]);
      assert Walk(s.envs[y].slots, k.vpn).Some?;
    }
  }

  ghost predicate Inv(s: Vm) {
    PagesExact(s) && EnvsApart(s) && Coherent(s.envs, s.tlb)
  }

  /** Pages taken from the free list and not yet mapped anywhere. */
  ghost function Held(s: Vm): (r: set<nat>)
    requires |s.ref| == s.npage
  {
    set p: nat | p < s.npage && s.reserved <= p && s.ref[p] == 0 && p !in s.freeList
  }

  /** A page that may be mapped: managed, off the free list, and not holding a table. */
  ghost predicate Mappable(s: Vm, p: nat)
    requires WellShaped(s.envs)
  {
    && s.reserved <= p < s.npage && p !in s.freeList
    && forall t :: Names(s.envs, t, p) ==> t.EntryAt?
  }

  /** The free pages are exactly the unreferenced managed pages that nobody holds. */
  lemma FreeIffUnreferenced(s: Vm, p: nat)
    requires PagesExact(s)
    ensures p in s.freeList <==>
            s.reserved <= p < s.npage && Refs(s.envs, p) == {} && p !in Held(s)
  {
    if s.reserved <= p < s.npage {
      assert s.ref[p] == |Refs(s.envs, p)|;
    }
  }

  /** A managed page whose count is zero is named nowhere. */
  lemma ZeroIsUnnamed(s: Vm, p: nat)
    requires PagesExact(s) && s.reserved <= p < s.npage && s.ref[p] == 0
    ensures Refs(s.envs, p) == {} && forall x :: !Names(s.envs, x, p)
  {
    assert s.ref[p] == |Refs(s.envs, p)|;
    forall x ensures !Names(s.envs, x, p) {
      assert x !in Refs(s.envs, p);
    }
  }

  /** A page named by an entry may be mapped again. */
  lemma NamedIsMappable(s: Vm, e: nat, i: nat, j: nat)
    requires PagesExact(s) && e in s.envs && i < PDX_UTOP && j < ENTRIES && Mapped(s.envs[e].slots, i, j)
    ensures Mappable(s, PteAt(s.envs[e].slots, i, j).page)
  {
    var p := PteAt(s.envs[e].slots, i, j).page;
    assert Names(s.envs, EntryAt(e, i, j), p);
    assert EntryAt(e, i, j) in Refs(s.envs, p);
    assert s.ref[p] == |Refs(s.envs, p)|;
  }

  /** Writing one entry of the table of `e` and dropping its TLB entry keeps coherence. */
  lemma FlushedIsCoherent(s: Vm, e: nat, i: nat, j: nat, x: Option<Pte>)
    requires WellShaped(s.envs) && EnvsApart(s) && Coherent(s.envs, s.tlb)
    requires e in s.envs && i < PDX_UTOP && j < ENTRIES && s.envs[e].slots[i].Some?
    ensures Coherent(SetEntryAt(s.envs, e, i, j, x), Flush(s.tlb, s.envs[e].asid, PageNo(i, j)))
  {
    SetEntryWalks(s.envs[e].slots, i, j, x);
    var envs', tlb' := SetEntryAt(s.envs, e, i, j, x), Flush(s.tlb, s.envs[e].asid, PageNo(i, j));
    forall k | k in tlb' ensures exists y :: Backs(envs', y, k, tlb'[k]) {
      var y :| Backs(s.envs, y, k, s.tlb[k]);
      assert Backs(envs', y, k, tlb'[k]);
    }
  }

  function Flush(tlb: Tlb, asid: nat, v: nat): (r: Tlb) {
    tlb - {TlbKey(asid, v)}
  }

  /** An unmapped page has no TLB entry, so flushing it is idle. */
  lemma UncachedFlush(s: Vm, e: nat, i: nat, j: nat)
    requires WellShaped(s.envs) && EnvsApart(s) && Coherent(s.envs, s.tlb)
    requires e in s.envs && i < PDX_UTOP && j < ENTRIES && !Mapped(s.envs[e].slots, i, j)
    ensures Flush(s.tlb, s.envs[e].asid, PageNo(i, j)) == s.tlb
  {
    var k := TlbKey(s.envs[e].asid, PageNo(i, j));
    assert PageNo(i, j) / 1024 == i && PageNo(i, j) % 1024 == j;
    assert Walk(s.envs[e].slots, k.vpn).None?;
    assert k !in s.tlb;
  }

  /** Changing one directory slot that maps nothing keeps coherence. */
  lemma SlotIsCoherent(envs: Envs, tlb: Tlb, e: nat, i: nat, slot: Option<Table>)
    requires WellShaped(envs) && Coherent(envs, tlb) && e in envs && i < PDX_UTOP
    requires forall j: nat :: j < ENTRIES ==> !Mapped(envs[e].slots, i, j)
    requires slot.Some? ==> slot.value.entries == EmptyTable()
    ensures WellShaped(SetSlot(envs, e, i, slot)) && Coherent(SetSlot(envs, e, i, slot), tlb)
  {
    EmptySlotSpace(envs[e].slots, i, slot);
    var envs' := SetSlot(envs, e, i, slot);
    forall k | k in tlb ensures exists y :: Backs(envs', y, k, tlb[k]) {
      var y :| Backs(envs, y, k, tlb[k]);
      assert Backs(envs', y, k, tlb[k]);
    }
  }

  /** Taking the first page off the free list. */
  lemma TakeKeeps(s: Vm)
    requires Inv(s) && s.freeList != []
    ensures var t := s.(freeList := s.freeList[1..]);
            var p := s.freeList[0];
            && Inv(t) && Held(t) == Held(s) + {p} && p !in Held(s)
            && Mappable(t, p) && Refs(t.envs, p) == {}
  {
    var t := s.(freeList := s.freeList[1..]);
    var p := s.freeList[0];
    assert p in s.freeList && p !in t.freeList;
    assert forall q :: q in s.freeList <==> q == p || q in t.freeList;
    ZeroIsUnnamed(s, p);
  }

  /** The tables change at one site, which now names `q`; the count of `q` follows. */
  lemma AddKeeps(s: Vm, t: Vm, s0: Site, q: nat)
    requires PagesExact(s) && WellShaped(t.envs) && Added(s.envs, t.envs, s0, q)
    requires s.reserved <= q < s.npage && q !in s.freeList
    requires forall x :: Names(s.envs, x, q) ==> x.EntryAt? && s0.EntryAt?
    requires s.ref[q] + 1 < REF_LIMIT
    requires t.npage == s.npage && t.reserved == s.reserved && t.freeList == s.freeList
    requires t.ref == s.ref[q := s.ref[q] + 1]
    ensures PagesExact(t) && Held(t) == Held(s) - {q}
  {
    AddedCounts(s.envs, t.envs, s0, q, s.ref, s.reserved);
    AddedOwned(s.envs, t.envs, s0, q, s.npage, s.reserved);
  }

  /** page_decref: the page is freed when its last reference goes. */
  function Decref(s: Vm, p: nat): (t: Vm)
    requires p < |s.ref| && s.ref[p] > 0
  {
    var left := s.ref[p] - 1;
    s.(ref := s.ref[p := left], freeList := if left == 0 then [p] + s.freeList else s.freeList)
  }

  /** The tables change at one site, which named `q` and names nothing now. */
  lemma RemoveKeeps(s: Vm, envs': Envs, s0: Site, q: nat)
    requires PagesExact(s) && WellShaped(envs') && Added(envs', s.envs, s0, q)
    ensures q < |s.ref| && s.ref[q] > 0
    ensures var t := Decref(s, q).(envs := envs'); PagesExact(t) && Held(t) == Held(s)
  {
    assert Names(s.envs, s0, q);
    RemovedCounts(s.envs, envs', s0, q, s.ref, s.reserved);
    RemovedOwned(s.envs, envs', s0, q, s.npage, s.reserved);
    var t := Decref(s, q).(envs := envs');
    assert q !in s.freeList;
  }

  /** No env but `e` changes, and `e` keeps its directory page and its ASID. */
  ghost predicate OthersKept(envs: Envs, envs': Envs, e: nat) {
    && envs'.Keys == envs.Keys && e in envs
    && envs'[e].pgdir == envs[e].pgdir && envs'[e].asid == envs[e].asid
    && forall x :: x in envs && x != e ==> envs'[x] == envs[x]
  }

  /** Unmapping: drop the reference, clear the entry, flush the TLB entry. */
  ghost function Unmapped(s: Vm, e: nat, i: nat, j: nat): (t: Vm)
    requires PagesExact(s) && e in s.envs && i < PDX_UTOP && j < ENTRIES && Mapped(s.envs[e].slots, i, j)
  {
    var p := PteAt(s.envs[e].slots, i, j).page;
    EntryCleared(s.envs, e, i, j);
    RemoveKeeps(s, SetEntryAt(s.envs, e, i, j, None), EntryAt(e, i, j), p);
    Decref(s, p).(envs := SetEntryAt(s.envs, e, i, j, None),
                  tlb := Flush(s.tlb, s.envs[e].asid, PageNo(i, j)))
  }

  lemma UnmappedKeeps(s: Vm, e: nat, i: nat, j: nat)
    requires Inv(s) && e in s.envs && i < PDX_UTOP && j < ENTRIES && Mapped(s.envs[e].slots, i, j)
    ensures var t := Unmapped(s, e, i, j);
            && Inv(t) && Held(t) == Held(s) && OthersKept(s.envs, t.envs, e)
            && Space(t.envs[e].slots) == Space(s.envs[e].slots) - {PageNo(i, j)}
  {
    SetEntrySpace(s.envs[e].slots, i, j, None);
    EntryCleared(s.envs, e, i, j);
    RemoveKeeps(s, SetEntryAt(s.envs, e, i, j, None), EntryAt(e, i, j), PteAt(s.envs[e].slots, i, j).page);
    FlushedIsCoherent(s, e, i, j, None);
  }

  /** Mapping: fill an invalid entry and count the reference in 16 bits. */
  function Filled(s: Vm, e: nat, i: nat, j: nat, pte: Pte): (t: Vm)
    requires e in s.envs && i < |s.envs[e].slots| && s.envs[e].slots[i].Some?
    requires j < |s.envs[e].slots[i].value.entries| && pte.page < |s.ref|
  {
    s.(envs := SetEntryAt(s.envs, e, i, j, Some(pte)),
       ref := s.ref[pte.page := (s.ref[pte.page] + 1) % REF_LIMIT])
  }

  lemma FilledKeeps(s: Vm, e: nat, i: nat, j: nat, pte: Pte)
    requires Inv(s) && e in s.envs && i < PDX_UTOP && j < ENTRIES
    requires s.envs[e].slots[i].Some? && !Mapped(s.envs[e].slots, i, j)
    requires Mappable(s, pte.page) && s.ref[pte.page] + 1 < REF_LIMIT
    ensures var t := Filled(s, e, i, j, pte); Inv(t) && Held(t) == Held(s) - {pte.page}
  {
    EntryFilled(s.envs, e, i, j, pte);
    AddKeeps(s, Filled(s, e, i, j, pte), EntryAt(e, i, j), pte.page);
    FlushedIsCoherent(s, e, i, j, Some(pte));
    UncachedFlush(s, e, i, j);
  }

  /** The 65536th mapping of a page wraps its 16-bit count to zero, and the counts are no longer exact. */
  lemma FilledWraps(s: Vm, e: nat, i: nat, j: nat, pte: Pte)
    requires PagesExact(s) && e in s.envs && i < PDX_UTOP && j < ENTRIES
    requires s.envs[e].slots[i].Some? && !Mapped(s.envs[e].slots, i, j)
    requires s.reserved <= pte.page < s.npage && s.ref[pte.page] + 1 == REF_LIMIT
    ensures var t := Filled(s, e, i, j, pte); t.ref[pte.page] == 0 && !PagesExact(t)
  {
    var t := Filled(s, e, i, j, pte);
    EntryFilled(s.envs, e, i, j, pte);
    AddedCounts(s.envs, t.envs, EntryAt(e, i, j), pte.page, s.ref, s.reserved);
    assert |Refs(t.envs, pte.page)| == REF_LIMIT;
  }

  /** Mapping the page that is mapped there already: only the permissions change. */
  lemma RepermittedKeeps(s: Vm, e: nat, i: nat, j: nat, pte: Pte)
    requires Inv(s) && e in s.envs && i < PDX_UTOP && j < ENTRIES && Mapped(s.envs[e].slots, i, j)
    requires pte.page == PteAt(s.envs[e].slots, i, j).page
    ensures var t := s.(envs := SetEntryAt(s.envs, e, i, j, Some(pte)),
                        tlb := Flush(s.tlb, s.envs[e].asid, PageNo(i, j)));
            Inv(t) && Held(t) == Held(s)
  {
    var envs' := SetEntryAt(s.envs, e, i, j, Some(pte));
    EntryRepermitted(s.envs, e, i, j, pte);
    SameCounts(s.envs, envs', s.ref, s.reserved);
    assert forall x, p: nat :: Names(envs', x, p) ==> Agree(s.envs, envs', x, p);
    FlushedIsCoherent(s, e, i, j, Some(pte));
  }

  /** pgdir_walk with `create`: a missing table is made of the first free page, if there is one. */
  ghost function Walked(s: Vm, e: nat, i: nat): (t: Vm)
    requires PagesExact(s) && e in s.envs && i < PDX_UTOP
    ensures |t.ref| == |s.ref| && t.npage == s.npage && t.reserved == s.reserved
  {
    if s.envs[e].slots[i].Some? || s.freeList == [] then s
    else
      assert s.freeList[0] in s.freeList;
      s.(envs := SetSlot(s.envs, e, i, Some(Table(s.freeList[0], EmptyTable()))),
            ref := s.ref[s.freeList[0] := 1], freeList := s.freeList[1..])
  }

  /** Creating a table leaves every address space, every held page and every mapped page alone. */
  lemma WalkedKeeps(s: Vm, e: nat, i: nat)
    requires Inv(s) && e in s.envs && i < PDX_UTOP
    ensures var t := Walked(s, e, i);
            && Inv(t) && Held(t) == Held(s) && OthersKept(s.envs, t.envs, e)
            && Space(t.envs[e].slots) == Space(s.envs[e].slots)
            && (forall j: nat :: j < ENTRIES ==> (Mapped(t.envs[e].slots, i, j) <==> Mapped(s.envs[e].slots, i, j)))
            && forall p: nat :: Mappable(s, p) ==> Mappable(t, p) && t.ref[p] == s.ref[p]
  {
    if s.freeList != [] {
      assert s.freeList[0] in s.freeList;
      if s.envs[e].slots[i].None? {
        TakeKeeps(s);
        HungKeeps(s.(freeList := s.freeList[1..]), e, i, s.freeList[0]);
        EmptySlotSpace(s.envs[e].slots, i, Some(Table(s.freeList[0], EmptyTable())));
        WalkedMappable(s, e, i);
      }
    }
  }

  lemma WalkedMappable(s: Vm, e: nat, i: nat)
    requires PagesExact(s) && e in s.envs && i < PDX_UTOP && s.envs[e].slots[i].None?
    requires s.freeList != []
    ensures WellShaped(Walked(s, e, i).envs)
    ensures forall p: nat :: Mappable(s, p) ==> Mappable(Walked(s, e, i), p) && Walked(s, e, i).ref[p] == s.ref[p]
  {
    var t := Walked(s, e, i);
    assert s.freeList[0] in s.freeList;
    TableHung(s.envs, e, i, s.freeList[0]);
    forall p: nat | Mappable(s, p) ensures Mappable(t, p) && t.ref[p] == s.ref[p] {
      forall x | Names(t.envs, x, p) ensures x.EntryAt? {
        assert x == TableAt(e, i) || Agree(s.envs, t.envs, x, p);
      }
      assert forall q :: q in t.freeList ==> q in s.freeList;
    }
  }

  /** A held page becomes an empty table. */
  lemma HungKeeps(s: Vm, e: nat, i: nat, q: nat)
    requires Inv(s) && e in s.envs && i < PDX_UTOP && s.envs[e].slots[i].None? && q in Held(s)
    ensures var t := s.(envs := SetSlot(s.envs, e, i, Some(Table(q, EmptyTable()))), ref := s.ref[q := 1]);
            Inv(t) && Held(t) == Held(s) - {q}
  {
    var t := s.(envs := SetSlot(s.envs, e, i, Some(Table(q, EmptyTable()))), ref := s.ref[q := 1]);
    TableHung(s.envs, e, i, q);
    ZeroIsUnnamed(s, q);
    AddKeeps(s, t, TableAt(e, i), q);
    SlotIsCoherent(s.envs, s.tlb, e, i, Some(Table(q, EmptyTable())));
  }

  /** page_remove: a mapped page is unmapped, an unmapped one left alone. */
  ghost function PageRemoved(s: Vm, e: nat, i: nat, j: nat): (t: Vm)
    requires PagesExact(s) && e in s.envs && i < PDX_UTOP && j < ENTRIES
  {
    if Mapped(s.envs[e].slots, i, j) then Unmapped(s, e, i, j) else s
  }

  /** page_remove deletes one key of one address space and releases what nobody else maps. */
  lemma PageRemovedRefines(s: Vm, e: nat, i: nat, j: nat)
    requires Inv(s) && e in s.envs && i < PDX_UTOP && j < ENTRIES
    ensures var t := PageRemoved(s, e, i, j);
            && Inv(t) && Held(t) == Held(s) && OthersKept(s.envs, t.envs, e)
            && Space(t.envs[e].slots) == Space(s.envs[e].slots) - {PageNo(i, j)}
            && t.tlb == Flush(s.tlb, s.envs[e].asid, PageNo(i, j))
  {
    if Mapped(s.envs[e].slots, i, j) {
      UnmappedKeeps(s, e, i, j);
    } else {
      UncachedFlush(s, e, i, j);
      assert PageNo(i, j) / 1024 == i && PageNo(i, j) % 1024 == j;
      assert Walk(s.envs[e].slots, PageNo(i, j)).None?;
    }
  }

  /** What page_insert leaves behind when the page is not mapped there already: the old mapping removed. */
  ghost function Cleared(s: Vm, e: nat, i: nat, j: nat): (t: Vm)
    requires PagesExact(s) && e in s.envs && i < PDX_UTOP && j < ENTRIES
  {
    var t := PageRemoved(s, e, i, j);
    t.(tlb := Flush(t.tlb, s.envs[e].asid, PageNo(i, j)))
  }

  lemma ClearedKeeps(s: Vm, e: nat, i: nat, j: nat, p: nat)
    requires Inv(s) && e in s.envs && i < PDX_UTOP && j < ENTRIES && Mappable(s, p)
    requires Mapped(s.envs[e].slots, i, j) ==> PteAt(s.envs[e].slots, i, j).page != p
    ensures var t := Cleared(s, e, i, j);
            && Inv(t) && Held(t) == Held(s) && OthersKept(s.envs, t.envs, e)
            && Space(t.envs[e].slots) == Space(s.envs[e].slots) - {PageNo(i, j)}
            && !Mapped(t.envs[e].slots, i, j) && t.envs[e].slots[i].Some? == s.envs[e].slots[i].Some?
            && (!Mapped(s.envs[e].slots, i, j) ==> t == s)
            && Mappable(t, p) && t.ref[p] == s.ref[p]
  {
    var r := PageRemoved(s, e, i, j);
    PageRemovedRefines(s, e, i, j);
    assert !Mapped(r.envs[e].slots, i, j);
    UncachedFlush(r, e, i, j);
    if Mapped(s.envs[e].slots, i, j) {
      EntryCleared(s.envs, e, i, j);
      forall x | Names(r.envs, x, p) ensures x.EntryAt? {
        assert x == EntryAt(e, i, j) || Agree(r.envs, s.envs, x, p);
      }
    }
  }

  /** The second half of page_insert: get or make the table, then fill the entry. */
  ghost function Installed(s: Vm, e: nat, i: nat, j: nat, pte: Pte): (r: (bool, Vm))
    requires Inv(s) && e in s.envs && i < PDX_UTOP && j < ENTRIES && Mappable(s, pte.page)
  {
    WalkedKeeps(s, e, i);
    var w := Walked(s, e, i);
    if w.envs[e].slots[i].None? then (false, w) else (true, Filled(w, e, i, j, pte))
  }

  lemma InstalledRefines(s: Vm, e: nat, i: nat, j: nat, pte: Pte)
    requires Inv(s) && e in s.envs && i < PDX_UTOP && j < ENTRIES && Mappable(s, pte.page)
    requires !Mapped(s.envs[e].slots, i, j)
    ensures var (ok, t) := Installed(s, e, i, j, pte);
            && (!ok <==> s.envs[e].slots[i].None? && s.freeList == [])
            && (!ok ==> t == s)
            && (ok ==> WellShaped(t.envs) && OthersKept(s.envs, t.envs, e)
                       && Space(t.envs[e].slots) == Space(s.envs[e].slots)[PageNo(i, j) := pte]
                       && (Inv(t) <==> s.ref[pte.page] + 1 < REF_LIMIT)
                       && (Inv(t) ==> Held(t) == Held(s) - {pte.page}))
  {
    WalkedKeeps(s, e, i);
    var w := Walked(s, e, i);
    if w.envs[e].slots[i].Some? {
      FilledRefines(w, e, i, j, pte);
      OthersKeptTransitive(s.envs, w.envs, Filled(w, e, i, j, pte).envs, e);
    }
  }

  lemma FilledRefines(s: Vm, e: nat, i: nat, j: nat, pte: Pte)
    requires Inv(s) && e in s.envs && i < PDX_UTOP && j < ENTRIES && Mappable(s, pte.page)
    requires s.envs[e].slots[i].Some? && !Mapped(s.envs[e].slots, i, j)
    ensures var t := Filled(s, e, i, j, pte);
            && WellShaped(t.envs) && OthersKept(s.envs, t.envs, e)
            && Space(t.envs[e].slots) == Space(s.envs[e].slots)[PageNo(i, j) := pte]
            && (Inv(t) <==> s.ref[pte.page] + 1 < REF_LIMIT) && (Inv(t) ==> Held(t) == Held(s) - {pte.page})
  {
    SetEntrySpace(s.envs[e].slots, i, j, Some(pte));
    if s.ref[pte.page] + 1 < REF_LIMIT {
      FilledKeeps(s, e, i, j, pte);
    } else {
      FilledWraps(s, e, i, j, pte);
    }
  }

  /** The page is mapped there already. */
  ghost predicate MappedTo(s: Vm, e: nat, i: nat, j: nat, p: nat)
    requires WellShaped(s.envs) && e in s.envs && i < PDX_UTOP && j < ENTRIES
  {
    Mapped(s.envs[e].slots, i, j) && PteAt(s.envs[e].slots, i, j).page == p
  }

  /** page_insert: its outcome (false for -E_NO_MEM) and the state it leaves. */
  ghost function PageInserted(s: Vm, e: nat, i: nat, j: nat, pte: Pte): (r: (bool, Vm))
    requires Inv(s) && e in s.envs && i < PDX_UTOP && j < ENTRIES && Mappable(s, pte.page)
  {
    if MappedTo(s, e, i, j, pte.page) then
      (true, s.(envs := SetEntryAt(s.envs, e, i, j, Some(pte)),
                tlb := Flush(s.tlb, s.envs[e].asid, PageNo(i, j))))
    else
      ClearedKeeps(s, e, i, j, pte.page);
      Installed(Cleared(s, e, i, j), e, i, j, pte)
  }

  /**
   page_insert is an update at one key of one address space, or fails without any effect;
   it keeps the invariant exactly when the 16-bit count of the page has room for a new mapping.
   */
  lemma PageInsertedRefines(s: Vm, e: nat, i: nat, j: nat, pte: Pte)
    requires Inv(s) && e in s.envs && i < PDX_UTOP && j < ENTRIES && Mappable(s, pte.page)
    ensures var (ok, t) := PageInserted(s, e, i, j, pte);
            && (!ok <==> s.envs[e].slots[i].None? && s.freeList == [])
            && (!ok ==> t == s)
            && (ok ==> WellShaped(t.envs) && OthersKept(s.envs, t.envs, e)
                       && Space(t.envs[e].slots) == Space(s.envs[e].slots)[PageNo(i, j) := pte]
                       && (Inv(t) <==> MappedTo(s, e, i, j, pte.page) || s.ref[pte.page] + 1 < REF_LIMIT)
                       && (Inv(t) ==> Held(t) == Held(s) - {pte.page}))
  {
    if MappedTo(s, e, i, j, pte.page) {
      MappedAgain(s, e, i, j, pte);
    } else {
      var c := Cleared(s, e, i, j);
      ClearedKeeps(s, e, i, j, pte.page);
      InstalledRefines(c, e, i, j, pte);
      var (ok, t) := PageInserted(s, e, i, j, pte);
      if ok {
        OthersKeptTransitive(s.envs, c.envs, t.envs, e);
        DeleteThenUpdate(Space(s.envs[e].slots), Space(c.envs[e].slots), PageNo(i, j), pte);
      }
    }
  }

  lemma OthersKeptTransitive(a: Envs, b: Envs, c: Envs, e: nat)
    requires OthersKept(a, b, e) && OthersKept(b, c, e)
    ensures OthersKept(a, c, e)
  {
  }

  lemma DeleteThenUpdate(m: map<nat, Pte>, d: map<nat, Pte>, k: nat, x: Pte)
    requires d == m - {k}
    ensures d[k := x] == m[k := x]
  {
  }

  lemma MappedAgain(s: Vm, e: nat, i: nat, j: nat, pte: Pte)
    requires Inv(s) && e in s.envs && i < PDX_UTOP && j < ENTRIES && MappedTo(s, e, i, j, pte.page)
    ensures var t := s.(envs := SetEntryAt(s.envs, e, i, j, Some(pte)),
                        tlb := Flush(s.tlb, s.envs[e].asid, PageNo(i, j)));
            && Inv(t) && Held(t) == Held(s) && pte.page !in Held(s) && OthersKept(s.envs, t.envs, e)
            && Space(t.envs[e].slots) == Space(s.envs[e].slots)[PageNo(i, j) := pte]
  {
    RepermittedKeeps(s, e, i, j, pte);
    SetEntrySpace(s.envs[e].slots, i, j, Some(pte));
    assert Names(s.envs, EntryAt(e, i, j), pte.page);
    if pte.page in Held(s) {
      ZeroIsUnnamed(s, pte.page);
    }
  }

  /** env_free, per directory slot: an emptied table is dropped and its page released. */
  lemma DroppedKeeps(s: Vm, e: nat, i: nat)
    requires Inv(s) && e in s.envs && i < PDX_UTOP && s.envs[e].slots[i].Some?
    requires forall j: nat :: j < ENTRIES ==> !Mapped(s.envs[e].slots, i, j)
    ensures s.envs[e].slots[i].value.page < |s.ref| && s.ref[s.envs[e].slots[i].value.page] > 0
    ensures var t := Decref(s, s.envs[e].slots[i].value.page).(envs := SetSlot(s.envs, e, i, None));
            Inv(t) && Held(t) == Held(s)
  {
    TableDropped(s.envs, e, i);
    RemoveKeeps(s, SetSlot(s.envs, e, i, None), TableAt(e, i), s.envs[e].slots[i].value.page);
    SlotIsCoherent(s.envs, s.tlb, e, i, None);
  }

  /** env_free, at the end: the emptied directory, the ASID and the env itself are released. */
  function Retired(s: Vm, e: nat): (t: Vm)
    requires e in s.envs && s.envs[e].pgdir < |s.ref| && s.ref[s.envs[e].pgdir] > 0
    requires s.envs[e].asid < |s.asidUsed|
  {
    Decref(s, s.envs[e].pgdir).(envs := s.envs - {e},
                                asidUsed := s.asidUsed[s.envs[e].asid := false],
                                envFree := [e] + s.envFree)
  }

  lemma RetiredKeeps(s: Vm, e: nat)
    requires Inv(s) && e in s.envs && e < NENV && s.envs[e].slots == EmptyDirectory()
    ensures s.envs[e].pgdir < |s.ref| && s.ref[s.envs[e].pgdir] > 0
    ensures var t := Retired(s, e);
            Inv(t) && Held(t) == Held(s) && forall k :: k in t.tlb ==> k.asid != s.envs[e].asid
  {
    var envs' := s.envs - {e};
    assert envs'[e := Env(s.envs[e].pgdir, s.envs[e].asid, EmptyDirectory())] == s.envs;
    DirectoryHung(envs', e, s.envs[e].pgdir, s.envs[e].asid);
    RemoveKeeps(s, envs', DirAt(e), s.envs[e].pgdir);
    RetiredCoherent(s.envs, s.tlb, e);
  }

  /** An env that maps nothing backs no TLB entry, so none survives for its ASID. */
  lemma RetiredCoherent(envs: Envs, tlb: Tlb, e: nat)
    requires WellShaped(envs) && Coherent(envs, tlb) && e in envs && envs[e].slots == EmptyDirectory()
    requires forall x :: x in envs && x != e ==> envs[x].asid != envs[e].asid
    ensures Coherent(envs - {e}, tlb) && forall k :: k in tlb ==> k.asid != envs[e].asid
  {
    forall k | k in tlb ensures k.asid != envs[e].asid && exists y :: Backs(envs - {e}, y, k, tlb[k]) {
      var y :| Backs(envs, y, k, tlb[k]);
      assert y != e;
      assert Backs(envs - {e}, y, k, tlb[k]);
    }
  }

  /** TLB entries of other ASIDs are untouched. */
  ghost predicate OtherAsidsKept(tlb: Tlb, tlb': Tlb, asid: nat) {
    forall k: TlbKey :: k.asid != asid ==> (k in tlb <==> k in tlb') && (k in tlb ==> tlb[k] == tlb'[k])
  }

  /** The first `n` entries of table `i` are invalid, and the other tables are as they were. */
  ghost predicate EmptiedTo(dir: Directory, dir': Directory, i: nat, n: nat)
    requires i < PDX_UTOP
  {
    && DirShape(dir) && DirShape(dir') && dir'[i].Some?
    && (forall k :: 0 <= k < PDX_UTOP && k != i ==> dir'[k] == dir[k])
    && forall j: nat :: j < n && j < ENTRIES ==> !Mapped(dir', i, j)
  }

  lemma EmptiedThenDropped(dir: Directory, dir': Directory, i: nat)
    requires i < PDX_UTOP && EmptiedTo(dir, dir', i, ENTRIES)
    ensures dir'[i := None] == dir[i := None]
  {
  }

  lemma RemovedEmpties(s: Vm, e: nat, i: nat, n: nat, dir: Directory)
    requires PagesExact(s) && e in s.envs && i < PDX_UTOP && n < ENTRIES
    requires EmptiedTo(dir, s.envs[e].slots, i, n)
    ensures var t := PageRemoved(s, e, i, n);
            && e in t.envs && EmptiedTo(dir, t.envs[e].slots, i, n + 1)
            && OtherAsidsKept(s.tlb, t.tlb, s.envs[e].asid)
  {
    var r := SetEntry(s.envs[e].slots, i, n, None);
    forall j: nat | j < n + 1 ensures !Mapped(r, i, j) {
      assert j < n ==> !Mapped(s.envs[e].slots, i, j);
    }
  }

  /** Page `p` is referenced, and by env `e` alone. */
  ghost predicate HeldOnlyBy(envs: Envs, p: nat, e: nat)
    requires WellShaped(envs)
  {
    Refs(envs, p) != {} && forall s :: s in Refs(envs, p) ==> s.env == e
  }

  lemma RefsWithout(envs: Envs, e: nat, p: nat)
    requires WellShaped(envs)
    ensures WellShaped(envs - {e})
    ensures Refs(envs - {e}, p) == {} <==> Refs(envs, p) == {} || HeldOnlyBy(envs, p, e)
  {
    forall s ensures s in Refs(envs - {e}, p) <==> s in Refs(envs, p) && s.env != e {
      assert Names(envs - {e}, s, p) <==> Names(envs, s, p) && s.env != e;
    }
  }

  /** The pages that go free with `e` are exactly those that only `e` referenced. */
  lemma FreedBy(s: Vm, t: Vm, e: nat, p: nat)
    requires PagesExact(s) && PagesExact(t) && t.envs == s.envs - {e} && Held(t) == Held(s)
    requires t.npage == s.npage && t.reserved == s.reserved
    ensures p in t.freeList <==> p in s.freeList || HeldOnlyBy(s.envs, p, e)
  {
    FreeIffUnreferenced(s, p);
    FreeIffUnreferenced(t, p);
    RefsWithout(s.envs, e, p);
    if HeldOnlyBy(s.envs, p, e) {
      var x :| x in Refs(s.envs, p);
      assert Names(s.envs, x, p);
      assert s.ref[p] == |Refs(s.envs, p)|;
    }
  }

  lemma WithoutKept(envs: Envs, envs': Envs, e: nat)
    requires envs'.Keys == envs.Keys - {e} && forall x :: x in envs' ==> envs'[x] == envs[x]
    ensures envs' == envs - {e}
  {
  }

  /** env_alloc: the first free env gets a held page as directory and a free ASID. */
  function Admitted(s: Vm, q: nat, a: nat): (t: Vm)
    requires s.envFree != [] && q < |s.ref| && a < |s.asidUsed|
  {
    s.(envs := s.envs[s.envFree[0] := Env(q, a, EmptyDirectory())], ref := s.ref[q := 1],
       envFree := s.envFree[1..], asidUsed := s.asidUsed[a := true])
  }

  lemma AdmittedKeeps(s: Vm, q: nat, a: nat)
    requires Inv(s) && s.envFree != [] && q in Held(s) && a < NASID && !s.asidUsed[a]
    ensures s.envFree[0] !in s.envs
    ensures var t := Admitted(s, q, a); Inv(t) && Held(t) == Held(s) - {q}
  {
    var e, t := s.envFree[0], Admitted(s, q, a);
    assert e in s.envFree && e !in t.envFree && forall x :: x in t.envFree ==> x in s.envFree;
    ZeroIsUnnamed(s, q);
    DirectoryHung(s.envs, e, q, a);
    AddKeeps(s, t, DirAt(e), q);
    forall k | k in t.tlb ensures exists y :: Backs(t.envs, y, k, t.tlb[k]) {
      var y :| Backs(s.envs, y, k, s.tlb[k]);
      assert Backs(t.envs, y, k, t.tlb[k]);
    }
  }

  /** TLB refill: any entries may be evicted, and the looked-up entry is installed. */
  lemma CachedKeeps(s: Vm, e: nat, v: nat, pte: Pte, evicted: set<TlbKey>)
    requires Inv(s) && e in s.envs && Walk(s.envs[e].slots, v) == Some(pte)
    ensures var t := s.(tlb := (s.tlb - evicted)[TlbKey(s.envs[e].asid, v) := pte]);
            Inv(t) && Held(t) == Held(s)
  {
    var tlb' := (s.tlb - evicted)[TlbKey(s.envs[e].asid, v) := pte];
    forall k | k in tlb' ensures exists y :: Backs(s.envs, y, k, tlb'[k]) {
      if k == TlbKey(s.envs[e].asid, v) {
        assert Backs(s.envs, e, k, tlb'[k]);
      } else {
        var y :| Backs(s.envs, y, k, s.tlb[k]);
        assert Backs(s.envs, y, k, tlb'[k]);
      }
    }
  }

  /** A directory page that is counted but held by no env makes the counts inexact. */
  lemma LostDirectory(s: Vm, q: nat)
    requires PagesExact(s) && q in Held(s)
    ensures !PagesExact(s.(ref := s.ref[q := 1]))
  {
    ZeroIsUnnamed(s, q);
    var t := s.(ref := s.ref[q := 1]);
    assert t.ref[q] == 1 && |Refs(t.envs, q)| == 0;
  }

  /** An env that starts on a directory page nobody counted for it makes the counts inexact. */
  lemma StaleDirectory(s: Vm, t: Vm, e: nat, p: nat, a: nat)
    requires PagesExact(s) && e !in s.envs
    requires t.envs == s.envs[e := Env(p, a, EmptyDirectory())]
    requires t.ref == s.ref && t.npage == s.npage && t.reserved == s.reserved
    ensures !PagesExact(t)
  {
    DirectoryHung(s.envs, e, p, a);
    assert Names(t.envs, DirAt(e), p);
    if s.reserved <= p < s.npage {
      AddedCounts(s.envs, t.envs, DirAt(e), p, s.ref, s.reserved);
    }
  }

  /** env_alloc with the ASID that asid_alloc found, if any; `stale` is what env_pgdir held before. */
  ghost function EnvAllocated(s: Vm, stale: nat, asid: Option<nat>): (t: Vm)
    requires PagesExact(s) && s.envFree != [] && (asid.Some? ==> asid.value < |s.asidUsed|)
  {
    assert s.freeList != [] ==> s.freeList[0] in s.freeList;
    var m := if s.freeList == [] then s
             else s.(freeList := s.freeList[1..], ref := s.ref[s.freeList[0] := 1]);
    var pgdir := if s.freeList == [] then stale else s.freeList[0];
    if asid.None? then m
    else m.(envs := m.envs[s.envFree[0] := Env(pgdir, asid.value, EmptyDirectory())],
            envFree := m.envFree[1..], asidUsed := m.asidUsed[asid.value := true])
  }

  /**
   env_alloc ignores the failure of env_setup_vm, and does not return the directory page when no
   ASID is left: the invariant survives exactly when memory and ASIDs are both there or both gone.
   */
  lemma EnvAllocExact(s: Vm, stale: nat, asid: Option<nat>)
    requires Inv(s) && s.envFree != []
    requires asid.Some? ==> asid.value < NASID && !s.asidUsed[asid.value]
    ensures Inv(EnvAllocated(s, stale, asid)) <==> (s.freeList != [] <==> asid.Some?)
    ensures Inv(EnvAllocated(s, stale, asid)) ==> Held(EnvAllocated(s, stale, asid)) == Held(s)
  {
    var t := EnvAllocated(s, stale, asid);
    assert s.envFree[0] in s.envFree;
    if s.freeList == [] {
      if asid.Some? {
        StaleDirectory(s, t, s.envFree[0], stale, asid.value);
      }
    } else {
      var m := s.(freeList := s.freeList[1..]);
      TakeKeeps(s);
      if asid.Some? {
        AdmittedKeeps(m, s.freeList[0], asid.value);
        assert t == Admitted(m, s.freeList[0], asid.value);
      } else {
        LostDirectory(m, s.freeList[0]);
      }
    }
  }

  lemma FreshIsUnmapped(s: Vm, e: nat, i: nat, j: nat, p: nat)
    requires PagesExact(s) && e in s.envs && i < PDX_UTOP && j < ENTRIES && Refs(s.envs, p) == {}
    requires s.reserved <= p < s.npage
    ensures !MappedTo(s, e, i, j, p) && s.ref[p] == 0
  {
    assert s.ref[p] == |Refs(s.envs, p)|;
    assert EntryAt(e, i, j) !in Refs(s.envs, p);
    assert !Names(s.envs, EntryAt(e, i, j), p);
  }

  /** The number of pages a first mapping in table `i` takes: the page, and the table if missing. */
  ghost function PagesNeeded(s: Vm, e: nat, i: nat): (n: nat)
    requires WellShaped(s.envs) && e in s.envs && i < PDX_UTOP
  {
    if s.envs[e].slots[i].None? then 2 else 1
  }

  /** page_alloc, then page_insert of that page. */
  ghost function AllocMapped(s: Vm, e: nat, i: nat, j: nat, perm: Perm): (r: (bool, Vm))
    requires Inv(s) && e in s.envs && i < PDX_UTOP && j < ENTRIES
  {
    if s.freeList == [] then (false, s)
    else
      TakeKeeps(s);
      PageInserted(s.(freeList := s.freeList[1..]), e, i, j, Pte(s.freeList[0], perm))
  }

  /**
   With enough pages the first free page is mapped; otherwise nothing is mapped, and a page that was
   taken is not given back but stays held.
   */
  lemma AllocMappedRefines(s: Vm, e: nat, i: nat, j: nat, perm: Perm)
    requires Inv(s) && e in s.envs && i < PDX_UTOP && j < ENTRIES
    ensures var (ok, t) := AllocMapped(s, e, i, j, perm);
            && Inv(t) && (ok <==> |s.freeList| >= PagesNeeded(s, e, i))
            && (ok ==> Held(t) == Held(s) && OthersKept(s.envs, t.envs, e)
                       && Space(t.envs[e].slots) == Space(s.envs[e].slots)[PageNo(i, j) := Pte(s.freeList[0], perm)])
            && (!ok ==> t == s.(freeList := []) && Held(t) == Held(s) + set p | p in s.freeList)
  {
    if s.freeList != [] {
      var p, m := s.freeList[0], s.(freeList := s.freeList[1..]);
      TakeKeeps(s);
      FreshIsUnmapped(m, e, i, j, p);
      PageInsertedRefines(m, e, i, j, Pte(p, perm));
      assert s.freeList == [p] + m.freeList;
    }
  }

  const UTEMP: nat := 0x3f_e000
  const USTACKTOP: nat := 0x7f3f_e000

  /** The user addresses that passive_alloc serves. */
  predicate Allowed(va: nat): (b: bool)
    ensures b <==> (0x3f_e000 <= va < 0x7f3f_e000 || 0x7f3f_f000 <= va)
  {
    va >= UTEMP && !(USTACKTOP <= va < USTACKTOP + 4096)
  }

  /** A fault on `va` makes the kernel panic. */
  ghost predicate Refuses(s: Vm, e: nat, va: nat)
    requires WellShaped(s.envs) && e in s.envs && va < UTOP
  {
    !Mapped(s.envs[e].slots, Pdx(va), Ptx(va)) && (!Allowed(va) || |s.freeList| < PagesNeeded(s, e, Pdx(va)))
  }

  /** What the refill handler does to pages and tables: nothing, or one fresh writable page. */
  ghost function Refilled(s: Vm, e: nat, va: nat): (t: Vm)
    requires Inv(s) && e in s.envs && va < UTOP
  {
    if Mapped(s.envs[e].slots, Pdx(va), Ptx(va)) then s
    else AllocMapped(s, e, Pdx(va), Ptx(va), PTE_D | PTE_V).1
  }

  /** A refill that does not panic changes the address space of `e` at most at the faulting page. */
  lemma RefilledRefines(s: Vm, e: nat, va: nat)
    requires Inv(s) && e in s.envs && va < UTOP
    ensures Refuses(s, e, va) || 
            var t := Refilled(s, e, va);
            && Inv(t) && Held(t) == Held(s) && OthersKept(s.envs, t.envs, e)
            && Walk(t.envs[e].slots, Vpn(va)).Some?
            && Space(t.envs[e].slots)
               == if Vpn(va) in Space(s.envs[e].slots) then Space(s.envs[e].slots)
                  else Space(s.envs[e].slots)[Vpn(va) := Pte(s.freeList[0], PTE_D | PTE_V)]
  {
    VpnSplits(va);
    if Mapped(s.envs[e].slots, Pdx(va), Ptx(va)) {
      assert Walk(s.envs[e].slots, Vpn(va)).Some?;
    } else if !Refuses(s, e, va) {
      AllocMappedRefines(s, e, Pdx(va), Ptx(va), PTE_D | PTE_V);
      assert Vpn(va) in Space(Refilled(s, e, va).envs[e].slots);
      assert Walk(s.envs[e].slots, Vpn(va)).None?;
    }
  }
}
