/**
 The page pool, the page tables and the TLB, changed in place by the operations of
 kern/pmap.c, kern/tlbex.c, the memory part of kern/env.c and the memory system calls.

 The source passes a directory and an ASID together, always those of one env; the model
 passes that env.
 */
module Pmap {
  import opened Common
  import opened PageTables
  import opened VmState

  datatype Status = Ok | NoMem | Inval | BadEnv | NoFreeEnv

  /** is_illegal_va */
  predicate Illegal(va: nat): (b: bool)
    ensures !b <==> 0x3f_e000 <= va < 0x7f40_0000
  {
    va < UTEMP || va >= UTOP
  }

  datatype Op =
    | MemAlloc(env: nat, va: nat, perm: Perm)
    | MemMap(src: nat, srcva: nat, dst: nat, dstva: nat, perm: Perm)
    | MemUnmap(env: nat, va: nat)
    | IpcPage(src: nat, srcva: nat, dst: nat, dstva: nat, perm: Perm)
    | Refill(env: nat, va: nat, evicted: set<TlbKey>)
    | NewEnv
    | FreeEnv(env: nat)

  // What each kernel entry of a run does.

  /** The page at `srcva` of one env may be mapped at `dstva` of another: it is there, and its count has room. */
  ghost predicate MayPass(s: Vm, src: nat, srcva: nat, dst: nat, dstva: nat)
    requires Inv(s) && srcva < UTOP && dstva < UTOP
  {
    && src in s.envs && dst in s.envs && Mapped(s.envs[src].slots, Pdx(srcva), Ptx(srcva))
    && (NamedIsMappable(s, src, Pdx(srcva), Ptx(srcva));
        var p := PteAt(s.envs[src].slots, Pdx(srcva), Ptx(srcva)).page;
        s.ref[p] + 1 < REF_LIMIT || MappedTo(s, dst, Pdx(dstva), Ptx(dstva), p))
  }

  ghost predicate Passed(s: Vm, t: Vm, src: nat, srcva: nat, dst: nat, dstva: nat, perm: Perm)
    requires Inv(s) && srcva < UTOP && dstva < UTOP
  {
    if MayPass(s, src, srcva, dst, dstva) then
      NamedIsMappable(s, src, Pdx(srcva), Ptx(srcva));
      var p := PteAt(s.envs[src].slots, Pdx(srcva), Ptx(srcva)).page;
      t == PageInserted(s, dst, Pdx(dstva), Ptx(dstva), Pte(p, perm | PTE_V)).1
    else t == s
  }

  ghost predicate Refilling(s: Vm, t: Vm, e: nat, va: nat, evicted: set<TlbKey>)
    requires Inv(s) && e in s.envs && va < UTOP
  {
    !Refuses(s, e, va) &&
    (RefilledRefines(s, e, va);
     var m := Refilled(s, e, va);
     var pte := Walk(m.envs[e].slots, Vpn(va)).value;
     t == m.(tlb := (m.tlb - evicted)[TlbKey(s.envs[e].asid, Vpn(va)) := pte]))
  }

  /** env_alloc with both memory and an ASID, or with neither. */
  ghost predicate Admits(s: Vm, t: Vm, stale: nat, asid: Option<nat>)
    requires Inv(s) && s.envFree != []
  {
    && (asid.Some? <==> false in s.asidUsed) && (asid.Some? ==> asid.value < NASID && !s.asidUsed[asid.value])
    && (asid.Some? ==> forall a :: 0 <= a < asid.value ==> s.asidUsed[a])
    && t == EnvAllocated(s, stale, asid)
  }

  ghost predicate Admitting(s: Vm, t: Vm)
    requires Inv(s)
  {
    if s.envFree != [] && (s.freeList != [] <==> false in s.asidUsed) then exists stale, asid :: Admits(s, t, stale, asid)
    else t == s
  }

  /** env_free: nothing of the env is left, the pages that only it held are free, and the rest is as it was. */
  ghost predicate Releasing(s: Vm, t: Vm, e: nat)
    requires Inv(s) && e in s.envs && e < NENV
  {
    && t.envs == s.envs - {e} && t.envFree == [e] + s.envFree && t.asidUsed == s.asidUsed[s.envs[e].asid := false]
    && OtherAsidsKept(s.tlb, t.tlb, s.envs[e].asid) && (forall k :: k in t.tlb ==> k.asid != s.envs[e].asid)
    && forall p: nat :: p in t.freeList <==> p in s.freeList || HeldOnlyBy(s.envs, p, e)
  }

  /** What a kernel entry does to the state, under the exact condition for keeping the invariant. */
  ghost predicate Did(op: Op, s: Vm, t: Vm)
    requires Inv(s) && forall e :: e in s.envs ==> e < NENV
  {
    match op
    case MemAlloc(e, va, perm) =>
      if Illegal(va) || e !in s.envs then t == s else t == AllocMapped(s, e, Pdx(va), Ptx(va), perm | PTE_V).1
    case MemMap(src, srcva, dst, dstva, perm) =>
      if Illegal(srcva) || Illegal(dstva) then t == s else Passed(s, t, src, srcva, dst, dstva, perm)
    case IpcPage(src, srcva, dst, dstva, perm) =>
      if Illegal(srcva) || (dstva != 0 && Illegal(dstva)) then t == s else Passed(s, t, src, srcva, dst, dstva, perm)
    case MemUnmap(e, va) =>
      if Illegal(va) || e !in s.envs then t == s else t == PageRemoved(s, e, Pdx(va), Ptx(va))
    case Refill(e, va, evicted) => if e in s.envs && va < UTOP then Refilling(s, t, e, va, evicted) else t == s
    case NewEnv => Admitting(s, t)
    case FreeEnv(e) => if e in s.envs then Releasing(s, t, e) else t == s
  }

  class Kernel {
    const npage: nat
    const reserved: nat
    var ref: seq<nat>
    var freeList: seq<nat>
    var envs: Envs
    var tlb: Tlb
    var envFree: seq<nat>
    var asidUsed: seq<bool>
    /** env_pgdir of each env struct, also of those that are not in use. */
    var lastPgdir: seq<nat>

    /** The whole state as a value. */
    ghost function S(): (s: Vm)
      reads this
    {
      Vm(npage, reserved, ref, freeList, envs, tlb, envFree, asidUsed)
    }

    ghost predicate Valid()
      reads this
    {
      Inv(S()) && |lastPgdir| == NENV && forall e :: e in envs ==> e < NENV
    }

    /** The address space of env `e`. */
    ghost function SpaceOf(e: nat): (m: map<nat, Pte>)
      requires WellShaped(envs) && e in envs
      reads this
    {
      Space(envs[e].slots)
    }

    /** page_init: memory below `reserved` is in use, the rest free, highest page first. */
    constructor (npage: nat, reserved: nat)
      requires reserved <= npage
      ensures Valid() && this.npage == npage && this.reserved == reserved
      ensures |freeList| == npage - reserved
      ensures forall k :: 0 <= k < |freeList| ==> freeList[k] == npage - 1 - k
      ensures ref == seq(npage, p => if p < reserved then 1 else 0)
      ensures envs == map[] && tlb == map[] && asidUsed == seq(NASID, _ => false)
      ensures envFree == seq(NENV, e => e)
    {
      var counts, list := [], [];
      for i := 0 to reserved
        invariant counts == seq(i, _ => 1)
      {
        counts := counts + [1];
      }
      for i := reserved to npage
        invariant counts == seq(i, p => if p < reserved then 1 else 0)
        invariant |list| == i - reserved && forall k :: 0 <= k < |list| ==> list[k] == i - 1 - k
      {
        counts := counts + [0];
        list := [i] + list;
      }
      this.npage, this.reserved := npage, reserved;
      ref, freeList, envs, tlb := counts, list, map[], map[];
      envFree := seq(NENV, e => e);
      asidUsed := seq(NASID, _ => false);
      lastPgdir := seq(NENV, _ => 0);
      new;
      assert forall p: nat :: Refs(envs, p) == {};
    }

    method PageAlloc() returns (r: Option<nat>)
      requires Valid()
      modifies `freeList
      ensures Valid()
      ensures r.None? <==> old(freeList) == []
      ensures r.None? ==> freeList == old(freeList)
      ensures r.Some? ==>
                && r.value == old(freeList)[0] && freeList == old(freeList)[1..]
                && Mappable(S(), r.value) && Refs(envs, r.value) == {}
                && r.value !in old(Held(S())) && Held(S()) == old(Held(S())) + {r.value}
    {
      if freeList == [] {
        return None;
      }
      TakeKeeps(S());
      r := Some(freeList[0]);
      freeList := freeList[1..];
    }

    method PageFree(pp: nat)
      requires pp < |ref| && ref[pp] == 0
      modifies `freeList
      ensures freeList == [pp] + old(freeList)
    {
      freeList := [pp] + freeList;
    }

    method PageDecref(pp: nat)
      requires pp < |ref| && ref[pp] > 0
      modifies `ref, `freeList
      ensures S() == Decref(old(S()), pp)
    {
      ref := ref[pp := ref[pp] - 1];
      if ref[pp] == 0 {
        PageFree(pp);
      }
    }

    method TlbInvalidate(asid: nat, va: nat)
      modifies `tlb
      ensures tlb == Flush(old(tlb), asid, Vpn(va))
    {
      tlb := Flush(tlb, asid, Vpn(va));
    }

    /** Finds the slot of `va`; with `create`, a missing table is allocated first. */
    method PgdirWalk(e: nat, va: nat, create: bool) returns (status: Status, found: bool)
      requires Valid() && e in envs && va < UTOP
      modifies `ref, `freeList, `envs
      ensures S() == if create then Walked(old(S()), e, Pdx(va)) else old(S())
      ensures status == if create && old(envs)[e].slots[Pdx(va)].None? && old(freeList) == [] then NoMem else Ok
      ensures found <==> status == Ok && (create || old(envs)[e].slots[Pdx(va)].Some?)
    {
      var i := Pdx(va);
      WalkedKeeps(S(), e, i);
      if envs[e].slots[i].Some? {
        return Ok, true;
      }
      if !create {
        return Ok, false;
      }
      var page := PageAlloc();
      if page.None? {
        return NoMem, false;
      }
      envs := SetSlot(envs, e, i, Some(Table(page.value, EmptyTable())));
      ref := ref[page.value := 1];
      return Ok, true;
    }

    method PageLookup(e: nat, va: nat) returns (r: Option<Pte>)
      requires Valid() && e in envs && va < UTOP
      ensures r == Walk(envs[e].slots, Vpn(va))
      ensures r == if Vpn(va) in SpaceOf(e) then Some(SpaceOf(e)[Vpn(va)]) else None
      ensures r.Some? <==> Mapped(envs[e].slots, Pdx(va), Ptx(va))
      ensures r.Some? ==> r.value == PteAt(envs[e].slots, Pdx(va), Ptx(va)) && Mappable(S(), r.value.page)
    {
      VpnSplits(va);
      var slot := envs[e].slots[Pdx(va)];
      if slot.None? {
        return None;
      }
      r := slot.value.entries[Ptx(va)];
      if r.Some? {
        NamedIsMappable(S(), e, Pdx(va), Ptx(va));
      }
    }

    /** Unmaps `va`: the key leaves the map of `e`; its other keys and all other envs stay. */
    method PageRemove(e: nat, va: nat)
      requires Valid() && e in envs && va < UTOP
      modifies `ref, `freeList, `envs, `tlb
      ensures S() == PageRemoved(old(S()), e, Pdx(va), Ptx(va))
      ensures Valid() && Held(S()) == old(Held(S())) && OthersKept(old(envs), envs, e)
      ensures SpaceOf(e) == old(SpaceOf(e)) - {Vpn(va)}
    {
      VpnSplits(va);
      var i, j := Pdx(va), Ptx(va);
      PageRemovedRefines(S(), e, i, j);
      var pte := PageLookup(e, va);
      if pte.None? {
        return;
      }
      DropMapping(e, va, i, j, pte.value.page);
    }

    /** The rest of page_remove, for a mapped page. */
    method DropMapping(e: nat, va: nat, i: nat, j: nat, pp: nat)
      requires Valid() && e in envs && i < PDX_UTOP && j < ENTRIES && Vpn(va) == PageNo(i, j)
      requires Mapped(envs[e].slots, i, j) && pp == PteAt(envs[e].slots, i, j).page
      modifies `ref, `freeList, `envs, `tlb
      ensures S() == Unmapped(old(S()), e, i, j)
    {
      EntryCleared(envs, e, i, j);
      RemoveKeeps(S(), SetEntryAt(envs, e, i, j, None), EntryAt(e, i, j), pp);
      var asid := envs[e].asid;
      PageDecref(pp);
      envs := SetEntryAt(envs, e, i, j, None);
      TlbInvalidate(asid, va);
    }

    /** The second half of page_insert: get or make the table, then fill the entry. */
    method Install(e: nat, pp: nat, va: nat, perm: Perm) returns (status: Status)
      requires Valid() && e in envs && va < UTOP && Mappable(S(), pp)
      modifies `ref, `freeList, `envs
      ensures (status == Ok, S()) == Installed(old(S()), e, Pdx(va), Ptx(va), Pte(pp, perm | PTE_V))
      ensures status == Ok || status == NoMem
    {
      var i, j := Pdx(va), Ptx(va);
      WalkedKeeps(S(), e, i);
      var found;
      status, found := PgdirWalk(e, va, true);
      if status == NoMem {
        return;
      }
      FillEntry(e, i, j, pp, perm);
    }

    /** Writes an entry of an existing table and counts the reference. */
    method FillEntry(e: nat, i: nat, j: nat, pp: nat, perm: Perm)
      requires e in envs && i < |envs[e].slots| && envs[e].slots[i].Some? && j < |envs[e].slots[i].value.entries| && pp < |ref|
      modifies `ref, `envs
      ensures S() == Filled(old(S()), e, i, j, Pte(pp, perm | PTE_V))
    {
      envs := SetEntryAt(envs, e, i, j, Some(Pte(pp, perm | PTE_V)));
      ref := ref[pp := (ref[pp] + 1) % REF_LIMIT];
    }

    /** Maps `pp` at `va`, replacing what was mapped there. */
    method PageInsert(e: nat, pp: nat, va: nat, perm: Perm) returns (status: Status)
      requires Valid() && e in envs && va < UTOP && Mappable(S(), pp)
      modifies `ref, `freeList, `envs, `tlb
      ensures (status == Ok, S()) == PageInserted(old(S()), e, Pdx(va), Ptx(va), Pte(pp, perm | PTE_V))
      ensures status == Ok || status == NoMem
    {
      VpnSplits(va);
      var i, j, asid := Pdx(va), Ptx(va), envs[e].asid;
      var pte := PageLookup(e, va);
      if pte.Some? && pte.value.page == pp {
        TlbInvalidate(asid, va);
        envs := SetEntryAt(envs, e, i, j, Some(Pte(pp, perm | PTE_V)));
        return Ok;
      }
      ClearedKeeps(S(), e, i, j, pp);
      if pte.Some? {
        PageRemove(e, va);
      }
      TlbInvalidate(asid, va);
      assert S() == Cleared(old(S()), e, i, j);
      status := Install(e, pp, va, perm);
    }

    /** One round of the inner loop of env_free: unmaps one page if it is mapped. */
    method ClearEntry(e: nat, pdx: nat, ptx: nat, ghost dir: Directory)
      requires Valid() && e in envs && pdx < PDX_UTOP && ptx < ENTRIES
      requires EmptiedTo(dir, envs[e].slots, pdx, ptx)
      modifies `ref, `freeList, `envs, `tlb
      ensures Valid() && Held(S()) == old(Held(S())) && OthersKept(old(envs), envs, e)
      ensures EmptiedTo(dir, envs[e].slots, pdx, ptx + 1)
      ensures OtherAsidsKept(old(tlb), tlb, old(envs)[e].asid)
    {
      PageRemovedRefines(S(), e, pdx, ptx);
      RemovedEmpties(S(), e, pdx, ptx, dir);
      ghost var t := PageRemoved(S(), e, pdx, ptx);
      if envs[e].slots[pdx].value.entries[ptx].Some? {
        AddressOf(pdx, ptx);
        PageRemove(e, Address(pdx, ptx));
      }
      assert S() == t;
    }

    /** The inner loop of env_free: unmaps all pages of one table, then releases the table. */
    method ClearTable(e: nat, pdx: nat)
      requires Valid() && e in envs && pdx < PDX_UTOP && envs[e].slots[pdx].Some?
      modifies `ref, `freeList, `envs, `tlb
      ensures Valid() && Held(S()) == old(Held(S())) && OthersKept(old(envs), envs, e)
      ensures envs[e].slots == old(envs)[e].slots[pdx := None]
      ensures OtherAsidsKept(old(tlb), tlb, old(envs)[e].asid)
    {
      ClearEntries(e, pdx);
      EmptiedThenDropped(old(envs)[e].slots, envs[e].slots, pdx);
      DropTable(e, pdx);
    }

    method ClearEntries(e: nat, pdx: nat)
      requires Valid() && e in envs && pdx < PDX_UTOP && envs[e].slots[pdx].Some?
      modifies `ref, `freeList, `envs, `tlb
      ensures Valid() && Held(S()) == old(Held(S())) && OthersKept(old(envs), envs, e)
      ensures EmptiedTo(old(envs)[e].slots, envs[e].slots, pdx, ENTRIES)
      ensures OtherAsidsKept(old(tlb), tlb, old(envs)[e].asid)
    {
      for ptx: nat := 0 to ENTRIES
        invariant Valid() && Held(S()) == old(Held(S())) && OthersKept(old(envs), envs, e)
        invariant EmptiedTo(old(envs)[e].slots, envs[e].slots, pdx, ptx)
        invariant OtherAsidsKept(old(tlb), tlb, old(envs)[e].asid)
      {
        ClearEntry(e, pdx, ptx, old(envs)[e].slots);
      }
    }

    /** Releases a table that maps nothing. */
    method DropTable(e: nat, pdx: nat)
      requires Valid() && e in envs && pdx < PDX_UTOP && envs[e].slots[pdx].Some?
      requires forall j: nat :: j < ENTRIES ==> !Mapped(envs[e].slots, pdx, j)
      modifies `ref, `freeList, `envs
      ensures Valid() && Held(S()) == old(Held(S())) && envs == SetSlot(old(envs), e, pdx, None)
    {
      DroppedKeeps(S(), e, pdx);
      PageDecref(envs[e].slots[pdx].value.page);
      envs := SetSlot(envs, e, pdx, None);
    }

    /** The outer loop of env_free: afterwards `e` maps nothing and has no tables. */
    method ClearDirectory(e: nat)
      requires Valid() && e in envs
      modifies `ref, `freeList, `envs, `tlb
      ensures Valid() && Held(S()) == old(Held(S())) && OthersKept(old(envs), envs, e)
      ensures envs[e].slots == EmptyDirectory()
      ensures OtherAsidsKept(old(tlb), tlb, old(envs)[e].asid)
    {
      for pdx: nat := 0 to PDX_UTOP
        invariant Valid() && Held(S()) == old(Held(S())) && OthersKept(old(envs), envs, e)
        invariant forall i :: 0 <= i < pdx ==> envs[e].slots[i].None?
        invariant OtherAsidsKept(old(tlb), tlb, old(envs)[e].asid)
      {
        if envs[e].slots[pdx].Some? {
          ClearTable(e, pdx);
        }
      }
      assert envs[e].slots == EmptyDirectory();
    }

    /** Releases everything env `e` holds: its mappings, tables, directory, ASID and itself. */
    method EnvFree(e: nat)
      requires Valid() && e in envs
      modifies `ref, `freeList, `envs, `tlb, `envFree, `asidUsed
      ensures Valid() && Held(S()) == old(Held(S()))
      ensures envs == old(envs) - {e}
      ensures envFree == [e] + old(envFree)
      ensures asidUsed == old(asidUsed)[old(envs)[e].asid := false]
      ensures OtherAsidsKept(old(tlb), tlb, old(envs)[e].asid) && forall k :: k in tlb ==> k.asid != old(envs)[e].asid
      ensures forall p: nat :: p in freeList <==> p in old(freeList) || HeldOnlyBy(old(envs), p, e)
    {
      var asid := envs[e].asid;
      ClearDirectory(e);
      RetiredKeeps(S(), e);
      ghost var t := Retired(S(), e);
      PageDecref(envs[e].pgdir);
      asidUsed := asidUsed[asid := false];
      envs := envs - {e};
      envFree := [e] + envFree;
      assert S() == t;
      WithoutKept(old(envs), t.envs, e);
      forall p: nat ensures p in freeList <==> p in old(freeList) || HeldOnlyBy(old(envs), p, e) {
        FreedBy(old(S()), t, e, p);
      }
    }

    /** Takes the smallest unused ASID. */
    method AsidAlloc() returns (r: Option<nat>)
      requires |asidUsed| == NASID
      modifies `asidUsed
      ensures r.None? <==> forall a :: 0 <= a < NASID ==> old(asidUsed)[a]
      ensures r.None? ==> asidUsed == old(asidUsed)
      ensures r.Some? ==>
                && r.value < NASID && !old(asidUsed)[r.value] && asidUsed == old(asidUsed)[r.value := true]
                && forall a :: 0 <= a < r.value ==> old(asidUsed)[a]
    {
      for i: nat := 0 to NASID
        invariant asidUsed == old(asidUsed) && forall a :: 0 <= a < i ==> asidUsed[a]
      {
        if !asidUsed[i] {
          asidUsed := asidUsed[i := true];
          return Some(i);
        }
      }
      r := None;
    }

    /** env_setup_vm, as far as pages are counted: false stands for -E_NO_MEM, which leaves everything alone. */
    method EnvSetupVm(e: nat) returns (ok: bool)
      requires Valid() && e < NENV
      modifies `ref, `freeList, `lastPgdir
      ensures ok <==> old(freeList) != []
      ensures !ok ==> ref == old(ref) && freeList == old(freeList) && lastPgdir == old(lastPgdir)
      ensures ok ==>
                && old(freeList)[0] < |old(ref)| && ref == old(ref)[old(freeList)[0] := 1]
                && freeList == old(freeList)[1..] && lastPgdir == old(lastPgdir)[e := old(freeList)[0]]
    {
      var page := PageAlloc();
      if page.None? {
        return false;
      }
      ref := ref[page.value := ref[page.value] + 1];
      lastPgdir := lastPgdir[e := page.value];
      return true;
    }

    /** What env_pgdir of env `e` holds, in use or not. */
    ghost function LastPgdir(e: nat): (p: nat)
      reads this
    {
      if e < |lastPgdir| then lastPgdir[e] else 0
    }

    /** Puts the first free env into use; `asid` is the ASID it got, if one was left. */
    method EnvAlloc() returns (status: Status, asid: Option<nat>)
      requires Valid()
      modifies `ref, `freeList, `envs, `envFree, `asidUsed, `lastPgdir
      ensures old(envFree) == [] ==> status == NoFreeEnv && S() == old(S())
      ensures old(envFree) != [] ==>
                && (asid.None? <==> forall a :: 0 <= a < NASID ==> old(asidUsed)[a])
                && (asid.Some? ==> asid.value < NASID && !old(asidUsed)[asid.value]
                                   && forall a :: 0 <= a < asid.value ==> old(asidUsed)[a])
                && status == (if asid.Some? then Ok else NoFreeEnv)
                && S() == EnvAllocated(old(S()), old(LastPgdir(envFree[0])), asid)
      ensures Valid() <==> old(envFree) == [] || (old(freeList) != [] <==> asid.Some?)
      ensures status == Ok ==>
                && old(envFree) != [] && old(envFree)[0] < NENV && old(envFree)[0] !in old(envs)
                && envs.Keys == old(envs).Keys + {old(envFree)[0]}
      ensures status != Ok ==> envs == old(envs)
    {
      if envFree == [] {
        return NoFreeEnv, None;
      }
      var e := envFree[0];
      assert e in envFree;
      var _ := EnvSetupVm(e);
      asid := AsidAlloc();
      EnvAllocExact(old(S()), old(LastPgdir(e)), asid);
      if asid.None? {
        return NoFreeEnv, None;
      }
      envs := envs[e := Env(lastPgdir[e], asid.value, EmptyDirectory())];
      envFree := envFree[1..];
      status := Ok;
      assert S() == EnvAllocated(old(S()), old(LastPgdir(e)), asid);
    }

    /** page_alloc followed by page_insert, as sys_mem_alloc and passive_alloc do. */
    method AllocAndMap(e: nat, va: nat, perm: Perm) returns (status: Status)
      requires Valid() && e in envs && va < UTOP
      modifies `ref, `freeList, `envs, `tlb
      ensures (status == Ok, S()) == AllocMapped(old(S()), e, Pdx(va), Ptx(va), perm | PTE_V)
      ensures Valid() && (status == Ok || status == NoMem) && envs.Keys == old(envs).Keys
    {
      AllocMappedRefines(S(), e, Pdx(va), Ptx(va), perm | PTE_V);
      ghost var r := AllocMapped(S(), e, Pdx(va), Ptx(va), perm | PTE_V);
      var page := PageAlloc();
      if page.None? {
        return NoMem;
      }
      status := PageInsert(e, page.value, va, perm);
      assert (status == Ok, S()) == r;
    }

    /** passive_alloc: false stands for a kernel panic. */
    method PassiveAlloc(e: nat, va: nat) returns (ok: bool)
      requires Valid() && e in envs && va < UTOP
      modifies `ref, `freeList, `envs, `tlb
      ensures Valid() && envs.Keys == old(envs).Keys
      ensures ok <==> Allowed(va) && |old(freeList)| >= PagesNeeded(old(S()), e, Pdx(va))
      ensures ok ==> S() == AllocMapped(old(S()), e, Pdx(va), Ptx(va), PTE_D | PTE_V).1
    {
      if !Allowed(va) {
        return false;
      }
      PageAligned(va);
      AllocMappedRefines(S(), e, Pdx(va), Ptx(va), PTE_D | PTE_V);
      var status := AllocAndMap(e, va / 4096 * 4096, PTE_D);
      ok := status == Ok;
    }

    /** The loop of the refill handler: demand-allocates until the lookup succeeds. */
    method LookupOrAlloc(e: nat, va: nat) returns (r: Option<Pte>)
      requires Valid() && e in envs && va < UTOP
      modifies `ref, `freeList, `envs, `tlb
      ensures Valid() && (r.None? <==> Refuses(old(S()), e, va)) && envs.Keys == old(envs).Keys
      ensures r.Some? ==> S() == Refilled(old(S()), e, va) && e in envs && r == Walk(envs[e].slots, Vpn(va))
    {
      RefilledRefines(S(), e, va);
      r := PageLookup(e, va);
      while r.None?
        invariant Valid() && e in envs && r == Walk(envs[e].slots, Vpn(va)) && envs.Keys == old(envs).Keys
        invariant r.None? ==> S() == old(S()) && !Mapped(envs[e].slots, Pdx(va), Ptx(va))
        invariant r.Some? ==> S() == Refilled(old(S()), e, va) && !Refuses(old(S()), e, va)
        decreases r.None?
      {
        var ok := PassiveAlloc(e, va);
        if !ok {
          return None;
        }
        r := PageLookup(e, va);
      }
    }

    /** The refill handler for `va` in env `e`, with the entries that the random write may evict. */
    method DoTlbRefill(e: nat, va: nat, evicted: set<TlbKey>) returns (r: Option<Pte>)
      requires Valid() && e in envs && va < UTOP
      modifies `ref, `freeList, `envs, `tlb
      ensures Valid() && (r.None? <==> Refuses(old(S()), e, va)) && envs.Keys == old(envs).Keys
      ensures r.Some? ==>
                && e in envs && r == Walk(envs[e].slots, Vpn(va))
                && S() == Refilled(old(S()), e, va).(tlb := tlb)
                && tlb == (Refilled(old(S()), e, va).tlb - evicted)[TlbKey(envs[e].asid, Vpn(va)) := r.value]
    {
      r := LookupOrAlloc(e, va);
      if r.Some? {
        CachedKeeps(S(), e, Vpn(va), r.value, evicted);
        tlb := (tlb - evicted)[TlbKey(envs[e].asid, Vpn(va)) := r.value];
      }
    }

    /** sys_mem_alloc; `target` is the env that envid2env found, if any. */
    method SysMemAlloc(target: Option<nat>, va: nat, perm: Perm) returns (status: Status)
      requires Valid() && (target.Some? ==> target.value in envs)
      modifies `ref, `freeList, `envs, `tlb
      ensures Valid() && envs.Keys == old(envs).Keys
      ensures Illegal(va) || target.None? ==>
                status == (if Illegal(va) then Inval else BadEnv) && S() == old(S())
      ensures !Illegal(va) && target.Some? ==>
                && (status == Ok || status == NoMem)
                && (status == Ok, S()) == AllocMapped(old(S()), target.value, Pdx(va), Ptx(va), perm | PTE_V)
    {
      if Illegal(va) {
        return Inval;
      }
      if target.None? {
        return BadEnv;
      }
      status := AllocAndMap(target.value, va, perm);
    }

    /** page_lookup in one env and page_insert into another, as sys_mem_map and sys_ipc_try_send do. */
    method PassPage(src: nat, srcva: nat, dst: nat, dstva: nat, perm: Perm) returns (status: Status)
      requires Valid() && src in envs && dst in envs && srcva < UTOP && dstva < UTOP
      modifies `ref, `freeList, `envs, `tlb
      ensures (status == Ok || status == NoMem || status == Inval) && envs.Keys == old(envs).Keys
      ensures status == Inval <==> Vpn(srcva) !in old(SpaceOf(src))
      ensures status == NoMem <==> Vpn(srcva) in old(SpaceOf(src)) && old(envs)[dst].slots[Pdx(dstva)].None? && old(freeList) == []
      ensures status != Ok ==> S() == old(S())
      ensures status == Ok ==>
                var p := old(SpaceOf(src))[Vpn(srcva)].page;
                && Mappable(old(S()), p)
                && (true, S()) == PageInserted(old(S()), dst, Pdx(dstva), Ptx(dstva), Pte(p, perm | PTE_V))
                && (Valid() <==> || old(ref)[p] + 1 < REF_LIMIT
                                 || MappedTo(old(S()), dst, Pdx(dstva), Ptx(dstva), p))
    {
      var pte := PageLookup(src, srcva);
      if pte.None? {
        return Inval;
      }
      status := MapInto(dst, pte.value.page, dstva, perm);
    }

    /** page_insert with what its result says about the state. */
    method MapInto(e: nat, pp: nat, va: nat, perm: Perm) returns (status: Status)
      requires Valid() && e in envs && va < UTOP && Mappable(S(), pp)
      modifies `ref, `freeList, `envs, `tlb
      ensures (status == Ok || status == NoMem) && envs.Keys == old(envs).Keys
      ensures status == NoMem <==> old(envs)[e].slots[Pdx(va)].None? && old(freeList) == []
      ensures status == NoMem ==> S() == old(S())
      ensures (status == Ok, S()) == PageInserted(old(S()), e, Pdx(va), Ptx(va), Pte(pp, perm | PTE_V))
      ensures status == Ok ==>
                (Valid() <==> old(ref)[pp] + 1 < REF_LIMIT || MappedTo(old(S()), e, Pdx(va), Ptx(va), pp))
    {
      PageInsertedRefines(S(), e, Pdx(va), Ptx(va), Pte(pp, perm | PTE_V));
      status := PageInsert(e, pp, va, perm);
    }

    /** sys_mem_map: makes `dstva` of one env name the page that `srcva` of another names. */
    method SysMemMap(src: Option<nat>, srcva: nat, dst: Option<nat>, dstva: nat, perm: Perm)
      returns (status: Status)
      requires Valid() && (src.Some? ==> src.value in envs) && (dst.Some? ==> dst.value in envs)
      modifies `ref, `freeList, `envs, `tlb
      ensures status == Inval <==>
                Illegal(srcva) || Illegal(dstva) || (src.Some? && dst.Some? && Vpn(srcva) !in old(SpaceOf(src.value)))
      ensures status == BadEnv <==> !Illegal(srcva) && !Illegal(dstva) && (src.None? || dst.None?)
      ensures status != Ok ==> S() == old(S())
      ensures status != NoFreeEnv
      ensures status == Ok ==>
                && !Illegal(srcva) && !Illegal(dstva) && src.Some? && dst.Some?
                && var p := old(SpaceOf(src.value))[Vpn(srcva)].page;
                   && Mappable(old(S()), p)
                   && (true, S()) == PageInserted(old(S()), dst.value, Pdx(dstva), Ptx(dstva), Pte(p, perm | PTE_V))
                   && (Valid() <==> || old(ref)[p] + 1 < REF_LIMIT
                                    || MappedTo(old(S()), dst.value, Pdx(dstva), Ptx(dstva), p))
    {
      if Illegal(srcva) || Illegal(dstva) {
        return Inval;
      }
      if src.None? || dst.None? {
        return BadEnv;
      }
      status := PassPage(src.value, srcva, dst.value, dstva, perm);
    }

    method SysMemUnmap(target: Option<nat>, va: nat) returns (status: Status)
      requires Valid() && (target.Some? ==> target.value in envs)
      modifies `ref, `freeList, `envs, `tlb
      ensures Valid() && envs.Keys == old(envs).Keys
      ensures Illegal(va) || target.None? ==>
                status == (if Illegal(va) then Inval else BadEnv) && S() == old(S())
      ensures !Illegal(va) && target.Some? ==>
                status == Ok && S() == PageRemoved(old(S()), target.value, Pdx(va), Ptx(va))
    {
      if Illegal(va) {
        return Inval;
      }
      if target.None? {
        return BadEnv;
      }
      PageRemove(target.value, va);
      status := Ok;
    }

    /**
     Any sequence of kernel entries keeps the invariant, and with it exact counts and a coherent TLB, in every state
     on the way. Each entry has its effect under the exact condition for keeping the invariant, and none otherwise;
     false stands for a kernel panic.
     */
    method Run(ops: seq<Op>) returns (ok: bool, ghost trace: seq<Vm>)
      requires Valid()
      modifies this
      ensures Valid()
      ensures ok ==>
                && |trace| == |ops| + 1 && trace[0] == old(S()) && trace[|ops|] == S()
                && (forall i :: 0 <= i <= |ops| ==> Inv(trace[i]) && forall e :: e in trace[i].envs ==> e < NENV)
                && forall i :: 0 <= i < |ops| ==> Did(ops[i], trace[i], trace[i + 1])
    {
      trace := [S()];
      for n := 0 to |ops|
        invariant Valid() && |trace| == n + 1 && trace[0] == old(S()) && trace[n] == S()
        invariant forall i :: 0 <= i <= n ==> Inv(trace[i]) && forall e :: e in trace[i].envs ==> e < NENV
        invariant forall i :: 0 <= i < n ==> Did(ops[i], trace[i], trace[i + 1])
      {
        ok := Step(ops[n]);
        if !ok {
          return;
        }
        trace := trace + [S()];
      }
      ok := true;
    }

    method Step(op: Op) returns (ok: bool)
      requires Valid()
      modifies this
      ensures Valid() && (!op.NewEnv? && !op.FreeEnv? ==> envs.Keys == old(envs).Keys)
      ensures if ok then Did(op, old(S()), S())
              else op.Refill? && op.env in old(envs) && op.va < UTOP && Refuses(old(S()), op.env, op.va)
    {
      ok := true;
      match op {
        case MemAlloc(e, va, perm) =>
          var _ := SysMemAlloc(Lookup(e), va, perm);
        case MemMap(s, srcva, d, dstva, perm) =>
          if !Illegal(srcva) && !Illegal(dstva) {
            GuardedPass(s, srcva, d, dstva, perm);
          }
        case IpcPage(s, srcva, d, dstva, perm) =>
          if !Illegal(srcva) && (dstva == 0 || !Illegal(dstva)) {
            GuardedPass(s, srcva, d, dstva, perm);
          }
        case MemUnmap(e, va) =>
          var _ := SysMemUnmap(Lookup(e), va);
        case Refill(e, va, evicted) =>
          if e in envs && va < UTOP {
            ok := GuardedRefill(e, va, evicted);
          }
        case NewEnv => GuardedAlloc();
        case FreeEnv(e) =>
          if e in envs {
            EnvFree(e);
          }
      }
    }

    method GuardedRefill(e: nat, va: nat, evicted: set<TlbKey>) returns (ok: bool)
      requires Valid() && e in envs && va < UTOP
      modifies `ref, `freeList, `envs, `tlb
      ensures Valid() && envs.Keys == old(envs).Keys
      ensures if ok then Refilling(old(S()), S(), e, va, evicted) else Refuses(old(S()), e, va)
    {
      RefilledRefines(S(), e, va);
      var r := DoTlbRefill(e, va, evicted);
      ok := r.Some?;
    }

    /** env_alloc, where it keeps the counts exact. */
    method GuardedAlloc()
      requires Valid()
      modifies `ref, `freeList, `envs, `envFree, `asidUsed, `lastPgdir
      ensures Valid() && Admitting(old(S()), S())
    {
      if envFree != [] && (freeList != []) == (false in asidUsed) {
        ghost var stale := LastPgdir(envFree[0]);
        var _, asid := EnvAlloc();
        assert Admits(old(S()), S(), stale, asid);
      }
    }

    /** Passes a page on, if its 16-bit count has room or it is mapped there already. */
    method GuardedPass(s: nat, srcva: nat, d: nat, dstva: nat, perm: Perm)
      requires Valid() && srcva < UTOP && dstva < UTOP
      modifies `ref, `freeList, `envs, `tlb
      ensures Valid() && envs.Keys == old(envs).Keys && Passed(old(S()), S(), s, srcva, d, dstva, perm)
    {
      if s in envs && d in envs {
        var pte := PageLookup(s, srcva);
        var there := PageLookup(d, dstva);
        if pte.Some? && (ref[pte.value.page] + 1 < REF_LIMIT || (there.Some? && there.value.page == pte.value.page)) {
          VpnSplits(srcva);
          PageInsertedRefines(S(), d, Pdx(dstva), Ptx(dstva), Pte(pte.value.page, perm | PTE_V));
          var _ := PassPage(s, srcva, d, dstva, perm);
        }
      }
    }

    function Lookup(e: nat): (r: Option<nat>)
      reads this
      ensures (r.Some? <==> e in envs) && (r.Some? ==> r.value == e)
    {
      if e in envs then Some(e) else None
    }
  }
}
