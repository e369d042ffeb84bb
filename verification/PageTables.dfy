/**
 The page tables of all envs as one value: what a two-level table maps, which places of
 the tables name a physical page, and how one update changes both.

 A directory is kept with the env that holds it, together with the number of the page it
 lies in and the env's ASID; only the user half (below UTOP) is modelled, since the kernel
 half is neither counted nor freed by the kernel.
 */
module PageTables {
  import opened Common

  const UTOP: nat := 0x7f40_0000
  const PDX_UTOP: nat := 509
  const ENTRIES: nat := 1024

  type Perm = bv12
  const PTE_V: Perm := 0x200
  const PTE_D: Perm := 0x400
  const PTE_G: Perm := 0x100

  datatype Pte = Pte(page: nat, perm: Perm)
  datatype Table = Table(page: nat, entries: seq<Option<Pte>>)
  type Directory = seq<Option<Table>>
  datatype Env = Env(pgdir: nat, asid: nat, slots: Directory)
  type Envs = map<nat, Env>

  /** PDX: the directory index, bits 22 to 31 of an address. */
  function Pdx(va: nat): (i: nat)
    ensures i < 1024 && (va < UTOP ==> i < PDX_UTOP)
  {
    assert va < UTOP ==> va / 0x40_0000 < PDX_UTOP;
    va / 0x40_0000 % 1024
  }

  /** PTX: the table index, bits 12 to 21. */
  function Ptx(va: nat): (j: nat)
    ensures j < ENTRIES
  {
    va / 4096 % 1024
  }

  function Vpn(va: nat): (v: nat) {
    va / 4096
  }

  /** The page number with directory index `i` and table index `j`. */
  function PageNo(i: nat, j: nat): (v: nat) {
    i * 1024 + j
  }

  /** The directory index and the table index are the two digits of the page number. */
  lemma VpnSplits(va: nat)
    requires va < 0x1_0000_0000
    ensures Vpn(va) == PageNo(Pdx(va), Ptx(va))
    ensures Vpn(va) / 1024 == Pdx(va) && Vpn(va) % 1024 == Ptx(va)
    ensures Vpn(va) * 4096 <= va < (Vpn(va) + 1) * 4096
  {
    assert va / 0x40_0000 == va / 4096 / 1024;
    assert va / 0x40_0000 < 1024;
  }

  /** The page-aligned address that env_free builds from its two loop counters. */
  function Address(pdx: nat, ptx: nat): (va: nat) {
    pdx * 0x40_0000 + ptx * 4096
  }

  lemma PageNoDigits(i: nat, j: nat)
    requires j < 1024
    ensures PageNo(i, j) / 1024 == i && PageNo(i, j) % 1024 == j
  {
  }

  lemma AddressOf(pdx: nat, ptx: nat)
    requires pdx < PDX_UTOP && ptx < ENTRIES
    ensures Address(pdx, ptx) < UTOP && Pdx(Address(pdx, ptx)) == pdx && Ptx(Address(pdx, ptx)) == ptx
  {
    assert Address(pdx, ptx) / 4096 == PageNo(pdx, ptx);
    assert Address(pdx, ptx) / 0x40_0000 == pdx;
    PageNoDigits(pdx, ptx);
  }

  /** PTE_ADDR does not change the page. */
  lemma PageAligned(va: nat)
    ensures var a := va / 4096 * 4096; a <= va && Pdx(a) == Pdx(va) && Ptx(a) == Ptx(va) && Vpn(a) == Vpn(va)
  {
    var a := va / 4096 * 4096;
    assert a / 4096 == va / 4096;
    assert a / 0x40_0000 == a / 4096 / 1024 && va / 0x40_0000 == va / 4096 / 1024;
  }

  /**
   page_insert ors the caller's 32-bit `perm` into the entry without masking it. The entry names the page that was
   meant iff the bits of `perm` above the low 12 are among those of the page number.
   */
  lemma PermKeepsPage(page: bv32, perm: bv32)
    requires page < 0x10_0000
    ensures (((page << 12) | perm) >> 12) == page <==> (perm >> 12) | page == page
  {
  }

  function EmptyTable(): (r: seq<Option<Pte>>)
    ensures |r| == ENTRIES && forall j :: 0 <= j < ENTRIES ==> r[j].None?
  {
    seq(ENTRIES, _ => None)
  }

  function EmptyDirectory(): (r: Directory)
    ensures |r| == PDX_UTOP && forall i :: 0 <= i < PDX_UTOP ==> r[i].None?
  {
    seq(PDX_UTOP, _ => None)
  }

  ghost predicate WellShaped(envs: Envs) {
    forall e :: e in envs ==> DirShape(envs[e].slots)
  }

  ghost predicate DirShape(dir: Directory) {
    && |dir| == PDX_UTOP
    && forall i :: 0 <= i < PDX_UTOP && dir[i].Some? ==> |dir[i].value.entries| == ENTRIES
  }

  /** The entry that a walk of `dir` finds for page number `v`. */
  ghost function Walk(dir: Directory, v: nat): (r: Option<Pte>)
    requires DirShape(dir)
  {
    if v < PDX_UTOP * 1024 && dir[v / 1024].Some?
    then dir[v / 1024].value.entries[v % 1024] else None
  }

  ghost predicate Mapped(dir: Directory, i: nat, j: nat)
    requires DirShape(dir) && i < PDX_UTOP && j < ENTRIES
  {
    dir[i].Some? && dir[i].value.entries[j].Some?
  }

  ghost function PteAt(dir: Directory, i: nat, j: nat): (pte: Pte)
    requires DirShape(dir) && i < PDX_UTOP && j < ENTRIES && Mapped(dir, i, j)
  {
    dir[i].value.entries[j].value
  }

  /** The address space that `dir` stands for: a finite map from page numbers to entries. */
  ghost function Space(dir: Directory): (m: map<nat, Pte>)
    requires DirShape(dir)
  {
    map v: nat | v < PDX_UTOP * 1024 && Walk(dir, v).Some? :: Walk(dir, v).value
  }

  function SetEntry(dir: Directory, i: nat, j: nat, x: Option<Pte>): (r: Directory)
    requires i < |dir| && dir[i].Some? && j < |dir[i].value.entries|
  {
    dir[i := Some(dir[i].value.(entries := dir[i].value.entries[j := x]))]
  }

  function SetEntryAt(envs: Envs, e: nat, i: nat, j: nat, x: Option<Pte>): (r: Envs)
    requires e in envs && i < |envs[e].slots| && envs[e].slots[i].Some?
    requires j < |envs[e].slots[i].value.entries|
  {
    envs[e := envs[e].(slots := SetEntry(envs[e].slots, i, j, x))]
  }

  function SetSlot(envs: Envs, e: nat, i: nat, slot: Option<Table>): (r: Envs)
    requires e in envs && i < |envs[e].slots|
  {
    envs[e := envs[e].(slots := envs[e].slots[i := slot])]
  }

  /** Writing one entry changes the walk of exactly one page number. */
  lemma SetEntryWalks(dir: Directory, i: nat, j: nat, x: Option<Pte>)
    requires DirShape(dir) && i < PDX_UTOP && j < ENTRIES && dir[i].Some?
    ensures DirShape(SetEntry(dir, i, j, x)) && Walk(SetEntry(dir, i, j, x), PageNo(i, j)) == x
    ensures forall v: nat :: v != PageNo(i, j) ==> Walk(SetEntry(dir, i, j, x), v) == Walk(dir, v)
  {
    var k := PageNo(i, j);
    assert k / 1024 == i && k % 1024 == j;
    forall v: nat | v != k ensures Walk(SetEntry(dir, i, j, x), v) == Walk(dir, v) {
      assert v == PageNo(v / 1024, v % 1024);
    }
  }

  /** Writing one entry is an update, or a deletion, at exactly one key of the map. */
  lemma SetEntrySpace(dir: Directory, i: nat, j: nat, x: Option<Pte>)
    requires DirShape(dir) && i < PDX_UTOP && j < ENTRIES && dir[i].Some?
    ensures DirShape(SetEntry(dir, i, j, x))
    ensures Space(SetEntry(dir, i, j, x))
         == if x.Some? then Space(dir)[PageNo(i, j) := x.value] else Space(dir) - {PageNo(i, j)}
  {
    SetEntryWalks(dir, i, j, x);
  }

  /** Hanging an empty table into an empty slot, or taking one out, does not change the map. */
  lemma EmptySlotSpace(dir: Directory, i: nat, slot: Option<Table>)
    requires DirShape(dir) && i < PDX_UTOP
    requires forall j: nat :: j < ENTRIES ==> !Mapped(dir, i, j)
    requires slot.Some? ==> slot.value.entries == EmptyTable()
    ensures DirShape(dir[i := slot])
    ensures forall v: nat :: Walk(dir[i := slot], v) == Walk(dir, v)
    ensures Space(dir[i := slot]) == Space(dir)
  {
    forall v: nat ensures Walk(dir[i := slot], v) == Walk(dir, v) {
      assert v / 1024 == i ==> !Mapped(dir, i, v % 1024);
    }
  }

  /** The places that hold a counted reference to a physical page. */
  datatype Site =
    | DirAt(env: nat)
    | TableAt(env: nat, pdx: nat)
    | EntryAt(env: nat, pdx: nat, ptx: nat)

  ghost predicate Names(envs: Envs, s: Site, p: nat)
    requires WellShaped(envs)
  {
    match s
    case DirAt(e) => e in envs && envs[e].pgdir == p
    case TableAt(e, i) =>
      e in envs && i < PDX_UTOP && envs[e].slots[i].Some? && envs[e].slots[i].value.page == p
    case EntryAt(e, i, j) =>
      && e in envs && i < PDX_UTOP && j < ENTRIES && Mapped(envs[e].slots, i, j)
      && PteAt(envs[e].slots, i, j).page == p
  }

  ghost function Places(envs: Envs): (r: set<Site>) {
    (set e | e in envs :: DirAt(e))
    + (set e, i: nat | e in envs && i < PDX_UTOP :: TableAt(e, i))
    + (set e, i: nat, j: nat | e in envs && i < PDX_UTOP && j < ENTRIES :: EntryAt(e, i, j))
  }

  /** All sites that name page `p`; the kernel's pp_ref is meant to be the size of this set. */
  ghost function Refs(envs: Envs, p: nat): (r: set<Site>)
    requires WellShaped(envs)
    ensures forall s :: s in r <==> Names(envs, s, p)
  {
    set s | s in Places(envs) && Names(envs, s, p)
  }

  ghost predicate Agree(envs: Envs, envs': Envs, s: Site, p: nat)
    requires WellShaped(envs) && WellShaped(envs')
  {
    Names(envs, s, p) <==> Names(envs', s, p)
  }

  /** If only site `s0` may have changed, the number of references moves by what `s0` did. */
  lemma OneSiteChanged(envs: Envs, envs': Envs, s0: Site, p: nat)
    requires WellShaped(envs) && WellShaped(envs')
    requires forall s :: s != s0 ==> Agree(envs, envs', s, p)
    ensures |Refs(envs', p)| == |Refs(envs, p)|
                                - (if Names(envs, s0, p) then 1 else 0)
                                + (if Names(envs', s0, p) then 1 else 0)
  {
    forall s ensures s in Refs(envs', p) - {s0} <==> s in Refs(envs, p) - {s0} {
      assert s != s0 ==> Agree(envs, envs', s, p);
    }
    OneElementChanged(Refs(envs, p), Refs(envs', p), s0);
  }

  lemma OneElementChanged<T>(a: set<T>, b: set<T>, x: T)
    requires a - {x} == b - {x}
    ensures |b| == |a| - (if x in a then 1 else 0) + (if x in b then 1 else 0)
  {
    assert a == if x in a then (a - {x}) + {x} else a - {x};
    assert b == if x in b then (b - {x}) + {x} else b - {x};
  }

  /** Every page the kernel manages carries the exact number of its references. */
  ghost predicate Counted(envs: Envs, ref: seq<nat>, reserved: nat)
    requires WellShaped(envs)
  {
    forall p :: reserved <= p < |ref| ==> ref[p] == |Refs(envs, p)|
  }

  /** Sites name managed pages only, and a page holding a table or directory is named once. */
  ghost predicate Owned(envs: Envs, npage: nat, reserved: nat)
    requires WellShaped(envs)
  {
    && (forall s, p: nat :: Names(envs, s, p) ==> reserved <= p < npage)
    && (forall s, s', p: nat :: Names(envs, s, p) && Names(envs, s', p) && s != s' ==> s.EntryAt? && s'.EntryAt?)
  }

  /** `envs'` names at `s0` page `q`, and elsewhere what `envs` names. */
  ghost predicate Added(envs: Envs, envs': Envs, s0: Site, q: nat)
    requires WellShaped(envs) && WellShaped(envs')
  {
    && (forall s, p :: s != s0 ==> Agree(envs, envs', s, p))
    && (forall p :: !Names(envs, s0, p))
    && (forall p :: Names(envs', s0, p) <==> p == q)
  }

  lemma AddedCounts(envs: Envs, envs': Envs, s0: Site, q: nat, ref: seq<nat>, reserved: nat)
    requires WellShaped(envs) && WellShaped(envs') && Added(envs, envs', s0, q)
    requires Counted(envs, ref, reserved) && reserved <= q < |ref|
    ensures Counted(envs', ref[q := ref[q] + 1], reserved)
    ensures |Refs(envs', q)| == ref[q] + 1
  {
    forall p | reserved <= p < |ref| ensures ref[q := ref[q] + 1][p] == |Refs(envs', p)| {
      OneSiteChanged(envs, envs', s0, p);
    }
  }

  lemma RemovedCounts(envs: Envs, envs': Envs, s0: Site, q: nat, ref: seq<nat>, reserved: nat)
    requires WellShaped(envs) && WellShaped(envs') && Added(envs', envs, s0, q)
    requires Counted(envs, ref, reserved) && reserved <= q < |ref|
    ensures ref[q] > 0 && Counted(envs', ref[q := ref[q] - 1], reserved)
  {
    OneSiteChanged(envs', envs, s0, q);
    forall p | reserved <= p < |ref| ensures ref[q := ref[q] - 1][p] == |Refs(envs', p)| {
      OneSiteChanged(envs', envs, s0, p);
    }
  }

  lemma SameCounts(envs: Envs, envs': Envs, ref: seq<nat>, reserved: nat)
    requires WellShaped(envs) && WellShaped(envs')
    requires forall s, p :: Agree(envs, envs', s, p)
    requires Counted(envs, ref, reserved)
    ensures Counted(envs', ref, reserved)
  {
    forall p | reserved <= p < |ref| ensures ref[p] == |Refs(envs', p)| {
      assert forall s :: Agree(envs, envs', s, p) ==> (s in Refs(envs, p) <==> s in Refs(envs', p));
      assert Refs(envs, p) == Refs(envs', p);
    }
  }

  lemma AddedOwned(envs: Envs, envs': Envs, s0: Site, q: nat, npage: nat, reserved: nat)
    requires WellShaped(envs) && WellShaped(envs') && Added(envs, envs', s0, q)
    requires Owned(envs, npage, reserved) && reserved <= q < npage
    requires forall s :: Names(envs, s, q) ==> s.EntryAt? && s0.EntryAt?
    ensures Owned(envs', npage, reserved)
  {
    forall s, p: nat | Names(envs', s, p)
      ensures reserved <= p < npage && ((s == s0 && p == q) || Names(envs, s, p))
    {
      assert s == s0 || Agree(envs, envs', s, p);
    }
  }

  lemma RemovedOwned(envs: Envs, envs': Envs, s0: Site, q: nat, npage: nat, reserved: nat)
    requires WellShaped(envs) && WellShaped(envs') && Added(envs', envs, s0, q)
    requires Owned(envs, npage, reserved)
    ensures Owned(envs', npage, reserved)
  {
    forall s, p: nat | Names(envs', s, p) ensures Names(envs, s, p) {
      assert s == s0 || Agree(envs', envs, s, p);
    }
  }

  /** Clearing a valid entry takes away exactly the reference of that entry. */
  lemma EntryCleared(envs: Envs, e: nat, i: nat, j: nat)
    requires WellShaped(envs) && e in envs && i < PDX_UTOP && j < ENTRIES && Mapped(envs[e].slots, i, j)
    ensures var envs' := SetEntryAt(envs, e, i, j, None);
            WellShaped(envs') && Added(envs', envs, EntryAt(e, i, j), PteAt(envs[e].slots, i, j).page)
  {
    SetEntryWalks(envs[e].slots, i, j, None);
    var envs' := SetEntryAt(envs, e, i, j, None);
    forall t, p: nat | t != EntryAt(e, i, j) ensures Agree(envs', envs, t, p) {}
  }

  /** Filling an invalid entry adds exactly the reference of that entry. */
  lemma EntryFilled(envs: Envs, e: nat, i: nat, j: nat, pte: Pte)
    requires WellShaped(envs) && e in envs && i < PDX_UTOP && j < ENTRIES
    requires envs[e].slots[i].Some? && !Mapped(envs[e].slots, i, j)
    ensures var envs' := SetEntryAt(envs, e, i, j, Some(pte));
            WellShaped(envs') && Added(envs, envs', EntryAt(e, i, j), pte.page)
  {
    SetEntryWalks(envs[e].slots, i, j, Some(pte));
    var envs' := SetEntryAt(envs, e, i, j, Some(pte));
    forall t, p: nat | t != EntryAt(e, i, j) ensures Agree(envs, envs', t, p) {}
  }

  /** Rewriting the permissions of an entry moves no reference. */
  lemma EntryRepermitted(envs: Envs, e: nat, i: nat, j: nat, pte: Pte)
    requires WellShaped(envs) && e in envs && i < PDX_UTOP && j < ENTRIES && Mapped(envs[e].slots, i, j)
    requires pte.page == PteAt(envs[e].slots, i, j).page
    ensures var envs' := SetEntryAt(envs, e, i, j, Some(pte));
            WellShaped(envs') && forall s, p: nat :: Agree(envs, envs', s, p)
  {
    SetEntryWalks(envs[e].slots, i, j, Some(pte));
    var envs' := SetEntryAt(envs, e, i, j, Some(pte));
    forall s, p: nat ensures Agree(envs, envs', s, p) {}
  }

  /** Hanging an empty table held by page `q` into an empty slot adds one reference to `q`. */
  lemma TableHung(envs: Envs, e: nat, i: nat, q: nat)
    requires WellShaped(envs) && e in envs && i < PDX_UTOP && envs[e].slots[i].None?
    ensures var envs' := SetSlot(envs, e, i, Some(Table(q, EmptyTable())));
            WellShaped(envs') && Added(envs, envs', TableAt(e, i), q)
  {
    var envs' := SetSlot(envs, e, i, Some(Table(q, EmptyTable())));
    forall t, p: nat | t != TableAt(e, i) ensures Agree(envs, envs', t, p) {}
  }

  /** Taking out a table without valid entries removes the one reference to its page. */
  lemma TableDropped(envs: Envs, e: nat, i: nat)
    requires WellShaped(envs) && e in envs && i < PDX_UTOP && envs[e].slots[i].Some?
    requires forall j: nat :: j < ENTRIES ==> !Mapped(envs[e].slots, i, j)
    ensures var envs' := SetSlot(envs, e, i, None);
            WellShaped(envs') && Added(envs', envs, TableAt(e, i), envs[e].slots[i].value.page)
  {
    var envs' := SetSlot(envs, e, i, None);
    forall t, p: nat | t != TableAt(e, i) ensures Agree(envs', envs, t, p) {}
  }

  /** An env without tables is one reference: that to its directory page. */
  lemma DirectoryHung(envs: Envs, e: nat, q: nat, asid: nat)
    requires WellShaped(envs) && e !in envs
    ensures var envs' := envs[e := Env(q, asid, EmptyDirectory())];
            WellShaped(envs') && Added(envs, envs', DirAt(e), q)
  {
    var envs' := envs[e := Env(q, asid, EmptyDirectory())];
    forall t, p: nat | t != DirAt(e) ensures Agree(envs, envs', t, p) {}
  }
}
