/**
 Copy-on-write fork (user/lib/fork.c) against the machine it stands for: one in which every
 page that is not shared by PTE_LIBRARY is copied at once.
 */
module CowFork {
  import VmState

  const PAGE_SIZE: nat := 4096
  /** VPN(UCOW), the page reserved for the fault handler. */
  const UCOW: nat := 0x3ff
  /** VPN(USTACKTOP): fork walks the pages below it. */
  const USTACK: nat := VmState.USTACKTOP / PAGE_SIZE
  const ZERO: bv8 := 0

  type Data = d: seq<bv8> | |d| == PAGE_SIZE witness seq(PAGE_SIZE, _ => ZERO)

  function Zeroes(): (d: Data) {
    seq(PAGE_SIZE, _ => ZERO)
  }

  /** Virtual page `vpn` of env `env`. */
  datatype Spot = Spot(env: nat, vpn: nat)
  datatype Pte = Pte(page: nat, d: bool, cow: bool, library: bool)

  /** The page tables of all envs, and the contents of physical pages. */
  datatype Sys = Sys(pt: map<Spot, Pte>, frames: map<nat, Data>)
  {
    /** No env maps the page: what page_alloc returns. */
    ghost predicate Fresh(page: nat) {
      forall x :: x in pt ==> pt[x].page != page
    }
  }

  /** Two mappings of one page are both shared, or both private and write-protected. */
  predicate MayAlias(a: Pte, b: Pte) {
    if a.library || b.library then a.library && b.library else !a.d && !b.d
  }

  /** PTE_COW goes with write protection on a private page; on a shared one it must have no effect. */
  predicate Markable(pte: Pte) {
    pte.cow ==> (pte.d <==> pte.library)
  }

  /** Every page is marked so, and the handler's page is free. */
  ghost predicate WellMarked(s: Sys) {
    forall x :: x in s.pt ==> s.pt[x].page in s.frames && Markable(s.pt[x]) && x.vpn != UCOW
  }

  ghost predicate Inv(s: Sys) {
    && WellMarked(s)
    && forall x, y :: x in s.pt && y in s.pt && x != y && s.pt[x].page == s.pt[y].page ==> MayAlias(s.pt[x], s.pt[y])
  }

  /** A page of the eager machine: its own bytes, or a name in the shared store. */
  datatype Cell = Private(data: Data, writable: bool) | Shared(id: nat, writable: bool)
  datatype Eager = Eager(cells: map<Spot, Cell>, store: map<nat, Data>)

  function ViewOf(frames: map<nat, Data>, pte: Pte): (c: Cell)
    requires pte.page in frames
  {
    if pte.library then Shared(pte.page, pte.d) else Private(frames[pte.page], pte.d || pte.cow)
  }

  /** The eager machine `e` shows each env the pages that `s` maps for it. */
  ghost predicate Refines(s: Sys, e: Eager) {
    && e.cells.Keys == s.pt.Keys
    && forall x :: x in s.pt ==>
         && s.pt[x].page in s.frames && e.cells[x] == ViewOf(s.frames, s.pt[x])
         && (s.pt[x].library ==> s.pt[x].page in e.store && e.store[s.pt[x].page] == s.frames[s.pt[x].page])
  }

  /** What an env reads: a page it does not have is given to it zeroed. */
  function Read(s: Sys, x: Spot, off: nat): (b: bv8)
    requires off < PAGE_SIZE && (x in s.pt ==> s.pt[x].page in s.frames)
  {
    if x in s.pt then s.frames[s.pt[x].page][off] else ZERO
  }

  predicate Named(e: Eager, x: Spot) {
    x in e.cells && e.cells[x].Shared? ==> e.cells[x].id in e.store
  }

  function EagerRead(e: Eager, x: Spot, off: nat): (b: bv8)
    requires off < PAGE_SIZE && Named(e, x)
  {
    if x !in e.cells then ZERO
    else match e.cells[x]
      case Private(d, _) => d[off]
      case Shared(id, _) => e.store[id][off]
  }

  /** Refinement is indistinguishability: every env reads the same bytes in both machines. */
  lemma RefinesMeansSameReads(s: Sys, e: Eager, x: Spot, off: nat)
    requires Inv(s) && Refines(s, e) && off < PAGE_SIZE
    ensures Named(e, x) && Read(s, x, off) == EagerRead(e, x, off)
  {
    if x in s.pt {
      assert e.cells[x] == ViewOf(s.frames, s.pt[x]);
    } else {
      assert x !in e.cells;
    }
  }

  // The operations on the implementation.

  function Alloc(s: Sys, x: Spot, pte: Pte): (t: Sys) {
    Sys(s.pt[x := pte], s.frames[pte.page := Zeroes()])
  }

  /** cow_entry: a private writable copy of the page replaces the protected one. */
  function CowCopy(s: Sys, x: Spot, page: nat): (t: Sys)
    requires x in s.pt && s.pt[x].page in s.frames
  {
    Sys(s.pt[x := s.pt[x].(page := page, d := true, cow := false)], s.frames[page := s.frames[s.pt[x].page]])
  }

  /** A store of one byte through a writable mapping. */
  function Poke(s: Sys, x: Spot, off: nat, b: bv8): (t: Sys)
    requires x in s.pt && s.pt[x].page in s.frames && off < PAGE_SIZE
  {
    s.(frames := s.frames[s.pt[x].page := s.frames[s.pt[x].page][off := b]])
  }

  /** A store of one byte, with the faults it may take; `page` is what the kernel would allocate. */
  function Store(s: Sys, x: Spot, off: nat, b: bv8, page: nat): (t: Sys)
    requires off < PAGE_SIZE && (x in s.pt ==> s.pt[x].page in s.frames)
  {
    if x !in s.pt then Poke(Alloc(s, x, Pte(page, true, false, false)), x, off, b)
    else if s.pt[x].d then Poke(s, x, off, b)
    else if s.pt[x].cow then Poke(CowCopy(s, x, page), x, off, b)
    else s
  }

  /** duppage: the child gets the page, write-protected on both sides if it is private and writable. */
  function Dup(s: Sys, parent: nat, child: nat, vpn: nat): (t: Sys)
    requires Spot(parent, vpn) in s.pt
  {
    var pte := s.pt[Spot(parent, vpn)];
    if !pte.d || pte.cow || pte.library then s.(pt := s.pt[Spot(child, vpn) := pte])
    else
      var marked := pte.(d := false, cow := true);
      s.(pt := s.pt[Spot(child, vpn) := marked][Spot(parent, vpn) := marked])
  }

  /** sys_mem_map of a shared page to another place, as dup of a descriptor does. */
  function Share(s: Sys, x: Spot, y: Spot, d: bool): (t: Sys)
    requires x in s.pt
  {
    s.(pt := s.pt[y := Pte(s.pt[x].page, d, false, true)])
  }

  function Unmap(s: Sys, x: Spot): (t: Sys) {
    s.(pt := s.pt - {x})
  }

  /** The duppage loop of fork, over the pages below `n`. */
  function DupBelow(s: Sys, parent: nat, child: nat, n: nat): (t: Sys)
  {
    if n == 0 then s
    else
      var t := DupBelow(s, parent, child, n - 1);
      if Spot(parent, n - 1) in t.pt then Dup(t, parent, child, n - 1) else t
  }

  // The same operations on the eager machine.

  function EagerAlloc(e: Eager, x: Spot, pte: Pte): (f: Eager) {
    if pte.library then Eager(e.cells[x := Shared(pte.page, pte.d)], e.store[pte.page := Zeroes()])
    else e.(cells := e.cells[x := Private(Zeroes(), pte.d || pte.cow)])
  }

  function EagerStore(e: Eager, x: Spot, off: nat, b: bv8): (f: Eager)
    requires off < PAGE_SIZE && Named(e, x)
  {
    if x !in e.cells then e.(cells := e.cells[x := Private(Zeroes()[off := b], true)])
    else if !e.cells[x].writable then e
    else match e.cells[x]
      case Private(d, w) => e.(cells := e.cells[x := Private(d[off := b], w)])
      case Shared(id, w) => e.(store := e.store[id := e.store[id][off := b]])
  }

  /** An eager copy: private bytes are copied by value, shared pages by name. */
  function EagerDup(e: Eager, parent: nat, child: nat, vpn: nat): (f: Eager)
    requires Spot(parent, vpn) in e.cells
  {
    e.(cells := e.cells[Spot(child, vpn) := e.cells[Spot(parent, vpn)]])
  }

  /** An eager fork: the parent's pages below `n` are copied one after the other. */
  function EagerFork(e: Eager, parent: nat, child: nat, n: nat): (f: Eager) {
    if n == 0 then e
    else
      var f := EagerFork(e, parent, child, n - 1);
      if Spot(parent, n - 1) in f.cells then EagerDup(f, parent, child, n - 1) else f
  }

  /** The page of the child that an eager fork takes from the parent. */
  predicate Copied(e: Eager, parent: nat, child: nat, n: nat, x: Spot) {
    x.env == child && x.vpn < n && Spot(parent, x.vpn) in e.cells
  }

  /** An eager fork gives the child the parent's pages of the moment and changes nothing else. */
  lemma {:induction false} EagerForkIsSnapshot(e: Eager, parent: nat, child: nat, n: nat)
    requires child != parent
    ensures EagerFork(e, parent, child, n).store == e.store
    ensures forall x :: x in EagerFork(e, parent, child, n).cells <==> x in e.cells || Copied(e, parent, child, n, x)
    ensures forall x :: x in EagerFork(e, parent, child, n).cells ==>
              EagerFork(e, parent, child, n).cells[x]
              == if Copied(e, parent, child, n, x) then e.cells[Spot(parent, x.vpn)] else e.cells[x]
  {
    if n > 0 {
      EagerForkIsSnapshot(e, parent, child, n - 1);
    }
  }

  /** Two pages of the eager machine hold the same bytes for good: they are one page, or two names of one shared page. */
  predicate SamePage(e: Eager, x: Spot, y: Spot) {
    x == y || (x in e.cells && y in e.cells && e.cells[x].Shared? && e.cells[y].Shared? && e.cells[x].id == e.cells[y].id)
  }

  /** The byte can be changed: the page is not there yet, or it is writable. */
  predicate Takes(e: Eager, x: Spot) {
    x in e.cells ==> e.cells[x].writable
  }

  /** A store on the eager machine: that byte of that page, through each of its names, and no other. */
  lemma EagerStoreReads(e: Eager, x: Spot, off: nat, b: bv8, y: Spot, o: nat)
    requires off < PAGE_SIZE && o < PAGE_SIZE && Named(e, x) && Named(e, y)
    ensures Named(EagerStore(e, x, off, b), y)
    ensures EagerRead(EagerStore(e, x, off, b), y, o)
         == if o == off && SamePage(e, x, y) && Takes(e, x) then b else EagerRead(e, y, o)
    ensures y in EagerStore(e, x, off, b).cells <==> y in e.cells || y == x
    ensures Takes(EagerStore(e, x, off, b), y) <==> Takes(e, y)
  {
  }

  /** A page given by sys_mem_alloc reads zero and takes stores as its permissions say; no other page changes. */
  lemma EagerAllocReads(e: Eager, x: Spot, pte: Pte, y: Spot, o: nat)
    requires o < PAGE_SIZE && Named(e, y)
    requires forall z :: z in e.cells && e.cells[z].Shared? ==> e.cells[z].id != pte.page
    ensures Named(EagerAlloc(e, x, pte), y)
    ensures EagerRead(EagerAlloc(e, x, pte), y, o) == if y == x then ZERO else EagerRead(e, y, o)
    ensures y in EagerAlloc(e, x, pte).cells <==> y in e.cells || y == x
    ensures Takes(EagerAlloc(e, x, pte), x) <==> pte.d || (pte.cow && !pte.library)
    ensures y != x ==> (Takes(EagerAlloc(e, x, pte), y) <==> Takes(e, y))
    ensures SamePage(EagerAlloc(e, x, pte), x, y) <==> x == y
  {
  }

  /** A shared page under a second name: both read the same, now and after every store to either. */
  lemma EagerShareReads(e: Eager, x: Spot, y: Spot, d: bool, z: Spot, o: nat)
    requires o < PAGE_SIZE && Named(e, x) && Named(e, z) && x in e.cells && e.cells[x].Shared?
    ensures Named(EagerShare(e, x, y, d), z)
    ensures EagerRead(EagerShare(e, x, y, d), z, o) == EagerRead(e, if z == y then x else z, o)
    ensures z in EagerShare(e, x, y, d).cells <==> z in e.cells || z == y
    ensures SamePage(EagerShare(e, x, y, d), x, y) && (Takes(EagerShare(e, x, y, d), y) <==> d)
    ensures z != y ==> (Takes(EagerShare(e, x, y, d), z) <==> Takes(e, z))
  {
  }

  lemma EagerUnmapReads(e: Eager, x: Spot, y: Spot, o: nat)
    requires o < PAGE_SIZE && Named(e, y)
    ensures Named(EagerUnmap(e, x), y) && EagerRead(EagerUnmap(e, x), y, o) == if y == x then ZERO else EagerRead(e, y, o)
    ensures y in EagerUnmap(e, x).cells <==> y in e.cells && y != x
    ensures y != x ==> (Takes(EagerUnmap(e, x), y) <==> Takes(e, y))
  {
  }

  function EagerShare(e: Eager, x: Spot, y: Spot, d: bool): (f: Eager)
    requires x in e.cells && e.cells[x].Shared?
  {
    e.(cells := e.cells[y := Shared(e.cells[x].id, d)])
  }

  function EagerUnmap(e: Eager, x: Spot): (f: Eager) {
    e.(cells := e.cells - {x})
  }

  // Each operation keeps the invariant and the refinement.

  lemma AllocKeeps(s: Sys, x: Spot, pte: Pte)
    requires Inv(s) && x.vpn != UCOW && s.Fresh(pte.page) && Markable(pte)
    ensures Inv(Alloc(s, x, pte))
  {
  }

  lemma AllocSimulates(s: Sys, e: Eager, x: Spot, pte: Pte)
    requires Inv(s) && Refines(s, e) && x.vpn != UCOW && s.Fresh(pte.page) && Markable(pte)
    ensures Inv(Alloc(s, x, pte)) && Refines(Alloc(s, x, pte), EagerAlloc(e, x, pte))
  {
    AllocKeeps(s, x, pte);
    AllocRefines(s, e, x, pte);
  }

  lemma AllocRefines(s: Sys, e: Eager, x: Spot, pte: Pte)
    requires WellMarked(s) && Refines(s, e) && s.Fresh(pte.page) && Markable(pte)
    ensures Refines(Alloc(s, x, pte), EagerAlloc(e, x, pte))
  {
    var t, f := Alloc(s, x, pte), EagerAlloc(e, x, pte);
    forall y | y in t.pt && y != x ensures f.cells[y] == ViewOf(t.frames, t.pt[y]) {
      assert e.cells[y] == ViewOf(s.frames, s.pt[y]);
    }
  }

  lemma CowCopyKeeps(s: Sys, x: Spot, page: nat)
    requires Inv(s) && x in s.pt && s.pt[x].cow && !s.pt[x].d && s.Fresh(page)
    ensures Inv(CowCopy(s, x, page))
  {
  }

  lemma CowCopySimulates(s: Sys, e: Eager, x: Spot, page: nat)
    requires Inv(s) && Refines(s, e) && x in s.pt && s.pt[x].cow && !s.pt[x].d && s.Fresh(page)
    ensures Inv(CowCopy(s, x, page)) && Refines(CowCopy(s, x, page), e)
  {
    CowCopyKeeps(s, x, page);
  }

  lemma PokeKeeps(s: Sys, x: Spot, off: nat, b: bv8)
    requires Inv(s) && x in s.pt && off < PAGE_SIZE
    ensures Inv(Poke(s, x, off, b))
  {
  }

  /** Another private mapping is of another page, for a page that is mapped twice is writable nowhere. */
  lemma PokeIsPrivate(s: Sys, x: Spot, y: Spot)
    requires Inv(s) && x in s.pt && s.pt[x].d && y in s.pt && y != x && s.pt[x].page == s.pt[y].page
    ensures s.pt[x].library && s.pt[y].library
  {
  }

  lemma PokeSimulates(s: Sys, e: Eager, x: Spot, off: nat, b: bv8)
    requires Inv(s) && Refines(s, e) && x in s.pt && s.pt[x].d && off < PAGE_SIZE
    ensures Named(e, x)
    ensures Inv(Poke(s, x, off, b)) && Refines(Poke(s, x, off, b), EagerStore(e, x, off, b))
  {
    PokeKeeps(s, x, off, b);
    assert e.cells[x] == ViewOf(s.frames, s.pt[x]);
    var t, f := Poke(s, x, off, b), EagerStore(e, x, off, b);
    forall y | y in t.pt && y != x ensures f.cells[y] == ViewOf(t.frames, t.pt[y]) {
      assert e.cells[y] == ViewOf(s.frames, s.pt[y]);
      if s.pt[x].page == s.pt[y].page {
        PokeIsPrivate(s, x, y);
      }
    }
  }

  lemma DupKeeps(s: Sys, parent: nat, child: nat, vpn: nat)
    requires Inv(s) && Spot(parent, vpn) in s.pt && child != parent
    ensures Inv(Dup(s, parent, child, vpn))
  {
    var p, c, t := Spot(parent, vpn), Spot(child, vpn), Dup(s, parent, child, vpn);
    forall x, y | x in t.pt && y in t.pt && x != y && t.pt[x].page == t.pt[y].page ensures MayAlias(t.pt[x], t.pt[y]) {
      // every mapping of `t` but the child's was there in `s`, at most with PTE_D turned into PTE_COW
      var x', y' := if x == c then p else x, if y == c then p else y;
      assert s.pt[x'].page == s.pt[y'].page;
      assert x' == y' || MayAlias(s.pt[x'], s.pt[y']);
    }
  }

  lemma DupSimulates(s: Sys, e: Eager, parent: nat, child: nat, vpn: nat)
    requires Inv(s) && Refines(s, e) && Spot(parent, vpn) in s.pt && child != parent
    ensures Spot(parent, vpn) in e.cells
    ensures Refines(Dup(s, parent, child, vpn), EagerDup(e, parent, child, vpn))
  {
    assert e.cells[Spot(parent, vpn)] == ViewOf(s.frames, s.pt[Spot(parent, vpn)]);
  }

  lemma {:induction false} ForkSimulates(s: Sys, e: Eager, parent: nat, child: nat, n: nat)
    requires Inv(s) && Refines(s, e) && child != parent
    ensures Inv(DupBelow(s, parent, child, n)) && Refines(DupBelow(s, parent, child, n), EagerFork(e, parent, child, n))
  {
    if n > 0 {
      ForkSimulates(s, e, parent, child, n - 1);
      var t, f := DupBelow(s, parent, child, n - 1), EagerFork(e, parent, child, n - 1);
      if Spot(parent, n - 1) in t.pt {
        DupKeeps(t, parent, child, n - 1);
        DupSimulates(t, f, parent, child, n - 1);
      }
    }
  }

  /** The duppage loop changes no byte, and names for the child exactly the pages that the parent has below `n`. */
  lemma {:induction false} DupBelowPages(s: Sys, parent: nat, child: nat, n: nat)
    requires child != parent
    ensures DupBelow(s, parent, child, n).frames == s.frames
    ensures forall x :: x in DupBelow(s, parent, child, n).pt <==> x in s.pt || (x.env == child && x.vpn < n && Spot(parent, x.vpn) in s.pt)
    ensures forall x :: x in DupBelow(s, parent, child, n).pt ==>
              DupBelow(s, parent, child, n).pt[x].page
              == (if x.env == child && x.vpn < n && Spot(parent, x.vpn) in s.pt then s.pt[Spot(parent, x.vpn)] else s.pt[x]).page
  {
    if n > 0 {
      DupBelowPages(s, parent, child, n - 1);
    }
  }

  /** After a fork the child reads at every address of a page below USTACKTOP what the parent read, and nobody else sees a change. */
  lemma ForkReads(s: Sys, parent: nat, child: nat, va: nat, env: nat)
    requires Inv(s) && child != parent
    ensures Inv(DupBelow(s, parent, child, USTACK))
    ensures var x := Spot(env, va / 4096);
            var from := if env == child && va < VmState.USTACKTOP && Spot(parent, va / 4096) in s.pt then Spot(parent, va / 4096) else x;
            var t := DupBelow(s, parent, child, USTACK);
            && (x in t.pt <==> from in s.pt) && (x in t.pt ==> t.pt[x].page in t.frames)
            && Read(t, x, va % 4096) == Read(s, from, va % 4096)
  {
    StepKeepsInv(s, OpFork(parent, child));
    DupBelowPages(s, parent, child, USTACK);
  }

  // Runs.

  datatype Op =
    | OpAlloc(x: Spot, pte: Pte)
    | OpStore(x: Spot, off: nat, b: bv8, page: nat)
    | OpDup(parent: nat, child: nat, vpn: nat)
    | OpFork(parent: nat, child: nat)
    | OpShare(x: Spot, y: Spot, d: bool)
    | OpUnmap(x: Spot)

  /** What the callers and the page allocator promise: nobody else uses UCOW, pages are markable and fresh. */
  ghost predicate Enabled(s: Sys, op: Op) {
    match op
    case OpAlloc(x, pte) => x.vpn != UCOW && Markable(pte) && s.Fresh(pte.page)
    case OpStore(x, off, b, page) => x.vpn != UCOW && off < PAGE_SIZE && s.Fresh(page)
    case OpDup(parent, child, vpn) => child != parent && Spot(parent, vpn) in s.pt
    case OpFork(parent, child) => child != parent
    case OpShare(x, y, d) => x in s.pt && s.pt[x].library && y.vpn != UCOW
    case OpUnmap(x) => true
  }

  ghost function Step(s: Sys, op: Op): (t: Sys)
    requires Inv(s) && Enabled(s, op)
  {
    match op
    case OpAlloc(x, pte) => Alloc(s, x, pte)
    case OpStore(x, off, b, page) => Store(s, x, off, b, page)
    case OpDup(parent, child, vpn) => Dup(s, parent, child, vpn)
    case OpFork(parent, child) => DupBelow(s, parent, child, USTACK)
    case OpShare(x, y, d) => Share(s, x, y, d)
    case OpUnmap(x) => Unmap(s, x)
  }

  ghost predicate EagerEnabled(e: Eager, op: Op) {
    match op
    case OpStore(x, off, _, _) => off < PAGE_SIZE && Named(e, x)
    case OpDup(parent, _, vpn) => Spot(parent, vpn) in e.cells
    case OpShare(x, _, _) => x in e.cells && e.cells[x].Shared?
    case _ => true
  }

  ghost function EagerStep(e: Eager, op: Op): (f: Eager)
    requires EagerEnabled(e, op)
  {
    match op
    case OpAlloc(x, pte) => EagerAlloc(e, x, pte)
    case OpStore(x, off, b, page) => EagerStore(e, x, off, b)
    case OpDup(parent, child, vpn) => EagerDup(e, parent, child, vpn)
    case OpFork(parent, child) => EagerFork(e, parent, child, USTACK)
    case OpShare(x, y, d) => EagerShare(e, x, y, d)
    case OpUnmap(x) => EagerUnmap(e, x)
  }

  /** A store to a page that the env does not have: the kernel gives it a zeroed page first. */
  lemma FirstStoreSimulates(s: Sys, e: Eager, x: Spot, off: nat, b: bv8, page: nat)
    requires Inv(s) && Refines(s, e) && x.vpn != UCOW && off < PAGE_SIZE && s.Fresh(page) && x !in s.pt
    ensures Inv(Store(s, x, off, b, page)) && Refines(Store(s, x, off, b, page), EagerStore(e, x, off, b))
  {
    var pte := Pte(page, true, false, false);
    AllocSimulates(s, e, x, pte);
    PokeSimulates(Alloc(s, x, pte), EagerAlloc(e, x, pte), x, off, b);
    EagerFirstStore(e, x, off, b, pte);
  }

  lemma EagerFirstStore(e: Eager, x: Spot, off: nat, b: bv8, pte: Pte)
    requires x !in e.cells && off < PAGE_SIZE && pte.d && !pte.library
    ensures Named(EagerAlloc(e, x, pte), x)
    ensures EagerStore(EagerAlloc(e, x, pte), x, off, b) == EagerStore(e, x, off, b)
  {
    var f := EagerAlloc(e, x, pte);
    assert e.cells[x := Private(Zeroes(), true)][x := Private(Zeroes()[off := b], true)]
        == e.cells[x := Private(Zeroes()[off := b], true)];
  }

  lemma StoreSimulates(s: Sys, e: Eager, x: Spot, off: nat, b: bv8, page: nat)
    requires Inv(s) && Refines(s, e) && x.vpn != UCOW && off < PAGE_SIZE && s.Fresh(page)
    ensures Named(e, x)
    ensures Inv(Store(s, x, off, b, page)) && Refines(Store(s, x, off, b, page), EagerStore(e, x, off, b))
  {
    if x !in s.pt {
      FirstStoreSimulates(s, e, x, off, b, page);
    } else if s.pt[x].d {
      PokeSimulates(s, e, x, off, b);
    } else if s.pt[x].cow {
      CowCopySimulates(s, e, x, page);
      PokeSimulates(CowCopy(s, x, page), e, x, off, b);
    } else {
      assert e.cells[x] == ViewOf(s.frames, s.pt[x]);
    }
  }

  lemma StepSimulates(s: Sys, e: Eager, op: Op)
    requires Inv(s) && Refines(s, e) && Enabled(s, op)
    ensures EagerEnabled(e, op)
    ensures Inv(Step(s, op)) && Refines(Step(s, op), EagerStep(e, op))
  {
    match op
    case OpAlloc(x, pte) => AllocSimulates(s, e, x, pte);
    case OpStore(x, off, b, page) => StoreSimulates(s, e, x, off, b, page);
    case OpDup(parent, child, vpn) =>
      DupKeeps(s, parent, child, vpn);
      DupSimulates(s, e, parent, child, vpn);
    case OpFork(parent, child) => ForkSimulates(s, e, parent, child, USTACK);
    case OpShare(x, y, d) => ShareSimulates(s, e, x, y, d);
    case OpUnmap(x) =>
  }

  lemma ShareSimulates(s: Sys, e: Eager, x: Spot, y: Spot, d: bool)
    requires Inv(s) && Refines(s, e) && x in s.pt && s.pt[x].library && y.vpn != UCOW
    ensures x in e.cells && e.cells[x].Shared?
    ensures Inv(Share(s, x, y, d)) && Refines(Share(s, x, y, d), EagerShare(e, x, y, d))
  {
    assert e.cells[x] == ViewOf(s.frames, s.pt[x]);
    ShareKeeps(s, x, y, d);
  }

  lemma ShareKeeps(s: Sys, x: Spot, y: Spot, d: bool)
    requires Inv(s) && x in s.pt && s.pt[x].library && y.vpn != UCOW
    ensures Inv(Share(s, x, y, d))
  {
  }

  lemma StepKeepsInv(s: Sys, op: Op)
    requires Inv(s) && Enabled(s, op)
    ensures Inv(Step(s, op))
  {
    var e := Eager(map x | x in s.pt :: ViewOf(s.frames, s.pt[x]), s.frames);
    StepSimulates(s, e, op);
  }

  /** Every operation of the run meets the promises of `Enabled` when its turn comes. */
  ghost predicate CanRun(s: Sys, ops: seq<Op>)
    requires Inv(s)
    decreases |ops|
  {
    ops == [] || (Enabled(s, ops[0]) && (StepKeepsInv(s, ops[0]); CanRun(Step(s, ops[0]), ops[1..])))
  }

  ghost function Run(s: Sys, ops: seq<Op>): (t: Sys)
    requires Inv(s) && CanRun(s, ops)
    decreases |ops|
  {
    if ops == [] then s
    else
      StepKeepsInv(s, ops[0]);
      Run(Step(s, ops[0]), ops[1..])
  }

  ghost predicate EagerCanRun(e: Eager, ops: seq<Op>)
    decreases |ops|
  {
    ops == [] || (EagerEnabled(e, ops[0]) && EagerCanRun(EagerStep(e, ops[0]), ops[1..]))
  }

  ghost function EagerRun(e: Eager, ops: seq<Op>): (f: Eager)
    requires EagerCanRun(e, ops)
    decreases |ops|
  {
    if ops == [] then e else EagerRun(EagerStep(e, ops[0]), ops[1..])
  }

  /** Over every run, copy-on-write simulates eager copying. */
  lemma {:induction false} RunSimulates(s: Sys, e: Eager, ops: seq<Op>)
    requires Inv(s) && Refines(s, e) && CanRun(s, ops)
    ensures EagerCanRun(e, ops) && Inv(Run(s, ops)) && Refines(Run(s, ops), EagerRun(e, ops))
    decreases |ops|
  {
    if ops != [] {
      StepSimulates(s, e, ops[0]);
      RunSimulates(Step(s, ops[0]), EagerStep(e, ops[0]), ops[1..]);
    }
  }

  /** Over every run, each env reads at each address what it would read had fork copied every page. */
  lemma ForkReadsLikeEagerCopy(s: Sys, e: Eager, ops: seq<Op>, x: Spot, off: nat)
    requires Inv(s) && Refines(s, e) && CanRun(s, ops) && off < PAGE_SIZE
    ensures EagerCanRun(e, ops) && Named(EagerRun(e, ops), x)
    ensures x in Run(s, ops).pt ==> Run(s, ops).pt[x].page in Run(s, ops).frames
    ensures Read(Run(s, ops), x, off) == EagerRead(EagerRun(e, ops), x, off)
  {
    RunSimulates(s, e, ops);
    RefinesMeansSameReads(Run(s, ops), EagerRun(e, ops), x, off);
  }

  /** A page allocated in the parent, passed on by duppage, and then written by the child. */
  function ChildWrites(s: Sys, parent: nat, child: nat, vpn: nat, pte: Pte, off: nat, b: bv8, page: nat): (t: Sys)
    requires off < PAGE_SIZE && child != parent
  {
    Store(Dup(Alloc(s, Spot(parent, vpn), pte), parent, child, vpn), Spot(child, vpn), off, b, page)
  }

  function EagerChildWrites(e: Eager, parent: nat, child: nat, vpn: nat, pte: Pte, off: nat, b: bv8): (f: Eager)
    requires off < PAGE_SIZE && child != parent
  {
    var d := EagerDup(EagerAlloc(e, Spot(parent, vpn), pte), parent, child, vpn);
    EagerStore(d, Spot(child, vpn), off, b)
  }

  lemma ChildWritesReads(s: Sys, parent: nat, child: nat, vpn: nat, pte: Pte, off: nat, b: bv8, page: nat)
    requires child != parent && off < PAGE_SIZE && page != pte.page
    ensures var t, p, c := ChildWrites(s, parent, child, vpn, pte, off, b, page), Spot(parent, vpn), Spot(child, vpn);
            && p in t.pt && t.pt[p].page in t.frames && c in t.pt && t.pt[c].page in t.frames
            && Read(t, p, off) == (if pte.d && (pte.cow || pte.library) then b else ZERO)
            && Read(t, c, off) == (if pte.d || pte.cow then b else ZERO)
  {
  }

  lemma EagerChildWritesReads(e: Eager, parent: nat, child: nat, vpn: nat, pte: Pte, off: nat, b: bv8)
    requires child != parent && off < PAGE_SIZE
    ensures var f, p, c := EagerChildWrites(e, parent, child, vpn, pte, off, b), Spot(parent, vpn), Spot(child, vpn);
            && Named(f, p) && Named(f, c)
            && EagerRead(f, p, off) == (if pte.d && pte.library then b else ZERO)
            && EagerRead(f, c, off) == (if pte.d || (pte.cow && !pte.library) then b else ZERO)
  {
  }

  /** A child's write to a private page leaks to the parent exactly if the page has both PTE_D and PTE_COW. */
  lemma LeaksIffWritableCow(s: Sys, parent: nat, child: nat, vpn: nat, pte: Pte, off: nat, b: bv8, page: nat)
    requires child != parent && off < PAGE_SIZE && b != ZERO && !pte.library && page != pte.page
    ensures var t, p := ChildWrites(s, parent, child, vpn, pte, off, b, page), Spot(parent, vpn);
            p in t.pt && t.pt[p].page in t.frames && (Read(t, p, off) == ZERO <==> !(pte.d && pte.cow))
  {
    ChildWritesReads(s, parent, child, vpn, pte, off, b, page);
  }

  /**
   The guard on allocations is exact: copy-on-write and eager copying agree on what parent and child read after
   such a write exactly for markable pages.
   */
  lemma AgreesIffMarkable(s: Sys, e: Eager, parent: nat, child: nat, vpn: nat, pte: Pte, off: nat, b: bv8, page: nat)
    requires child != parent && off < PAGE_SIZE && b != ZERO && page != pte.page
    ensures var t, f := ChildWrites(s, parent, child, vpn, pte, off, b, page), EagerChildWrites(e, parent, child, vpn, pte, off, b);
            var p, c := Spot(parent, vpn), Spot(child, vpn);
            && p in t.pt && t.pt[p].page in t.frames && c in t.pt && t.pt[c].page in t.frames && Named(f, p) && Named(f, c)
            && (Read(t, p, off) == EagerRead(f, p, off) && Read(t, c, off) == EagerRead(f, c, off) <==> Markable(pte))
  {
    ChildWritesReads(s, parent, child, vpn, pte, off, b, page);
    EagerChildWritesReads(e, parent, child, vpn, pte, off, b);
  }

  /** The machine on which fork.c runs, changed by system calls. */
  class Machine {
    var pt: map<Spot, Pte>
    var frames: map<nat, Data>

    ghost function S(): (s: Sys)
      reads this
    {
      Sys(pt, frames)
    }

    method MemAlloc(x: Spot, pte: Pte)
      modifies this
      ensures S() == Alloc(old(S()), x, pte)
    {
      frames := frames[pte.page := Zeroes()];
      pt := pt[x := pte];
    }

    method MemMap(x: Spot, y: Spot, d: bool, cow: bool, library: bool)
      requires x in pt
      modifies `pt
      ensures pt == old(pt)[y := Pte(old(pt)[x].page, d, cow, library)]
    {
      pt := pt[y := Pte(pt[x].page, d, cow, library)];
    }

    method MemUnmap(x: Spot)
      modifies `pt
      ensures pt == old(pt) - {x}
    {
      pt := pt - {x};
    }

    /** cow_entry: panics unless the page is copy-on-write, else replaces it by a private writable copy. */
    method CowEntry(x: Spot, page: nat) returns (ok: bool)
      requires Inv(S()) && x in pt && S().Fresh(page)
      modifies this
      ensures ok == old(pt)[x].cow
      ensures S() == if ok then CowCopy(old(S()), x, page) else old(S())
    {
      var pte := pt[x];
      if !pte.cow {
        return false;
      }
      var ucow := Spot(x.env, UCOW);
      ghost var copy := CowCopy(S(), x, page);
      assert ucow !in pt && page != pte.page;
      MemAlloc(ucow, Pte(page, true, false, pte.library));
      frames := frames[page := frames[pte.page]];
      MemMap(ucow, x, true, false, pte.library);
      MemUnmap(ucow);
      ok := true;
      assert pt == copy.pt && frames == copy.frames;
    }

    method Duppage(parent: nat, child: nat, vpn: nat)
      requires Spot(parent, vpn) in pt && child != parent
      modifies `pt
      ensures S() == Dup(old(S()), parent, child, vpn)
    {
      var p, c := Spot(parent, vpn), Spot(child, vpn);
      var pte := pt[p];
      if !pte.d {
        MemMap(p, c, pte.d, pte.cow, pte.library);
      } else if pte.cow {
        MemMap(p, c, pte.d, pte.cow, pte.library);
      } else if pte.library {
        MemMap(p, c, pte.d, pte.cow, pte.library);
      } else {
        MemMap(p, c, false, true, pte.library);
        MemMap(p, p, false, true, pte.library);
      }
    }

    /** fork, after the child env exists: passes every page below the stack top to the child. */
    method Fork(parent: nat, child: nat)
      requires Inv(S()) && child != parent
      modifies `pt
      ensures S() == DupBelow(old(S()), parent, child, USTACK)
      ensures Inv(S()) && forall e :: Refines(old(S()), e) ==> Refines(S(), EagerFork(e, parent, child, USTACK))
    {
      for vpn: nat := 0 to USTACK
        invariant S() == DupBelow(old(S()), parent, child, vpn)
      {
        if Spot(parent, vpn) in pt {
          Duppage(parent, child, vpn);
        }
      }
      StepKeepsInv(old(S()), OpFork(parent, child));
      forall e | Refines(old(S()), e) ensures Refines(S(), EagerFork(e, parent, child, USTACK)) {
        ForkSimulates(old(S()), e, parent, child, USTACK);
      }
    }
  }
}
