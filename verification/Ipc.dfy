/**
 sys_ipc_try_send and sys_ipc_recv over both halves of the kernel state: the env table and run list, and the page
 tables from which the page that a message carries is looked up and into which it is mapped.
 */
module Ipc {
  import opened Common
  import opened PageTables
  import opened VmState
  import opened Pmap
  import Sched

  datatype Result = Sent | Invalid | NotReceiving | NoMemory

  /** An address argument: none, or one that user programs may use. */
  predicate Acceptable(va: nat) {
    va == 0 || !Illegal(va)
  }

  /** The sender is live, and so is the target if it waits, for an address that sys_ipc_recv accepted. */
  ghost predicate Ready(v: Vm, s: Sched.State, me: nat, to: nat) {
    && Inv(v) && Sched.Inv(s) && me in v.envs && to < Sched.NENV
    && (s.envs[to].recving ==> to in v.envs && Acceptable(s.envs[to].dstva))
  }

  /** The target takes the message: it is woken with the value. */
  ghost predicate Delivers(s: Sched.State, to: nat, srcva: nat)
    requires to < |s.envs|
  {
    Acceptable(srcva) && s.envs[to].recving
  }

  /** What sys_ipc_try_send returns; `flags` are the permissions with PTE_V. */
  ghost function SendResult(v: Vm, s: Sched.State, me: nat, to: nat, srcva: nat, flags: Perm): (r: Result)
    requires Ready(v, s, me, to)
  {
    if !Acceptable(srcva) then Invalid
    else if !s.envs[to].recving then NotReceiving
    else if srcva == 0 then Sent
    else if !Mapped(v.envs[me].slots, Pdx(srcva), Ptx(srcva)) then Invalid
    else
      var page := PteAt(v.envs[me].slots, Pdx(srcva), Ptx(srcva)).page;
      var dstva := s.envs[to].dstva;
      NamedIsMappable(v, me, Pdx(srcva), Ptx(srcva));
      if PageInserted(v, to, Pdx(dstva), Ptx(dstva), Pte(page, flags)).0 then Sent else NoMemory
  }

  /** The page cannot be passed on: the sender does not have it, or the target has no table and no page is free. */
  ghost predicate Stuck(v: Vm, s: Sched.State, me: nat, to: nat, srcva: nat)
    requires Ready(v, s, me, to) && s.envs[to].recving
  {
    srcva != 0 &&
    (Vpn(srcva) !in Space(v.envs[me].slots) || (v.envs[to].slots[Pdx(s.envs[to].dstva)].None? && v.freeList == []))
  }

  /** A send that returns 0 was delivered; one that was delivered returns an error iff its page is stuck. */
  lemma SendReportsDelivery(v: Vm, s: Sched.State, me: nat, to: nat, srcva: nat, flags: Perm)
    requires Ready(v, s, me, to)
    ensures SendResult(v, s, me, to, srcva, flags) == Sent ==> Delivers(s, to, srcva)
    ensures Delivers(s, to, srcva) ==> (SendResult(v, s, me, to, srcva, flags) == Sent <==> !Stuck(v, s, me, to, srcva))
    ensures !Acceptable(srcva) ==> SendResult(v, s, me, to, srcva, flags) == Invalid
    ensures SendResult(v, s, me, to, srcva, flags) == NotReceiving <==> Acceptable(srcva) && !s.envs[to].recving
    ensures Delivers(s, to, srcva) ==>
              (SendResult(v, s, me, to, srcva, flags) == Invalid <==> srcva != 0 && Vpn(srcva) !in Space(v.envs[me].slots))
  {
    if Delivers(s, to, srcva) && srcva != 0 {
      VpnSplits(srcva);
      assert Walk(v.envs[me].slots, Vpn(srcva)).Some? <==> Mapped(v.envs[me].slots, Pdx(srcva), Ptx(srcva));
      if Mapped(v.envs[me].slots, Pdx(srcva), Ptx(srcva)) {
        var page, dstva := PteAt(v.envs[me].slots, Pdx(srcva), Ptx(srcva)).page, s.envs[to].dstva;
        NamedIsMappable(v, me, Pdx(srcva), Ptx(srcva));
        PageInsertedRefines(v, to, Pdx(dstva), Ptx(dstva), Pte(page, flags));
      }
    }
  }

  /** The last part of sys_ipc_try_send: maps the sender's page into the target. */
  method GivePage(k: Pmap.Kernel, me: nat, srcva: nat, to: nat, dstva: nat, perm: Perm) returns (r: Result)
    requires k.Valid() && me in k.envs && to in k.envs && srcva < UTOP && dstva < UTOP
    modifies k`ref, k`freeList, k`envs, k`tlb
    ensures r != NotReceiving && k.envs.Keys == old(k.envs).Keys
    ensures old(Vpn(srcva) in k.SpaceOf(me) ==> MayPass(k.S(), me, srcva, to, dstva)) ==> k.Valid()
    ensures r == Invalid <==> Vpn(srcva) !in old(k.SpaceOf(me))
    ensures r == NoMemory <==> Vpn(srcva) in old(k.SpaceOf(me)) && old(k.envs)[to].slots[Pdx(dstva)].None? && old(k.freeList) == []
    ensures r != Sent ==> k.S() == old(k.S())
    ensures r == Sent ==>
              && Vpn(srcva) in old(k.SpaceOf(me)) && WellShaped(k.envs) && OthersKept(old(k.envs), k.envs, to)
              && var p := old(k.SpaceOf(me))[Vpn(srcva)].page;
                 && k.SpaceOf(to) == old(k.SpaceOf(to))[Vpn(dstva) := Pte(p, perm | PTE_V)] && p < |old(k.ref)|
                 && (k.Valid() <==> old(k.ref)[p] + 1 < REF_LIMIT || MappedTo(old(k.S()), to, Pdx(dstva), Ptx(dstva), p))
  {
    VpnSplits(srcva);
    VpnSplits(dstva);
    var status := k.PassPage(me, srcva, to, dstva, perm);
    if status == Inval {
      return Invalid;
    }
    if status == NoMem {
      return NoMemory;
    }
    ghost var page := old(k.SpaceOf(me))[Vpn(srcva)].page;
    PageInsertedRefines(old(k.S()), to, Pdx(dstva), Ptx(dstva), Pte(page, perm | PTE_V));
    return Sent;
  }

  /** The send passes a page whose 16-bit count has room, or none. */
  ghost predicate Roomy(v: Vm, s: Sched.State, me: nat, to: nat, srcva: nat)
    requires Ready(v, s, me, to)
  {
    srcva == 0 || Illegal(srcva) || !s.envs[to].recving || Vpn(srcva) !in Space(v.envs[me].slots)
    || MayPass(v, me, srcva, to, s.envs[to].dstva)
  }

  /** sys_ipc_try_send, with a target that envid2env found. */
  method TrySend(k: Pmap.Kernel, s: Sched.Kernel, to: nat, value: nat, srcva: nat, perm: Perm) returns (r: Result)
    requires k.Valid() && s.cur.Some? && Ready(k.S(), s.S(), s.cur.value, to)
    modifies k`ref, k`freeList, k`envs, k`tlb, s.list, s`envs, s`queue
    ensures r == SendResult(old(k.S()), old(s.S()), s.cur.value, to, srcva, perm | PTE_V) && k.envs.Keys == old(k.envs).Keys
    ensures Sched.Inv(s.S()) && (old(Roomy(k.S(), s.S(), s.cur.value, to, srcva)) ==> k.Valid())
    ensures srcva != 0 && (srcva < 0x3f_e000 || srcva >= 0x7f40_0000) ==> r == Invalid
    ensures s.S() == if old(Delivers(s.S(), to, srcva)) then Sched.Delivered(old(s.S()), to, Sched.MessageOf(old(s.S()), value, perm | PTE_V))
                     else old(s.S())
    ensures old(Delivers(s.S(), to, srcva)) ==>
              && s.queue == old(s.queue) + [to] && |s.envs| == |old(s.envs)| && s.envs == old(s.envs)[to := s.envs[to]]
              && s.envs[to] == old(s.envs)[to].(status := Sched.Runnable, recving := false, value := value,
                                                from := old(s.envs)[s.cur.value].id, perm := perm | PTE_V,
                                                accepted := s.envs[to].accepted, standing := true)
    ensures r != Sent || srcva == 0 ==> k.S() == old(k.S())
    ensures r == Sent && srcva != 0 ==>
              && to in old(k.envs) && Vpn(srcva) in old(k.SpaceOf(s.cur.value)) && WellShaped(k.envs)
              && OthersKept(old(k.envs), k.envs, to)
              && var p, dstva := old(k.SpaceOf(s.cur.value))[Vpn(srcva)].page, old(s.envs)[to].dstva;
                 && k.SpaceOf(to) == old(k.SpaceOf(to))[Vpn(dstva) := Pte(p, perm | PTE_V)] && p < |old(k.ref)|
                 && (k.Valid() <==> old(k.ref)[p] + 1 < REF_LIMIT || MappedTo(old(k.S()), to, Pdx(dstva), Ptx(dstva), p))
  {
    SendReportsDelivery(k.S(), s.S(), s.cur.value, to, srcva, perm | PTE_V);
    if srcva != 0 && Illegal(srcva) {
      return Invalid;
    }
    var me, dstva := s.cur.value, s.envs[to].dstva;
    var delivered := s.Deliver(to, value, perm | PTE_V);
    if !delivered {
      return NotReceiving;
    }
    r := Sent;
    if srcva != 0 {
      r := GivePage(k, me, srcva, to, dstva, perm);
    }
  }

  datatype Received = Refused | Panicked | Waiting

  /** sys_ipc_recv */
  method Receive(s: Sched.Kernel, dstva: nat) returns (r: Received)
    requires Sched.Inv(s.S()) && Sched.Enabled(s.S(), Sched.Recv(dstva))
    modifies s, s.list
    ensures r == Refused <==> dstva != 0 && (dstva < 0x3f_e000 || dstva >= 0x7f40_0000)
    ensures r == Refused ==> s.S() == old(s.S())
    ensures r == Waiting ==> Sched.Step(old(s.S()), Sched.Recv(dstva)) == Some(s.S())
    ensures r == Waiting ==>
              var me := old(s.cur).value; var x := old(s.envs)[me];
              && Sched.Inv(s.S()) && s.queue == Sched.Remove(old(s.queue), me) && s.queue != [] && s.cur == Some(s.queue[0])
              && s.envs == old(s.envs)[me := x.(status := Sched.NotRunnable, recving := true, dstva := dstva, standing := false,
                                                taken := x.taken + if x.standing then [x.Ipc()] else [])]
    ensures r == Panicked ==> Sched.Step(old(s.S()), Sched.Recv(dstva)).None?
  {
    if dstva != 0 && Illegal(dstva) {
      return Refused;
    }
    var ok := s.IpcRecv(dstva);
    r := if ok then Waiting else Panicked;
  }
}
