/**
 The kernel as a whole: the env table and run list of `Sched` and the page tables of `Pmap`, changed together by the
 system calls, faults and timer interrupts. What each half assumes of the other is kept by every run.
 */
module System {
  import opened Common
  import opened PageTables
  import opened VmState
  import Pmap
  import Sched
  import Ipc

  datatype Op =
    | Tick
    | Yield
    | SetStatus(env: nat, status: Sched.Status)
    | Exofork(id: nat)
    | Destroy(env: nat)
    | Receive(dstva: nat)
    | Send(to: nat, value: nat, srcva: nat, perm: Perm)
    | Memory(op: Pmap.Op)

  /** The live envs of both halves are the same, and a receiver waits for an address that was accepted. */
  ghost predicate Matching(live: set<nat>, envs: seq<Sched.Env>) {
    && |envs| == Sched.NENV && (forall e: nat :: e in live <==> e < Sched.NENV && envs[e].status != Sched.Free)
    && (forall e :: 0 <= e < Sched.NENV && envs[e].recving ==> Ipc.Acceptable(envs[e].dstva))
  }

  /** Both halves are in order and match. */
  ghost predicate Joint(v: Vm, s: Sched.State) {
    VmState.Inv(v) && Sched.Inv(s) && Matching(v.envs.Keys, s.envs)
  }

  lemma MatchingGrows(live: set<nat>, envs: seq<Sched.Env>, e: nat, x: Sched.Env)
    requires Matching(live, envs) && e < Sched.NENV && x.status != Sched.Free && (x.recving ==> Ipc.Acceptable(x.dstva))
    ensures Matching(live + {e}, envs[e := x])
  {
  }

  lemma MatchingKept(live: set<nat>, envs: seq<Sched.Env>, envs': seq<Sched.Env>, e: nat)
    requires Matching(live, envs) && e in live && |envs'| == |envs| && envs' == envs[e := envs'[e]]
    requires envs'[e].status != Sched.Free && (envs'[e].recving ==> Ipc.Acceptable(envs'[e].dstva))
    ensures Matching(live, envs')
  {
  }

  lemma MatchingShrinks(live: set<nat>, envs: seq<Sched.Env>, e: nat, x: Sched.Env)
    requires Matching(live, envs) && e < Sched.NENV && x.status == Sched.Free && !x.recving
    ensures Matching(live - {e}, envs[e := x])
  {
  }

  lemma MatchingStatus(live: set<nat>, s: Sched.State, e: nat, status: Sched.Status)
    requires Sched.Inv(s) && Matching(live, s.envs)
    ensures Sched.Enabled(s, Sched.SetStatus(e, status)) ==> Matching(live, Sched.StatusSet(s, e, status).envs)
  {
    if Sched.Enabled(s, Sched.SetStatus(e, status)) {
      MatchingKept(live, s.envs, Sched.StatusSet(s, e, status).envs, e);
    }
  }

  // What each kernel entry does to both halves.

  /** sys_exofork finds an env, a page and an ASID. */
  ghost predicate CanFork(v: Vm, s: Sched.State) {
    s.cur.Some? && v.envFree != [] && v.freeList != [] && false in v.asidUsed
  }

  ghost predicate Forked(v: Vm, s: Sched.State, id: nat, v': Vm, s': Sched.State)
    requires Joint(v, s)
  {
    if CanFork(v, s) then
      var e := v.envFree[0];
      && e < Sched.NENV && e !in v.envs && v'.envs.Keys == v.envs.Keys + {e} && v'.envs[e].slots == EmptyDirectory()
      && (forall x :: x in v.envs ==> v'.envs[x] == v.envs[x]) && s' == Sched.Exoforked(s, e, id)
    else v'.envs == v.envs && s' == s
  }

  ghost predicate Sending(v: Vm, s: Sched.State, to: nat, value: nat, srcva: nat, flags: Perm, v': Vm, s': Sched.State)
    requires Joint(v, s) && s.cur.Some? && to < Sched.NENV
  {
    && s' == (if Ipc.Delivers(s, to, srcva) then Sched.Delivered(s, to, Sched.MessageOf(s, value, flags)) else s)
    && if Ipc.SendResult(v, s, s.cur.value, to, srcva, flags) == Ipc.Sent && srcva != 0 then
         && WellShaped(v'.envs) && OthersKept(v.envs, v'.envs, to) && Vpn(srcva) in Space(v.envs[s.cur.value].slots)
         && Space(v'.envs[to].slots)
            == Space(v.envs[to].slots)[Vpn(s.envs[to].dstva) := Pte(Space(v.envs[s.cur.value].slots)[Vpn(srcva)].page, flags)]
       else v' == v
  }

  ghost predicate SendDid(v: Vm, s: Sched.State, to: nat, value: nat, srcva: nat, flags: Perm, v': Vm, s': Sched.State)
    requires Joint(v, s)
  {
    if to < Sched.NENV && s.cur.Some? && Ipc.Roomy(v, s, s.cur.value, to, srcva) then Sending(v, s, to, value, srcva, flags, v', s')
    else v' == v && s' == s
  }

  ghost predicate StatusDid(s: Sched.State, e: nat, status: Sched.Status, s': Sched.State)
    requires Sched.Inv(s)
  {
    s' == if Sched.Enabled(s, Sched.SetStatus(e, status)) then Sched.StatusSet(s, e, status) else s
  }

  ghost predicate DestroyDid(v: Vm, s: Sched.State, e: nat, v': Vm, s': Sched.State)
    requires Sched.Inv(s)
  {
    if Sched.Enabled(s, Sched.Destroy(e)) then v'.envs == v.envs - {e} && Sched.Step(s, Sched.Destroy(e)) == Some(s')
    else v' == v && s' == s
  }

  ghost predicate ReceiveDid(s: Sched.State, dstva: nat, s': Sched.State)
    requires Sched.Inv(s)
  {
    if Ipc.Acceptable(dstva) && Sched.Enabled(s, Sched.Recv(dstva)) then Sched.Step(s, Sched.Recv(dstva)) == Some(s')
    else s' == s
  }

  ghost predicate MemoryDid(v: Vm, op: Pmap.Op, v': Vm)
    requires VmState.Inv(v) && forall e :: e in v.envs ==> e < NENV
  {
    if op.NewEnv? || op.FreeEnv? then v' == v else Pmap.Did(op, v, v')
  }

  ghost predicate Did(op: Op, v: Vm, s: Sched.State, v': Vm, s': Sched.State)
    requires Joint(v, s)
  {
    match op
    case Tick => v' == v && Sched.Schedule(s, false) == Some(s')
    case Yield => v' == v && Sched.Schedule(s, true) == Some(s')
    case SetStatus(e, status) => v' == v && StatusDid(s, e, status, s')
    case Exofork(id) => Forked(v, s, id, v', s')
    case Destroy(e) => DestroyDid(v, s, e, v', s')
    case Receive(dstva) => v' == v && ReceiveDid(s, dstva, s')
    case Send(to, value, srcva, perm) => SendDid(v, s, to, value, srcva, perm | PTE_V, v', s')
    case Memory(mem) => s' == s && MemoryDid(v, mem, v')
  }

  type Snapshot = (Vm, Sched.State)

  /** The states of a run, one more than the kernel entries so far. */
  ghost predicate IsTrace(ops: seq<Op>, trace: seq<Snapshot>) {
    && 0 < |trace| <= |ops| + 1 && (forall i :: 0 <= i < |trace| ==> Joint(trace[i].0, trace[i].1))
    && forall i :: 0 < i < |trace| ==> Did(ops[i - 1], trace[i - 1].0, trace[i - 1].1, trace[i].0, trace[i].1)
  }

  lemma TraceGrows(ops: seq<Op>, trace: seq<Snapshot>, v: Vm, s: Sched.State)
    requires IsTrace(ops, trace) && |trace| <= |ops| && Joint(v, s)
    requires Did(ops[|trace| - 1], trace[|trace| - 1].0, trace[|trace| - 1].1, v, s)
    ensures IsTrace(ops, trace + [(v, s)])
  {
    var t := trace + [(v, s)];
    assert forall i :: 0 <= i < |trace| ==> t[i] == trace[i];
    forall i | 0 < i < |t| ensures Did(ops[i - 1], t[i - 1].0, t[i - 1].1, t[i].0, t[i].1) {
      assert t[i - 1] == trace[i - 1];
    }
  }

  class Machine {
    const k: Pmap.Kernel
    const s: Sched.Kernel

    ghost predicate Valid()
      reads this, k, s, s.list
    {
      k.Valid() && Joint(k.S(), s.S())
    }

    constructor (npage: nat, reserved: nat)
      requires reserved <= npage
      ensures Valid()
    {
      k := new Pmap.Kernel(npage, reserved);
      s := new Sched.Kernel();
    }

    method DoSchedule(yielding: bool) returns (ok: bool)
      requires Valid()
      modifies s.list, s`queue, s`cur, s`count
      ensures ok ==> Valid() && Sched.Schedule(old(s.S()), yielding) == Some(s.S())
    {
      ok := s.Sched(yielding);
    }

    /** A memory system call or a fault; false stands for a kernel panic. */
    method DoMemory(op: Pmap.Op) returns (ok: bool)
      requires Valid()
      modifies k
      ensures ok ==> Valid() && MemoryDid(old(k.S()), op, k.S())
    {
      ok := true;
      if !op.NewEnv? && !op.FreeEnv? {
        ok := k.Step(op);
      }
    }

    /** env_alloc, where it keeps the counts exact; otherwise nothing. */
    method AllocEnv() returns (e: Option<nat>)
      requires k.Valid()
      modifies k
      ensures k.Valid()
      ensures e.None? ==> k.envs == old(k.envs)
      ensures e.Some? <==> old(k.envFree) != [] && old(k.freeList) != [] && false in old(k.asidUsed)
      ensures e.Some? ==>
                && e.value == old(k.envFree)[0] && e.value < NENV && e.value !in old(k.envs)
                && k.envs.Keys == old(k.envs).Keys + {e.value} && k.envs[e.value].slots == EmptyDirectory()
                && forall x :: x in old(k.envs) ==> k.envs[x] == old(k.envs)[x]
    {
      e := None;
      if k.envFree == [] || (k.freeList != []) == (false in k.asidUsed) {
        var first := if k.envFree == [] then 0 else k.envFree[0];
        var status, asid := k.EnvAlloc();
        e := if status == Pmap.Ok then Some(first) else None;
      }
    }

    /** sys_exofork */
    method DoExofork(id: nat)
      requires Valid()
      modifies k, s`envs
      ensures Valid() && Forked(old(k.S()), old(s.S()), id, k.S(), s.S())
    {
      if s.cur.Some? {
        var e := AllocEnv();
        if e.Some? {
          var i := e.value;
          s.Exofork(i, id);
          assert s.envs == old(s.envs)[i := s.envs[i]];
          MatchingGrows(old(k.envs).Keys, old(s.envs), i, s.envs[i]);
        }
      }
    }

    /** sys_env_destroy, where the run list stays one; otherwise nothing. */
    method DoDestroy(e: nat) returns (ok: bool)
      requires Valid()
      modifies k, s, s.list
      ensures ok ==> Valid() && DestroyDid(old(k.S()), old(s.S()), e, k.S(), s.S())
    {
      ok := true;
      if e in k.envs && !s.envs[e].recving && s.Safe(e) {
        ok := s.EnvDestroy(e);
        k.EnvFree(e);
        if ok {
          MatchingShrinks(old(k.envs).Keys, old(s.envs), e, s.envs[e]);
        }
      }
    }

    method DoReceive(dstva: nat) returns (ok: bool)
      requires Valid()
      modifies s, s.list
      ensures ok ==> Valid() && ReceiveDid(old(s.S()), dstva, s.S())
    {
      ok := true;
      if s.cur.Some? && s.Safe(s.cur.value) {
        ghost var me, was := s.cur.value, s.envs;
        var r := Ipc.Receive(s, dstva);
        ok := r != Ipc.Panicked;
        if r == Ipc.Waiting {
          MatchingKept(k.envs.Keys, was, s.envs, me);
        }
      }
    }

    /** The count of the page that the sender passes has room, or the page is mapped there already. */
    method HasRoom(me: nat, srcva: nat, to: nat, dstva: nat) returns (ok: bool)
      requires k.Valid() && me in k.envs && to in k.envs && srcva < UTOP && dstva < UTOP
      ensures ok <==> Vpn(srcva) !in k.SpaceOf(me) || Pmap.MayPass(k.S(), me, srcva, to, dstva)
    {
      VpnSplits(srcva);
      var pte := k.PageLookup(me, srcva);
      var there := k.PageLookup(to, dstva);
      ok := pte.None? || k.ref[pte.value.page] + 1 < REF_LIMIT || (there.Some? && there.value.page == pte.value.page);
    }

    method DoSend(to: nat, value: nat, srcva: nat, perm: Perm)
      requires Valid()
      modifies k, s.list, s`envs, s`queue
      ensures Valid() && SendDid(old(k.S()), old(s.S()), to, value, srcva, perm | PTE_V, k.S(), s.S())
    {
      if s.cur.None? || to >= Sched.NENV {
        return;
      }
      var room := true;
      if srcva != 0 && !Pmap.Illegal(srcva) && s.envs[to].recving {
        room := HasRoom(s.cur.value, srcva, to, s.envs[to].dstva);
      }
      if room {
        SendRoomy(to, value, srcva, perm);
      }
    }

    /** sys_ipc_try_send, where the page has room. */
    method SendRoomy(to: nat, value: nat, srcva: nat, perm: Perm)
      requires Valid() && s.cur.Some? && to < Sched.NENV && Ipc.Roomy(k.S(), s.S(), s.cur.value, to, srcva)
      modifies k, s.list, s`envs, s`queue
      ensures Valid() && Sending(old(k.S()), old(s.S()), to, value, srcva, perm | PTE_V, k.S(), s.S())
    {
      ghost var delivers := Ipc.Delivers(s.S(), to, srcva);
      var r := Ipc.TrySend(k, s, to, value, srcva, perm);
      if delivers {
        MatchingKept(k.envs.Keys, old(s.envs), s.envs, to);
      }
    }

    method DoSetStatus(e: nat, status: Sched.Status)
      requires Valid()
      modifies s.list, s`envs, s`queue
      ensures Valid() && StatusDid(old(s.S()), e, status, s.S())
    {
      MatchingStatus(k.envs.Keys, s.S(), e, status);
      s.GuardedStatus(e, status);
    }

    /** One kernel entry, if its exact condition holds; false stands for a kernel panic. */
    method Step(op: Op) returns (ok: bool)
      requires Valid()
      modifies k, s, s.list
      ensures ok ==> Valid() && Did(op, old(k.S()), old(s.S()), k.S(), s.S())
    {
      ok := true;
      match op {
        case Tick => ok := DoSchedule(false);
        case Yield => ok := DoSchedule(true);
        case SetStatus(e, status) => DoSetStatus(e, status);
        case Exofork(id) => DoExofork(id);
        case Destroy(e) => ok := DoDestroy(e);
        case Receive(dstva) => ok := DoReceive(dstva);
        case Send(to, value, srcva, perm) => DoSend(to, value, srcva, perm);
        case Memory(mem) => ok := DoMemory(mem);
      }
    }

    /** Over every run of the whole kernel, both halves keep their invariants and stay in step, in every state on the way. */
    method Run(ops: seq<Op>) returns (ok: bool, ghost trace: seq<Snapshot>)
      requires Valid()
      modifies k, s, s.list
      ensures IsTrace(ops, trace) && trace[0] == (old(k.S()), old(s.S()))
      ensures ok ==> Valid() && |trace| == |ops| + 1 && trace[|ops|] == (k.S(), s.S())
    {
      trace := [(k.S(), s.S())];
      for n := 0 to |ops|
        invariant Valid() && |trace| == n + 1 && trace[0] == (old(k.S()), old(s.S())) && trace[n] == (k.S(), s.S())
        invariant IsTrace(ops, trace)
      {
        ok := Step(ops[n]);
        if !ok {
          return;
        }
        TraceGrows(ops, trace, k.S(), s.S());
        trace := trace + [(k.S(), s.S())];
      }
      ok := true;
    }
  }
}
