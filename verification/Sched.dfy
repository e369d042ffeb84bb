/**
 Scheduler, env status and IPC (kern/sched.c, kern/env.c, kern/syscall_all.c) as one state
 machine: what every kernel entry keeps, what a receiver gets, and how long an env waits.
 */
module Sched {
  import opened Common
  import Queue

  const NENV: nat := 1024

  datatype Status = Free | Runnable | NotRunnable

  type Perm = bv12

  /** What a send leaves in env_ipc_value, env_ipc_from and env_ipc_perm of its target. */
  datatype Message = Message(value: nat, from: nat, perm: Perm)

  /**
   The fields of an env that scheduling and IPC use; `id` is env_id. `accepted` records the messages of the sends that
   reached the env; `standing` says that the last of them is still in its fields, where it stays until the next
   receive, and `taken` records what each receive but the last left there.
   */
  datatype Env = Env(id: nat, status: Status, pri: nat, recving: bool, dstva: nat, value: nat, from: nat, perm: Perm,
                     accepted: seq<Message>, taken: seq<Message>, standing: bool)
  {
    /** The message in the fields of the env. */
    function Ipc(): (m: Message) {
      Message(value, from, perm)
    }
  }

  /**
   `count` is the static variable of schedule, the remaining slices of the current env, as a number modulo 2^32:
   it is only decremented and compared with 0. `links` are env_sched_list and the env_sched_link fields, also those
   of envs that are not in the list, and `queue` is the sequence that the list stands for.
   */
  datatype State = State(envs: seq<Env>, links: Queue.Links, queue: seq<nat>, cur: Option<nat>, count: nat)

  const WORD: nat := 0x1_0000_0000

  /** A decrement in 32 bits. */
  function Dec(n: nat): (r: nat) {
    if n == 0 then 0xffff_ffff else n - 1
  }

  /** The slices that a priority stands for: counting down from 0 takes 2^32 steps. */
  function Slices(pri: nat): (n: nat) {
    if pri == 0 then WORD else pri
  }

  ghost predicate EnvOk(e: Env) {
    && (e.recving ==> e.status == NotRunnable && !e.standing)
    && e.accepted == e.taken + (if e.standing then [e.Ipc()] else [])
  }

  /** The envs in the sequence are those that are runnable; and every env is in order. */
  ghost predicate EnvsInv(s: State) {
    && |s.envs| == NENV && (forall e: nat :: e in s.queue <==> e < NENV && s.envs[e].status == Runnable)
    && (forall e :: 0 <= e < NENV ==> EnvOk(s.envs[e]))
    && (s.cur.Some? ==> s.cur.value < NENV && s.envs[s.cur.value].status != Free)
  }

  /** An env is in the run list, once, iff it is runnable; and every env is in order. */
  ghost predicate ListInv(s: State) {
    EnvsInv(s) && ListLinks(s)
  }

  /** The links are those of a run list, whatever the envs are. */
  ghost predicate ListLinks(s: State) {
    |s.links.next| == NENV && Queue.WellPointed(s.links) && Queue.Tailed(s.links, s.queue)
  }

  /** The count and the priorities are 32-bit numbers. */
  ghost predicate Paced(s: State) {
    s.count < WORD && forall e :: 0 <= e < |s.envs| ==> s.envs[e].pri < WORD
  }

  ghost predicate Inv(s: State) {
    ListInv(s) && Paced(s)
  }

  /** TAILQ_REMOVE: the queue without its element `e`. */
  function Remove(q: seq<nat>, e: nat): (r: seq<nat>) {
    if q == [] then [] else if q[0] == e then q[1..] else [q[0]] + Remove(q[1..], e)
  }

  lemma DistinctTail(q: seq<nat>)
    requires Distinct(q) && q != []
    ensures q == [q[0]] + q[1..] && Distinct(q[1..]) && q[0] !in q[1..]
  {
    forall i, j | 0 <= i < j < |q[1..]| ensures q[1..][i] != q[1..][j] {
      assert q[1..][i] == q[i + 1] && q[1..][j] == q[j + 1];
    }
  }

  lemma {:induction false} RemoveIsDeletion(q: seq<nat>, e: nat)
    requires Distinct(q)
    ensures Distinct(Remove(q, e)) && e !in Remove(q, e)
    ensures forall x :: x != e ==> (x in Remove(q, e) <==> x in q)
    ensures e !in q ==> Remove(q, e) == q
  {
    if q != [] {
      DistinctTail(q);
      RemoveIsDeletion(q[1..], e);
    }
  }

  lemma {:induction false} RemoveIsWithout(q: seq<nat>, i: nat)
    requires Distinct(q) && i < |q|
    ensures Remove(q, q[i]) == Without(q, i)
  {
    if i > 0 {
      DistinctTail(q);
      RemoveIsWithout(q[1..], i - 1);
    }
  }

  /** TAILQ_REMOVE of an env in the list. */
  lemma UnlinkMember(l: Queue.Links, q: seq<nat>, e: nat)
    requires Queue.Tailed(l, q) && Queue.WellPointed(l) && e in q
    ensures e < |l.next| && Queue.Tailed(Queue.Unlinked(l, e), Remove(q, e))
    ensures Queue.WellPointed(Queue.Unlinked(l, e)) && |Queue.Unlinked(l, e).next| == |l.next|
  {
    var i :| 0 <= i < |q| && q[i] == e;
    RemoveIsWithout(q, i);
    Queue.UnlinkIsDelete(l, q, i);
    Queue.UnlinkedPoints(l, e);
  }

  /** TAILQ_INSERT_TAIL of an env that is not in the list. */
  lemma AppendNew(l: Queue.Links, q: seq<nat>, e: nat)
    requires Queue.Tailed(l, q) && Queue.WellPointed(l) && e !in q && e < |l.next|
    ensures Queue.Tailed(Queue.Appended(l, e), q + [e])
    ensures Queue.WellPointed(Queue.Appended(l, e)) && |Queue.Appended(l, e).next| == |l.next|
  {
    Queue.AppendIsAppend(l, q, e);
    Queue.AppendedPoints(l, e);
  }

  /** TAILQ_REMOVE leaves a run list: the env is in it, or its stale links do no harm. */
  ghost predicate Removable(s: State, e: nat)
    requires ListInv(s) && e < NENV
  {
    e in s.queue || Queue.Harmless(s.links, s.queue, e)
  }

  /** Whether TAILQ_REMOVE keeps the list tied to the sequence, exactly. */
  lemma UnlinkExact(s: State, e: nat)
    requires ListInv(s) && e < NENV && s.links.prev[e] != Queue.Null
    ensures Queue.Tailed(Queue.Unlinked(s.links, e), Remove(s.queue, e)) <==> Removable(s, e)
    ensures Queue.WellPointed(Queue.Unlinked(s.links, e)) && |Queue.Unlinked(s.links, e).next| == NENV
  {
    Queue.UnlinkedPoints(s.links, e);
    if e in s.queue {
      UnlinkMember(s.links, s.queue, e);
    } else {
      RemoveIsDeletion(s.queue, e);
      Queue.StaleUnlinkExact(s.links, s.queue, e);
    }
  }

  /** Whether a removal does harm can be read off the link fields and the status of envs. */
  lemma SafeIsRemovable(s: State, e: nat)
    requires ListInv(s) && e < NENV
    ensures var n, c := s.links.next[e], s.links.prev[e];
            && (c.NextOf? ==> c.elem < NENV) && (n.Some? ==> n.value < NENV)
            && (Removable(s, e) <==>
                || s.envs[e].status == Runnable
                || (&& (c == Queue.First ==> s.links.first == n)
                    && (c.NextOf? && s.envs[c.elem].status == Runnable ==> s.links.next[c.elem] == n)
                    && (n.Some? && s.envs[n.value].status == Runnable ==> s.links.prev[n.value] == c)
                    && (n.None? ==> s.links.last == c)))
  {
  }

  /** An env in the list has a back link. */
  lemma MemberHasBackLink(s: State, e: nat)
    requires ListInv(s) && e in s.queue
    ensures s.links.prev[e] != Queue.Null
  {
    var i :| 0 <= i < |s.queue| && s.queue[i] == e;
    assert s.links.prev[s.queue[i]] == Queue.CellBefore(s.queue, i);
  }

  // Kernel entries. `None` stands for the panic of an empty run list.

  ghost predicate MustSwitch(s: State, yielding: bool)
    requires ListInv(s)
  {
    s.cur.None? || yielding || s.count == 0 || s.envs[s.cur.value].status != Runnable
  }

  /** The run list from which the next env is picked: a runnable current env goes to the tail. */
  ghost function Rotated(s: State): (q: seq<nat>)
    requires ListInv(s)
    ensures Distinct(q) && |q| == |s.queue| && forall e :: e in q <==> e in s.queue
  {
    if s.cur.Some? && s.envs[s.cur.value].status == Runnable then
      RotationKeeps(s.queue, s.cur.value);
      Remove(s.queue, s.cur.value) + [s.cur.value]
    else s.queue
  }

  ghost function RotatedLinks(s: State): (l: Queue.Links)
    requires ListInv(s)
    ensures Queue.Tailed(l, Rotated(s)) && Queue.WellPointed(l) && |l.next| == NENV
  {
    if s.cur.Some? && s.envs[s.cur.value].status == Runnable then
      var e := s.cur.value;
      UnlinkMember(s.links, s.queue, e);
      RemoveIsDeletion(s.queue, e);
      AppendNew(Queue.Unlinked(s.links, e), Remove(s.queue, e), e);
      Queue.Appended(Queue.Unlinked(s.links, e), e)
    else s.links
  }

  lemma RotationKeeps(q: seq<nat>, e: nat)
    requires Distinct(q) && e in q
    ensures var r := Remove(q, e) + [e]; Distinct(r) && |r| == |q| && forall x :: x in r <==> x in q
  {
    RemoveIsDeletion(q, e);
    RemoveShortens(q, e);
  }

  lemma {:induction false} RemoveShortens(q: seq<nat>, e: nat)
    requires e in q
    ensures |Remove(q, e)| == |q| - 1
  {
    if q[0] != e {
      assert q == [q[0]] + q[1..];
      RemoveShortens(q[1..], e);
    }
  }

  /** schedule: the new run list, current env and count. */
  ghost function Schedule(s: State, yielding: bool): (r: Option<State>)
    requires ListInv(s)
  {
    if MustSwitch(s, yielding) then
      if s.queue == [] then None
      else
        var q := Rotated(s);
        assert q[0] in q;
        Some(s.(queue := q, links := RotatedLinks(s), cur := Some(q[0]), count := Dec(s.envs[q[0]].pri)))
    else Some(s.(count := Dec(s.count)))
  }

  lemma ScheduleKeeps(s: State, yielding: bool)
    requires Inv(s) && Schedule(s, yielding).Some?
    ensures Inv(Schedule(s, yielding).value)
    ensures var t := Schedule(s, yielding).value;
            t.envs == s.envs && t.cur.Some? && t.envs[t.cur.value].status == Runnable
  {
    if MustSwitch(s, yielding) {
      var q := Rotated(s);
      assert q[0] in q;
    }
  }

  /** schedule in full: when it switches, to whom, with how many slices, and how the list turns. */
  lemma ScheduleIs(s: State, yielding: bool)
    requires Inv(s)
    ensures var must := s.cur.None? || yielding || s.count == 0 || s.envs[s.cur.value].status != Runnable;
            && (Schedule(s, yielding).Some? <==> !must || s.queue != [])
            && (Schedule(s, yielding).Some? ==>
                  var t := Schedule(s, yielding).value;
                  && t.envs == s.envs
                  && (!must ==> t.cur == s.cur && t.count == s.count - 1 && t.queue == s.queue && t.links == s.links)
                  && (must ==>
                        && t.queue == (if s.cur.Some? && s.envs[s.cur.value].status == Runnable
                                       then Remove(s.queue, s.cur.value) + [s.cur.value] else s.queue)
                        && t.queue != [] && t.cur == Some(t.queue[0]) && t.queue[0] < NENV
                        && t.count == (if s.envs[t.queue[0]].pri == 0 then 0xffff_ffff else s.envs[t.queue[0]].pri - 1)))
  {
    if s.queue != [] {
      assert Rotated(s)[0] in Rotated(s);
    }
  }

  /** With `yielding`, the current env is not chosen again unless it is the only runnable one. */
  lemma YieldPassesOn(s: State)
    requires Inv(s) && s.cur.Some? && Schedule(s, true).Some?
    ensures Schedule(s, true).value.cur == s.cur ==> s.queue == [s.cur.value]
  {
    if s.cur.value in s.queue {
      RemoveShortens(s.queue, s.cur.value);
      RemoveIsDeletion(s.queue, s.cur.value);
    }
    assert Rotated(s)[0] in Rotated(s);
  }

  function Update(s: State, e: nat, x: Env): (t: State)
    requires e < |s.envs|
  {
    s.(envs := s.envs[e := x])
  }

  /** The first half of sys_ipc_recv: the current env leaves the run list and waits. */
  function Blocked(s: State, dstva: nat): (t: State)
    requires s.cur.Some? && s.cur.value < |s.envs|
  {
    var x := s.envs[s.cur.value];
    Update(s, s.cur.value, x.(status := NotRunnable, recving := true, dstva := dstva, standing := false,
                              taken := x.taken + if x.standing then [x.Ipc()] else []))
      .(queue := Remove(s.queue, s.cur.value), links := Queue.Unlinked(s.links, s.cur.value))
  }

  /** sys_ipc_try_send to a receiving env: the message is stored and the env woken, at the tail. */
  function Delivered(s: State, e: nat, msg: Message): (t: State)
    requires e < |s.envs|
  {
    var x := s.envs[e];
    Update(s, e, x.(status := Runnable, recving := false, value := msg.value, from := msg.from, perm := msg.perm,
                    accepted := x.accepted + [msg], standing := true))
      .(queue := s.queue + [e], links := Queue.Appended(s.links, e))
  }

  /** The message that a send by the current env carries. */
  function MessageOf(s: State, value: nat, perm: Perm): (msg: Message)
    requires s.cur.Some? && s.cur.value < |s.envs|
  {
    Message(value, s.envs[s.cur.value].id, perm)
  }

  /** sys_set_env_status */
  function StatusSet(s: State, e: nat, status: Status): (t: State)
    requires e < |s.envs|
  {
    var was := s.envs[e].status;
    var q := if was == Runnable && status == NotRunnable then Remove(s.queue, e)
             else if was == NotRunnable && status == Runnable then s.queue + [e] else s.queue;
    var l := if was == Runnable && status == NotRunnable then Queue.Unlinked(s.links, e)
             else if was == NotRunnable && status == Runnable then Queue.Appended(s.links, e) else s.links;
    Update(s, e, s.envs[e].(status := status)).(queue := q, links := l)
  }

  /** sys_exofork: env `e` leaves the free list as a child of the current env, not runnable. */
  function Exoforked(s: State, e: nat, id: nat): (t: State)
    requires e < |s.envs| && s.cur.Some? && s.cur.value < |s.envs|
  {
    Update(s, e, s.envs[e].(id := id, status := NotRunnable, pri := s.envs[s.cur.value].pri,
                            accepted := [], taken := [], standing := false))
  }

  /** env_free, as far as scheduling sees it, and the reset of curenv in env_destroy. */
  function Destroyed(s: State, e: nat): (t: State)
    requires e < |s.envs|
  {
    Update(s, e, s.envs[e].(status := Free))
      .(queue := Remove(s.queue, e), links := Queue.Unlinked(s.links, e), cur := if s.cur == Some(e) then None else s.cur)
  }

  datatype Op =
    | Tick
    | Yield
    | Recv(dstva: nat)
    | Send(to: nat, value: nat, perm: Perm)
    | SetStatus(env: nat, status: Status)
    | Exofork(env: nat, id: nat)
    | Destroy(env: nat)

  /**
   What the kernel entry demands. Recv and Destroy call TAILQ_REMOVE for the env, which crashes on a null back link.
   The guards are exact: see `BlockedExact`, `StatusSetExact` and `DestroyedExact`.
   */
  ghost predicate Enabled(s: State, op: Op)
    requires Inv(s)
  {
    match op
    case Tick => true
    case Yield => true
    case Recv(_) => s.cur.Some? && s.links.prev[s.cur.value] != Queue.Null && Removable(s, s.cur.value)
    case Send(to, _, _) => to < NENV && s.cur.Some?
    case SetStatus(e, status) =>
      e < NENV && s.envs[e].status != Free && status != Free && !(s.envs[e].recving && status == Runnable)
    case Exofork(e, _) => e < NENV && s.envs[e].status == Free && s.cur.Some?
    case Destroy(e) =>
      e < NENV && s.envs[e].status != Free && s.links.prev[e] != Queue.Null && Removable(s, e) && !s.envs[e].recving
  }

  /** The effect of a kernel entry before it calls schedule, if it does. */
  ghost function Effect(s: State, op: Op): (t: State)
    requires Inv(s) && Enabled(s, op)
  {
    match op
    case Tick => s
    case Yield => s
    case Recv(dstva) => Blocked(s, dstva)
    case Send(to, value, perm) => if s.envs[to].recving then Delivered(s, to, MessageOf(s, value, perm)) else s
    case SetStatus(e, status) => StatusSet(s, e, status)
    case Exofork(e, id) => Exoforked(s, e, id)
    case Destroy(e) => Destroyed(s, e)
  }

  lemma EffectKeeps(s: State, op: Op)
    requires Inv(s) && Enabled(s, op)
    ensures Inv(Effect(s, op))
  {
    match op
    case Recv(dstva) => BlockedExact(s, dstva);
    case Send(to, value, perm) =>
      if s.envs[to].recving {
        DeliveredKeeps(s, to, MessageOf(s, value, perm));
      }
    case SetStatus(e, status) => StatusSetKeeps(s, e, status);
    case Exofork(e, id) => ExoforkedKeeps(s, e, id);
    case Destroy(e) => DestroyedExact(s, e);
    case _ =>
  }

  /** sys_ipc_recv keeps the invariant iff the caller is in the run list or its stale links do no harm. */
  lemma BlockedExact(s: State, dstva: nat)
    requires Inv(s) && s.cur.Some? && s.links.prev[s.cur.value] != Queue.Null
    ensures Inv(Blocked(s, dstva)) <==> Removable(s, s.cur.value)
  {
    UnlinkExact(s, s.cur.value);
    BlockedEnvs(s, dstva);
  }

  lemma BlockedEnvs(s: State, dstva: nat)
    requires EnvsInv(s) && Paced(s) && Distinct(s.queue) && s.cur.Some?
    ensures EnvsInv(Blocked(s, dstva)) && Paced(Blocked(s, dstva))
  {
    RemoveIsDeletion(s.queue, s.cur.value);
    assert EnvOk(s.envs[s.cur.value]);
  }

  lemma DeliveredKeeps(s: State, e: nat, msg: Message)
    requires Inv(s) && e < NENV && s.envs[e].recving
    ensures Inv(Delivered(s, e, msg))
  {
    assert e !in s.queue;
    AppendNew(s.links, s.queue, e);
  }

  lemma StatusSetKeeps(s: State, e: nat, status: Status)
    requires Inv(s) && Enabled(s, SetStatus(e, status))
    ensures Inv(StatusSet(s, e, status))
  {
    StatusSetEnvs(s, e, status);
    if s.envs[e].status != status {
      if status == NotRunnable {
        UnlinkMember(s.links, s.queue, e);
      } else {
        AppendNew(s.links, s.queue, e);
      }
    }
  }

  lemma StatusSetEnvs(s: State, e: nat, status: Status)
    requires EnvsInv(s) && Paced(s) && Distinct(s.queue) && e < NENV && s.envs[e].status != Free && status != Free
    requires !(s.envs[e].recving && status == Runnable)
    ensures EnvsInv(StatusSet(s, e, status)) && Paced(StatusSet(s, e, status))
  {
    assert EnvOk(s.envs[e]);
    if s.envs[e].status == status {
      assert s.envs[e := s.envs[e].(status := status)] == s.envs;
    } else {
      RemoveIsDeletion(s.queue, e);
    }
  }

  lemma ExoforkedKeeps(s: State, e: nat, id: nat)
    requires Inv(s) && Enabled(s, Exofork(e, id))
    ensures Inv(Exoforked(s, e, id))
  {
    assert EnvOk(s.envs[s.cur.value]) && EnvOk(s.envs[e]);
  }

  /**
   env_free takes the env off the run list, whether it is there or not, and does not reset env_ipc_recving. Destroying
   a live env keeps the invariant iff it is not blocked in receive, and is in the list or has harmless stale links.
   */
  lemma DestroyedExact(s: State, e: nat)
    requires Inv(s) && e < NENV && s.envs[e].status != Free && s.links.prev[e] != Queue.Null
    ensures Inv(Destroyed(s, e)) <==> !s.envs[e].recving && Removable(s, e)
  {
    UnlinkExact(s, e);
    DestroyedEnvs(s, e);
  }

  lemma DestroyedEnvs(s: State, e: nat)
    requires EnvsInv(s) && Paced(s) && Distinct(s.queue) && e < NENV && s.envs[e].status != Free
    ensures EnvsInv(Destroyed(s, e)) <==> !s.envs[e].recving
    ensures Paced(Destroyed(s, e))
  {
    RemoveIsDeletion(s.queue, e);
    assert EnvOk(s.envs[e]);
    if s.envs[e].recving {
      assert !EnvOk(Destroyed(s, e).envs[e]);
    }
  }

  ghost predicate Reschedules(s: State, op: Op) {
    op.Tick? || op.Yield? || op.Recv? || (op.Destroy? && s.cur == Some(op.env))
  }

  /** A whole kernel entry. */
  ghost function Step(s: State, op: Op): (r: Option<State>)
    requires Inv(s) && Enabled(s, op)
  {
    EffectKeeps(s, op);
    if Reschedules(s, op) then Schedule(Effect(s, op), !op.Tick?) else Some(Effect(s, op))
  }

  lemma StepKeeps(s: State, op: Op)
    requires Inv(s) && Enabled(s, op) && Step(s, op).Some?
    ensures Inv(Step(s, op).value)
  {
    EffectKeeps(s, op);
    if Reschedules(s, op) {
      ScheduleKeeps(Effect(s, op), !op.Tick?);
    }
  }

  // Whole runs.

  ghost predicate CanRun(s: State, ops: seq<Op>)
    requires Inv(s)
    decreases |ops|
  {
    ops == [] || (Enabled(s, ops[0]) && Step(s, ops[0]).Some? &&
                  (StepKeeps(s, ops[0]); CanRun(Step(s, ops[0]).value, ops[1..])))
  }

  ghost function Run(s: State, ops: seq<Op>): (t: State)
    requires Inv(s) && CanRun(s, ops)
    decreases |ops|
  {
    if ops == [] then s
    else
      StepKeeps(s, ops[0]);
      Run(Step(s, ops[0]).value, ops[1..])
  }

  /** The messages accepted for env `e`, after one more kernel entry: those sent to it while it was receiving. */
  ghost function LogAfter(s: State, op: Op, e: nat, log: seq<Message>): (r: seq<Message>)
    requires Inv(s) && Enabled(s, op) && e < NENV
  {
    match op
    case Send(to, value, perm) =>
      if to == e && s.envs[e].recving then log + [Message(value, s.envs[s.cur.value].id, perm)] else log
    case Exofork(child, _) => if child == e then [] else log
    case _ => log
  }

  /** The messages that a run sends to env `e`, added to those of before. */
  ghost function Log(s: State, ops: seq<Op>, e: nat, log: seq<Message>): (r: seq<Message>)
    requires Inv(s) && CanRun(s, ops) && e < NENV
    decreases |ops|
  {
    if ops == [] then log
    else
      StepKeeps(s, ops[0]);
      Log(Step(s, ops[0]).value, ops[1..], e, LogAfter(s, ops[0], e, log))
  }

  lemma EffectLogs(s: State, op: Op, e: nat)
    requires Inv(s) && Enabled(s, op) && e < NENV && |Effect(s, op).envs| == NENV
    ensures Effect(s, op).envs[e].accepted == LogAfter(s, op, e, s.envs[e].accepted)
  {
  }

  lemma StepLogs(s: State, op: Op, e: nat)
    requires Inv(s) && Enabled(s, op) && Step(s, op).Some? && e < NENV
    ensures |Step(s, op).value.envs| == NENV
    ensures Step(s, op).value.envs[e].accepted == LogAfter(s, op, e, s.envs[e].accepted)
  {
    EffectKeeps(s, op);
    EffectLogs(s, op, e);
    if Reschedules(s, op) {
      ScheduleKeeps(Effect(s, op), !op.Tick?);
    }
  }

  lemma {:induction false} RunLogs(s: State, ops: seq<Op>, e: nat)
    requires Inv(s) && CanRun(s, ops) && e < NENV
    ensures |Run(s, ops).envs| == NENV
    ensures Run(s, ops).envs[e].accepted == Log(s, ops, e, s.envs[e].accepted)
    decreases |ops|
  {
    if ops != [] {
      StepKeeps(s, ops[0]);
      StepLogs(s, ops[0], e);
      RunLogs(Step(s, ops[0]).value, ops[1..], e);
    }
  }

  /**
   Over every run the run list holds exactly the runnable envs, a receiver is not runnable, and what the receives
   of an env left in its fields is, in order, what was sent to it while it was receiving, with the sender: no message is
   overwritten before the next receive.
   */
  lemma {:induction false} RunKeeps(s: State, ops: seq<Op>)
    requires Inv(s) && CanRun(s, ops)
    ensures Inv(Run(s, ops))
    ensures forall e: nat :: e < NENV ==>
              Log(s, ops, e, s.envs[e].accepted)
              == Run(s, ops).envs[e].taken + if Run(s, ops).envs[e].standing then [Run(s, ops).envs[e].Ipc()] else []
  {
    RunInv(s, ops);
    forall e: nat | e < NENV
      ensures Log(s, ops, e, s.envs[e].accepted)
           == Run(s, ops).envs[e].taken + if Run(s, ops).envs[e].standing then [Run(s, ops).envs[e].Ipc()] else []
    {
      RunLogs(s, ops, e);
      assert EnvOk(Run(s, ops).envs[e]);
    }
  }

  lemma {:induction false} RunInv(s: State, ops: seq<Op>)
    requires Inv(s) && CanRun(s, ops)
    ensures Inv(Run(s, ops))
    decreases |ops|
  {
    if ops != [] {
      StepKeeps(s, ops[0]);
      RunInv(Step(s, ops[0]).value, ops[1..]);
    }
  }

  /**
   The guard on sys_set_env_status is exact: it breaks the invariant iff it makes a blocked receiver runnable, and
   then the next send puts that env into the run list a second time, which makes the list run in a circle.
   */
  lemma StatusSetExact(s: State, e: nat, status: Status, msg: Message)
    requires Inv(s) && e < NENV && s.envs[e].status != Free && status != Free
    ensures Inv(StatusSet(s, e, status)) <==> !(s.envs[e].recving && status == Runnable)
    ensures var t := Delivered(StatusSet(s, e, status), e, msg);
            s.envs[e].recving && status == Runnable ==> t.queue == s.queue + [e, e] && t.links.next[e] == Some(e)
  {
    assert EnvOk(s.envs[e]);
    if s.envs[e].recving && status == Runnable {
      assert !EnvOk(StatusSet(s, e, status).envs[e]);
    } else {
      StatusSetKeeps(s, e, status);
    }
  }

  /** `n` timer interrupts in a row, while the count lasts. */
  ghost function Ticks(s: State, n: nat): (t: State)
    requires ListInv(s) && s.cur.Some? && s.envs[s.cur.value].status == Runnable && n <= s.count < WORD
    ensures t == s.(count := s.count - n)
    decreases n
  {
    if n == 0 then s else Ticks(Schedule(s, false).value, n - 1)
  }

  /**
   An env that was chosen keeps the processor through exactly as many calls of schedule as its priority says, if
   nothing but timer interrupts happens; priority 0 acts as 2^32.
   */
  lemma PriorityIsSlices(s: State, yielding: bool, n: nat)
    requires Inv(s) && MustSwitch(s, yielding) && s.queue != [] && n < Slices(s.envs[Schedule(s, yielding).value.cur.value].pri)
    ensures var t := Schedule(s, yielding).value;
            && Inv(t) && t.envs[t.cur.value].status == Runnable && t.count + 1 == Slices(t.envs[t.cur.value].pri)
            && Ticks(t, n).cur == t.cur
            && (MustSwitch(Ticks(t, n), false) <==> n + 1 == Slices(t.envs[t.cur.value].pri))
  {
    ScheduleKeeps(s, yielding);
  }

  // Waiting times.

  /** The slices of the envs ahead of `x` in the run list, not counting `cur`. */
  ghost function Load(q: seq<nat>, x: nat, cur: Option<nat>, envs: seq<Env>): (n: nat) {
    if q == [] || q[0] == x then 0
    else (if Some(q[0]) == cur || q[0] >= |envs| then 0 else Slices(envs[q[0]].pri)) + Load(q[1..], x, cur, envs)
  }

  /** An upper bound for the number of calls of schedule after which `x` runs. */
  ghost function Wait(s: State, x: nat): (n: nat) {
    (if s.cur.Some? then s.count else 0) + Load(s.queue, x, s.cur, s.envs) + 1
  }

  /** `x` is in the list, and `y` is not in it or comes later. */
  ghost predicate Precedes(q: seq<nat>, x: nat, y: nat) {
    q != [] && (q[0] == x || (q[0] != y && Precedes(q[1..], x, y)))
  }

  lemma {:induction false} AbsentIsLater(q: seq<nat>, x: nat, y: nat)
    requires x in q && y !in q
    ensures Precedes(q, x, y)
  {
    if q[0] != x {
      assert q == [q[0]] + q[1..];
      AbsentIsLater(q[1..], x, y);
    }
  }

  /** Deleting another element moves `x` forward, if at all. */
  lemma {:induction false} LoadRemove(q: seq<nat>, e: nat, x: nat, cur: Option<nat>, envs: seq<Env>)
    requires x in q && e != x
    ensures x in Remove(q, e) && Load(Remove(q, e), x, cur, envs) <= Load(q, x, cur, envs)
    ensures cur == Some(e) ==> Load(Remove(q, e), x, cur, envs) == Load(q, x, cur, envs)
    ensures forall y :: y != x && Precedes(q, x, y) ==> Precedes(Remove(q, e), x, y)
  {
    assert q == [q[0]] + q[1..];
    if q[0] != x && q[0] != e {
      assert Remove(q, e) == [q[0]] + Remove(q[1..], e);
      LoadRemove(q[1..], e, x, cur, envs);
    }
  }

  /** An arrival at the tail leaves `x` where it is. */
  lemma {:induction false} LoadAppend(q: seq<nat>, e: nat, x: nat, cur: Option<nat>, envs: seq<Env>)
    requires x in q
    ensures Load(q + [e], x, cur, envs) == Load(q, x, cur, envs)
    ensures forall y :: y != x && Precedes(q, x, y) ==> Precedes(q + [e], x, y)
  {
    assert q == [q[0]] + q[1..];
    assert (q + [e])[1..] == q[1..] + [e];
    if q[0] != x {
      LoadAppend(q[1..], e, x, cur, envs);
    }
  }

  /** What Load reads of the envs ahead: their priorities, and which of them is current. */
  lemma {:induction false} LoadSame(q: seq<nat>, x: nat, cur: Option<nat>, cur': Option<nat>, envs: seq<Env>, envs': seq<Env>)
    requires |envs| == |envs'|
    requires forall e :: e in q ==> (Some(e) == cur <==> Some(e) == cur')
    requires forall e: nat :: e in q && e < |envs| ==> envs[e].pri == envs'[e].pri
    ensures Load(q, x, cur, envs) == Load(q, x, cur', envs')
  {
    if q != [] && q[0] != x {
      assert q == [q[0]] + q[1..];
      LoadSame(q[1..], x, cur, cur', envs, envs');
    }
  }

  /** Each call of schedule runs `x` or brings it nearer by at least one call. */
  lemma ScheduleBringsNearer(s: State, yielding: bool, x: nat)
    requires Inv(s) && x in s.queue && s.cur != Some(x) && Schedule(s, yielding).Some?
    ensures Inv(Schedule(s, yielding).value)
    ensures var t := Schedule(s, yielding).value;
            && x in t.queue
            && (t.cur == Some(x) || Wait(t, x) + 1 <= Wait(s, x))
            && (t.cur == Some(x) || forall y :: y != x && Precedes(s.queue, x, y) ==> Precedes(t.queue, x, y))
  {
    ScheduleKeeps(s, yielding);
    if MustSwitch(s, yielding) {
      RotatedLoad(s, x);
      var q := Rotated(s);
      assert q[0] in q;
      if q[0] != x {
        HeadLeaves(q, x, s.cur, s.envs);
      }
    }
  }

  /** Moving the current env to the tail changes nothing ahead of `x`. */
  lemma RotatedLoad(s: State, x: nat)
    requires Inv(s) && x in s.queue && s.cur != Some(x)
    ensures Load(Rotated(s), x, s.cur, s.envs) == Load(s.queue, x, s.cur, s.envs)
    ensures forall y :: y != x && Precedes(s.queue, x, y) ==> Precedes(Rotated(s), x, y)
  {
    if s.cur.Some? && s.envs[s.cur.value].status == Runnable {
      var rest := Remove(s.queue, s.cur.value);
      LoadRemove(s.queue, s.cur.value, x, s.cur, s.envs);
      LoadAppend(rest, s.cur.value, x, s.cur, s.envs);
    }
  }

  /** Once the head of the list is the current env, its slices are no longer ahead of `x`. */
  lemma HeadLeaves(q: seq<nat>, x: nat, cur: Option<nat>, envs: seq<Env>)
    requires Distinct(q) && x in q && q[0] != x && Some(q[0]) != cur && cur != Some(x) && q[0] < |envs|
    requires cur.Some? && cur.value in q ==> cur.value == q[|q| - 1]
    ensures Load(q, x, Some(q[0]), envs) + Slices(envs[q[0]].pri) == Load(q, x, cur, envs)
  {
    DistinctTail(q);
    NeitherAhead(q[1..], x, cur, Some(q[0]), envs);
  }

  /** An env at the very tail, or in no list, is not ahead of `x`. */
  lemma {:induction false} NeitherAhead(q: seq<nat>, x: nat, a: Option<nat>, b: Option<nat>, envs: seq<Env>)
    requires Distinct(q) && x in q && a != Some(x)
    requires a.Some? && a.value in q ==> a.value == q[|q| - 1]
    requires b.Some? ==> b.value !in q
    ensures Load(q, x, a, envs) == Load(q, x, b, envs)
  {
    if q[0] != x {
      DistinctTail(q);
      NeitherAhead(q[1..], x, a, b, envs);
    }
  }

  /** What a kernel entry does before rescheduling never moves `x` back. */
  lemma EffectDoesNotDelay(s: State, op: Op, x: nat)
    requires Inv(s) && Enabled(s, op) && x in s.queue && s.cur != Some(x) && x in Effect(s, op).queue
    ensures Inv(Effect(s, op)) && Effect(s, op).cur != Some(x)
    ensures Wait(Effect(s, op), x) <= Wait(s, x)
    ensures forall y :: y != x && Precedes(s.queue, x, y) ==> Precedes(Effect(s, op).queue, x, y)
  {
    EffectKeeps(s, op);
    var t := Effect(s, op);
    match op
    case Recv(_) => RemovalDoesNotDelay(s, t, s.cur.value, x);
    case SetStatus(e, status) => StatusDoesNotDelay(s, e, status, x);
    case Send(_, _, _) => SendDoesNotDelay(s, op, x);
    case Exofork(e, _) => LoadSame(s.queue, x, s.cur, t.cur, s.envs, t.envs);
    case Destroy(e) => RemovalDoesNotDelay(s, t, e, x);
    case _ =>
  }

  lemma SendDoesNotDelay(s: State, op: Op, x: nat)
    requires Inv(s) && Enabled(s, op) && op.Send? && x in s.queue && s.cur != Some(x) && x in Effect(s, op).queue
    ensures Wait(Effect(s, op), x) <= Wait(s, x)
    ensures forall y :: y != x && Precedes(s.queue, x, y) ==> Precedes(Effect(s, op).queue, x, y)
  {
    if s.envs[op.to].recving {
      ArrivalDoesNotDelay(s, Effect(s, op), op.to, x);
    }
  }

  lemma StatusDoesNotDelay(s: State, e: nat, status: Status, x: nat)
    requires |s.envs| == NENV && Distinct(s.queue) && e < NENV && s.envs[e].status != Free && status != Free
    requires x in s.queue && x in StatusSet(s, e, status).queue
    requires x == e ==> s.envs[e].status == Runnable
    ensures Wait(StatusSet(s, e, status), x) <= Wait(s, x)
    ensures forall y :: y != x && Precedes(s.queue, x, y) ==> Precedes(StatusSet(s, e, status).queue, x, y)
  {
    var t := StatusSet(s, e, status);
    if s.envs[e].status == Runnable && status == NotRunnable {
      RemoveIsDeletion(s.queue, e);
      RemovalDoesNotDelay(s, t, e, x);
    } else if s.envs[e].status != status {
      ArrivalDoesNotDelay(s, t, e, x);
    } else {
      LoadSame(s.queue, x, s.cur, t.cur, s.envs, t.envs);
    }
  }

  lemma RemovalDoesNotDelay(s: State, t: State, e: nat, x: nat)
    requires Distinct(s.queue) && |s.envs| == |t.envs| == NENV && x in s.queue && x != e && t.queue == Remove(s.queue, e)
    requires t.cur == s.cur || (s.cur == Some(e) && t.cur.None?)
    requires t.count == s.count && forall z: nat :: z < NENV ==> t.envs[z].pri == s.envs[z].pri
    ensures Wait(t, x) <= Wait(s, x)
    ensures forall y :: y != x && Precedes(s.queue, x, y) ==> Precedes(t.queue, x, y)
  {
    LoadRemove(s.queue, e, x, s.cur, s.envs);
    RemoveIsDeletion(s.queue, e);
    LoadSame(t.queue, x, s.cur, t.cur, s.envs, t.envs);
  }

  lemma ArrivalDoesNotDelay(s: State, t: State, e: nat, x: nat)
    requires |s.envs| == |t.envs| == NENV && x in s.queue && t.queue == s.queue + [e] && t.cur == s.cur
    requires t.count == s.count && forall z: nat :: z < NENV ==> t.envs[z].pri == s.envs[z].pri
    ensures Wait(t, x) == Wait(s, x)
    ensures forall y :: y != x && Precedes(s.queue, x, y) ==> Precedes(t.queue, x, y)
  {
    LoadAppend(s.queue, e, x, s.cur, s.envs);
    LoadSame(t.queue, x, s.cur, t.cur, s.envs, t.envs);
  }

  /** `x` stays runnable and is not chosen at any point of the run. */
  ghost predicate KeepsWaiting(s: State, ops: seq<Op>, x: nat)
    requires Inv(s) && CanRun(s, ops)
    decreases |ops|
  {
    && x in s.queue && s.cur != Some(x)
    && (ops == [] ||
        (StepKeeps(s, ops[0]);
         x in Effect(s, ops[0]).queue && KeepsWaiting(Step(s, ops[0]).value, ops[1..], x)))
  }

  /** The calls of schedule in a run. */
  ghost function Calls(s: State, ops: seq<Op>): (n: nat)
    requires Inv(s) && CanRun(s, ops)
    decreases |ops|
  {
    if ops == [] then 0
    else
      StepKeeps(s, ops[0]);
      (if Reschedules(s, ops[0]) then 1 else 0) + Calls(Step(s, ops[0]).value, ops[1..])
  }

  /**
   Bounded waiting: whatever yields, blocks, wake-ups and exits occur, a runnable env that is not chosen has
   seen fewer than Wait calls of schedule, and it stays ahead of every env that arrives meanwhile.
   */
  lemma {:induction false} BoundedWaiting(s: State, ops: seq<Op>, x: nat)
    requires Inv(s) && CanRun(s, ops) && KeepsWaiting(s, ops, x)
    ensures Calls(s, ops) < Wait(s, x)
    ensures Inv(Run(s, ops)) && Calls(s, ops) + Wait(Run(s, ops), x) <= Wait(s, x)
    ensures forall y :: y != x && Precedes(s.queue, x, y) ==> Precedes(Run(s, ops).queue, x, y)
    ensures forall y :: y !in s.queue ==> Precedes(Run(s, ops).queue, x, y)
    decreases |ops|
  {
    forall y | y !in s.queue ensures Precedes(s.queue, x, y) {
      AbsentIsLater(s.queue, x, y);
    }
    if ops != [] {
      StepKeeps(s, ops[0]);
      WaitingStep(s, ops[0], x);
      BoundedWaiting(Step(s, ops[0]).value, ops[1..], x);
    }
  }

  /** One kernel entry: a call of schedule lowers the bound, and nobody overtakes. */
  lemma WaitingStep(s: State, op: Op, x: nat)
    requires Inv(s) && Enabled(s, op) && Step(s, op).Some? && x in s.queue && s.cur != Some(x) && x in Effect(s, op).queue
    requires Step(s, op).value.cur != Some(x)
    ensures (if Reschedules(s, op) then 1 else 0) + Wait(Step(s, op).value, x) <= Wait(s, x)
    ensures forall y :: y != x && Precedes(s.queue, x, y) ==> Precedes(Step(s, op).value.queue, x, y)
  {
    EffectDoesNotDelay(s, op, x);
    if Reschedules(s, op) {
      ScheduleBringsNearer(Effect(s, op), !op.Tick?, x);
    }
  }

  /** With the current env at the head, the bound is its remaining count plus the slices in between plus one. */
  lemma {:induction false} WaitAtIndex(s: State, k: nat)
    requires Inv(s) && 0 < k < |s.queue| && s.cur == Some(s.queue[0])
    ensures Wait(s, s.queue[k]) == s.count + AllSlices(s.queue[1..k], s.envs) + 1
  {
    var q := s.queue;
    DistinctTail(q);
    assert q[1..k] == q[1..][..k - 1];
    LoadIsSlices(q[1..], k - 1, s.cur, s.envs);
  }

  /** The slices of all envs of a list. */
  ghost function AllSlices(q: seq<nat>, envs: seq<Env>): (n: nat) {
    if q == [] then 0 else (if q[0] >= |envs| then 0 else Slices(envs[q[0]].pri)) + AllSlices(q[1..], envs)
  }

  lemma {:induction false} LoadIsSlices(q: seq<nat>, k: nat, cur: Option<nat>, envs: seq<Env>)
    requires Distinct(q) && k < |q| && (cur.Some? ==> cur.value !in q)
    ensures Load(q, q[k], cur, envs) == AllSlices(q[..k], envs)
  {
    if k > 0 {
      DistinctTail(q);
      assert q[..k][1..] == q[1..][..k - 1];
      LoadIsSlices(q[1..], k - 1, cur, envs);
    }
  }

  function FreshEnv(): (e: Env) {
    Env(0, Free, 0, false, 0, 0, 0, 0, [], [], false)
  }

  function Boot(): (s: State) {
    State(seq(NENV, _ => FreshEnv()), Queue.Empty(NENV), [], None, 0)
  }

  lemma BootIsValid()
    ensures Inv(Boot())
  {
    Queue.EmptyIsTailed(NENV);
  }

  datatype Result = Ok | Inval

  /** The globals of the scheduler and the env table, changed in place by the kernel entries. */
  class Kernel {
    var envs: seq<Env>
    const list: Queue.TailQueue
    ghost var queue: seq<nat>
    var cur: Option<nat>
    var count: nat

    ghost function S(): (s: State)
      reads this, list
    {
      State(envs, list.L(), queue, cur, count)
    }

    /** env_init: every env is free, the run list empty and no link field was ever used. */
    constructor ()
      ensures S() == Boot() && Inv(S()) && fresh(list)
    {
      var q := new Queue.TailQueue(NENV);
      envs := seq(NENV, _ => FreshEnv());
      list, queue, cur, count := q, [], None, 0;
      new;
      BootIsValid();
    }

    /** TAILQ_REMOVE of any env with a back link. */
    method Unlink(e: nat)
      requires ListLinks(S()) && e < NENV && list.prev[e] != Queue.Null
      modifies list, `queue
      ensures list.L() == Queue.Unlinked(old(list.L()), e) && queue == Remove(old(queue), e)
    {
      list.Remove(e, queue);
      queue := Remove(queue, e);
    }

    /** TAILQ_INSERT_TAIL of an env that is not in the list. */
    method Append(e: nat)
      requires ListLinks(S()) && e < NENV && e !in queue
      modifies list, `queue
      ensures list.L() == Queue.Appended(old(list.L()), e) && queue == old(queue) + [e]
    {
      list.InsertTail(e, queue);
      queue := queue + [e];
    }

    method MoveToTail(e: nat)
      requires Inv(S()) && e in queue
      modifies list, `queue
      ensures list.L() == Queue.Appended(Queue.Unlinked(old(list.L()), e), e) && queue == Remove(old(queue), e) + [e]
    {
      MemberHasBackLink(S(), e);
      UnlinkMember(list.L(), queue, e);
      RemoveIsDeletion(queue, e);
      Unlink(e);
      Append(e);
    }

    /** False stands for the panic of an empty run list. */
    method Sched(yielding: bool) returns (ok: bool)
      requires Inv(S())
      modifies list, `queue, `cur, `count
      ensures if ok then Schedule(old(S()), yielding) == Some(S()) else Schedule(old(S()), yielding).None?
      ensures ok ==> Inv(S())
      ensures var must := old(cur).None? || yielding || old(count) == 0 || envs[old(cur).value].status != Runnable;
              && (ok <==> !must || old(queue) != [])
              && (ok && !must ==> cur == old(cur) && count == old(count) - 1 && queue == old(queue))
              && (ok && must ==>
                    && queue == (if old(cur).Some? && envs[old(cur).value].status == Runnable
                                 then Remove(old(queue), old(cur).value) + [old(cur).value] else old(queue))
                    && queue != [] && cur == Some(queue[0]) && queue[0] < NENV
                    && count == (if envs[queue[0]].pri == 0 then 0xffff_ffff else envs[queue[0]].pri - 1))
    {
      ScheduleIs(S(), yielding);
      if Schedule(S(), yielding).Some? {
        ScheduleKeeps(S(), yielding);
      }
      ghost var s := S();
      var e := cur;
      if e.None? || yielding || count == 0 || envs[e.value].status != Runnable {
        if list.first.None? {
          return false;
        }
        ghost var rotated := RotatedLinks(S());
        if e.Some? && envs[e.value].status == Runnable {
          MoveToTail(e.value);
        }
        assert list.L() == rotated && queue[0] in queue;
        e := list.first;
        count := envs[e.value].pri;
      }
      count := Dec(count);
      cur := e;
      assert Schedule(s, yielding) == Some(S());
      ok := true;
    }

    /** sys_ipc_recv with an address that passed its check; false stands for the panic of an empty run list. */
    method IpcRecv(dstva: nat) returns (ok: bool)
      requires Inv(S()) && Enabled(S(), Recv(dstva))
      modifies this, list
      ensures if ok then Step(old(S()), Recv(dstva)) == Some(S()) else Step(old(S()), Recv(dstva)).None?
      ensures ok ==>
                var me := old(cur).value; var x := old(envs)[me];
                && Inv(S()) && queue == Remove(old(queue), me) && queue != [] && cur == Some(queue[0])
                && envs == old(envs)[me := x.(status := NotRunnable, recving := true, dstva := dstva, standing := false,
                                              taken := x.taken + if x.standing then [x.Ipc()] else [])]
    {
      EffectKeeps(S(), Recv(dstva));
      var me := cur.value;
      var x := envs[me];
      Unlink(me);
      envs := envs[me := x.(standing := false, taken := x.taken + if x.standing then [x.Ipc()] else [])];
      envs := envs[me := envs[me].(recving := true)];
      envs := envs[me := envs[me].(dstva := dstva)];
      envs := envs[me := envs[me].(status := NotRunnable)];
      assert S() == Blocked(old(S()), dstva);
      ok := Sched(true);
    }

    /** The part of sys_ipc_try_send that fills the target's fields and wakes it, if it is receiving; `perm` has PTE_V. */
    method Deliver(to: nat, value: nat, perm: Perm) returns (ok: bool)
      requires Inv(S()) && Enabled(S(), Send(to, value, perm))
      modifies list, `envs, `queue
      ensures ok == old(envs)[to].recving && Inv(S())
      ensures Step(old(S()), Send(to, value, perm)) == Some(S())
      ensures !ok ==> S() == old(S())
      ensures ok ==>
                var x, from := old(envs)[to], old(envs)[cur.value].id;
                && queue == old(queue) + [to]
                && envs == old(envs)[to := x.(status := Runnable, recving := false, value := value, from := from,
                                              perm := perm, standing := true,
                                              accepted := x.accepted + [Message(value, from, perm)])]
    {
      StepKeeps(S(), Send(to, value, perm));
      if !envs[to].recving {
        return false;
      }
      var from := envs[cur.value].id;
      Append(to);
      envs := envs[to := envs[to].(value := value, from := from, perm := perm, recving := false)];
      envs := envs[to := envs[to].(status := Runnable)];
      envs := envs[to := envs[to].(accepted := envs[to].accepted + [envs[to].Ipc()], standing := true)];
      assert S() == Delivered(old(S()), to, MessageOf(old(S()), value, perm));
      return true;
    }

    /**
     sys_set_env_status; `Free` stands for every number that is neither ENV_RUNNABLE nor ENV_NOT_RUNNABLE. The
     invariant survives iff no blocked receiver is made runnable.
     */
    method SetEnvStatus(e: nat, status: Status) returns (r: Result)
      requires Inv(S()) && e < NENV && envs[e].status != Free
      modifies list, `envs, `queue
      ensures r == if status == Free then Inval else Ok
      ensures status == Free ==> S() == old(S())
      ensures status != Free ==>
                && envs == old(envs)[e := old(envs)[e].(status := status)]
                && queue == (if old(envs)[e].status == status then old(queue)
                             else if status == Runnable then old(queue) + [e] else Remove(old(queue), e))
                && S() == StatusSet(old(S()), e, status)
      ensures Inv(S()) <==> !(old(envs)[e].recving && status == Runnable)
    {
      if status != Runnable && status != NotRunnable {
        return Inval;
      }
      StatusSetExact(S(), e, status, Message(0, 0, 0));
      if envs[e].status == Runnable && status == NotRunnable {
        MemberHasBackLink(S(), e);
        Unlink(e);
      }
      if envs[e].status == NotRunnable && status == Runnable {
        Append(e);
      }
      envs := envs[e := envs[e].(status := status)];
      r := Ok;
    }

    /** sys_set_env_status where it keeps the invariant. */
    method GuardedStatus(e: nat, status: Status)
      requires Inv(S())
      modifies list, `envs, `queue
      ensures Inv(S())
      ensures S() == if Enabled(old(S()), SetStatus(e, status)) then StatusSet(old(S()), e, status) else old(S())
    {
      if e < NENV && envs[e].status != Free && status != Free && !(envs[e].recving && status == Runnable) {
        var r := SetEnvStatus(e, status);
      }
    }

    /** What sys_exofork sets in the env that env_alloc returned. */
    method Exofork(e: nat, id: nat)
      requires Inv(S()) && Enabled(S(), Op.Exofork(e, id))
      modifies `envs
      ensures S() == Exoforked(old(S()), e, id) && Inv(S())
      ensures envs == old(envs)[e := old(envs)[e].(id := id, status := NotRunnable, pri := old(envs)[cur.value].pri,
                                                   accepted := [], taken := [], standing := false)]
    {
      ExoforkedKeeps(S(), e, id);
      envs := envs[e := envs[e].(id := id)];
      envs := envs[e := envs[e].(status := NotRunnable)];
      envs := envs[e := envs[e].(pri := envs[cur.value].pri)];
      envs := envs[e := envs[e].(accepted := [], taken := [], standing := false)];
    }

    /** TAILQ_REMOVE of env `e` would do no harm; an env is in the list iff it is runnable. */
    function Safe(e: nat): (b: bool)
      requires Inv(S()) && e < NENV
      reads this, list
      ensures b <==> list.prev[e] != Queue.Null && Removable(S(), e)
    {
      SafeIsRemovable(S(), e);
      var n, c := list.next[e], list.prev[e];
      c != Queue.Null &&
      (envs[e].status == Runnable ||
       ((c == Queue.First ==> list.first == n)
        && (c.NextOf? && envs[c.elem].status == Runnable ==> list.next[c.elem] == n)
        && (n.Some? && envs[n.value].status == Runnable ==> list.prev[n.value] == c)
        && (n.None? ==> list.last == c)))
    }

    /** What env_free does to the run list and the status, exactly. */
    method EnvFree(e: nat)
      requires Inv(S()) && e < NENV && envs[e].status != Free && list.prev[e] != Queue.Null
      modifies list, `envs, `queue
      ensures S().(cur := if cur == Some(e) then None else cur) == Destroyed(old(S()), e) && cur == old(cur)
      ensures envs == old(envs)[e := old(envs)[e].(status := Free)] && queue == Remove(old(queue), e)
    {
      Unlink(e);
      envs := envs[e := envs[e].(status := Free)];
    }

    /** env_destroy; false stands for the panic of an empty run list. */
    method EnvDestroy(e: nat) returns (ok: bool)
      requires Inv(S()) && Enabled(S(), Destroy(e))
      modifies this, list
      ensures if ok then Step(old(S()), Destroy(e)) == Some(S()) else Step(old(S()), Destroy(e)).None?
      ensures ok ==> Inv(S()) && envs == old(envs)[e := old(envs)[e].(status := Free)] && queue == Remove(old(queue), e)
      ensures ok ==> if old(cur) == Some(e) then queue != [] && cur == Some(queue[0]) else cur == old(cur)
    {
      EffectKeeps(S(), Destroy(e));
      EnvFree(e);
      ok := true;
      if cur == Some(e) {
        cur := None;
        assert S() == Destroyed(old(S()), e);
        ok := Sched(true);
      }
    }
  }
}
