/**
 The closed test of user/lib/pipe.c under every interleaving of the mapping steps of dup and
 close (user/lib/fd.c) and of fork (user/lib/fork.c). The test compares two reference counts that it reads at different
 moments, and repeats until its env was not rescheduled in between.
 */
module PipeClose {
  import opened Common

  datatype End = ReadEnd | WriteEnd

  function Other(d: End): (r: End) {
    if d == ReadEnd then WriteEnd else ReadEnd
  }

  /** File descriptor `fd` of env `env`: it has an Fd page and a data page. */
  datatype Slot = Slot(env: nat, fd: nat)

  /** What an env is in the middle of. */
  datatype Pc =
    | Idle
      /** Fd page unmapped, data page still to be; then go on with the dup from `from`, if any. */
    | Closing(fd: nat, from: Option<nat>)
      /** dup: about to map the data page, about to map the Fd page. */
    | DupData(src: nat, dst: nat)
    | DupFd(src: nat, dst: nat)
      /** fork: about to pass on page `i` of 64, first the Fd pages and then the data pages, as their addresses ascend. */
    | Copying(child: nat, i: nat)
      /** The closed test: run number read; count of the Fd page read; count of the pipe page read; answered. */
    | Began(fd: nat, runs: nat)
    | SawFd(fd: nat, runs: nat, fdRef: nat)
    | SawPipe(fd: nat, runs: nat, fdRef: nat, pipeRef: nat)
    | Answered(fd: nat, closed: bool)

  /** MAXFD */
  const NFD: nat := 32

  /**
   `fds` tells whose Fd pages are mapped and for which end, `data` whose data pages are mapped to the pipe;
   `runs` is env_runs of each env. An env without a `pc` does not run: it is dead, or a child that fork is still making.
   */
  datatype State = State(fds: map<Slot, End>, data: set<Slot>, pc: map<nat, Pc>, runs: map<nat, nat>, cur: nat)

  ghost function FdRefs(s: State, d: End): (n: nat) {
    |set x | x in s.fds && s.fds[x] == d|
  }

  ghost function PipeRefs(s: State): (n: nat) {
    |s.data|
  }

  function At(s: State, pc: Pc): (t: State) {
    s.(pc := s.pc[s.cur := pc])
  }

  /** The steps; all but Switch are taken by the current env. */
  datatype Step =
    | Switch(to: nat)
    | CloseFd(fd: nat)
    | CloseData
    | DupStart(src: nat, dst: nat)
    | MapData(ok: bool)
    | MapFd(ok: bool)
    | ForkStart(child: nat)
    | CopyPage
    | ForkEnd
    | Destroy(env: nat)
    | Exit(to: nat)
    | Begin(fd: nat)
    | SeeFd
    | SeePipe
    | Conclude
    | Resume

  /** No env has that number, and none is being made with it. */
  ghost predicate Unborn(s: State, child: nat) {
    && child !in s.pc && (forall x :: x in s.fds ==> x.env != child) && (forall x :: x in s.data ==> x.env != child)
    && forall e :: e in s.pc && s.pc[e].Copying? ==> s.pc[e].child != child
  }

  ghost predicate Enabled(s: State, step: Step) {
    s.cur in s.pc && s.cur in s.runs &&
    match step
    case Switch(to) => to in s.pc && to in s.runs
    case CloseFd(fd) => s.pc[s.cur] == Idle && Slot(s.cur, fd) in s.fds
    case CloseData => s.pc[s.cur].Closing?
    case DupStart(src, dst) => s.pc[s.cur] == Idle && Slot(s.cur, src) in s.fds && dst < NFD
    case MapData(_) => s.pc[s.cur].DupData?
    case MapFd(_) => s.pc[s.cur].DupFd?
    case ForkStart(child) => s.pc[s.cur] == Idle && Unborn(s, child)
    case CopyPage => s.pc[s.cur].Copying? && s.pc[s.cur].i < 2 * NFD
    case ForkEnd => s.pc[s.cur].Copying? && s.pc[s.cur].i == 2 * NFD
    case Destroy(env) => s.pc[s.cur] == Idle && env in s.pc && env != s.cur
    case Exit(to) => s.pc[s.cur] == Idle && to in s.pc && to in s.runs && to != s.cur
    case Begin(fd) => s.pc[s.cur] == Idle && Slot(s.cur, fd) in s.fds
    case SeeFd => s.pc[s.cur].Began? && Slot(s.cur, s.pc[s.cur].fd) in s.fds
    case SeePipe => s.pc[s.cur].SawFd?
    case Conclude => s.pc[s.cur].SawPipe?
    case Resume => s.pc[s.cur].Answered?
  }

  /** env_free: the mappings of the env are gone, and it does not run any more. */
  function Without(s: State, env: nat): (t: State) {
    s.(fds := (map x | x in s.fds && x.env != env :: s.fds[x]), data := (set x | x in s.data && x.env != env),
       pc := s.pc - {env})
  }

  ghost function Next(s: State, step: Step): (t: State)
    requires Enabled(s, step)
  {
    match step
    case Switch(to) => s.(cur := to, runs := s.runs[to := s.runs[to] + 1])
    case CloseFd(fd) => At(s.(fds := s.fds - {Slot(s.cur, fd)}), Closing(fd, None))
    case CloseData =>
      var Closing(fd, from) := s.pc[s.cur];
      At(s.(data := s.data - {Slot(s.cur, fd)}), if from.Some? then DupData(from.value, fd) else Idle)
    case DupStart(src, dst) =>
      if Slot(s.cur, dst) in s.fds then At(s.(fds := s.fds - {Slot(s.cur, dst)}), Closing(dst, Some(src)))
      else At(s, DupData(src, dst))
    case MapData(ok) =>
      var DupData(src, dst) := s.pc[s.cur];
      if Slot(s.cur, src) !in s.data then At(s, DupFd(src, dst))
      else if ok then At(s.(data := s.data + {Slot(s.cur, dst)}), DupFd(src, dst))
      else At(s, Closing(dst, None))
    case MapFd(ok) =>
      var DupFd(src, dst) := s.pc[s.cur];
      if ok && Slot(s.cur, src) in s.fds
      then At(s.(fds := s.fds[Slot(s.cur, dst) := s.fds[Slot(s.cur, src)]]), Idle)
      else At(s.(fds := s.fds - {Slot(s.cur, dst)}), Closing(dst, None))
    case ForkStart(child) => At(s, Copying(child, 0))
    case CopyPage =>
      var Copying(child, i) := s.pc[s.cur];
      if i < NFD then
        if Slot(s.cur, i) in s.fds
        then At(s.(fds := s.fds[Slot(child, i) := s.fds[Slot(s.cur, i)]]), Copying(child, i + 1))
        else At(s, Copying(child, i + 1))
      else if Slot(s.cur, i - NFD) in s.data then At(s.(data := s.data + {Slot(child, i - NFD)}), Copying(child, i + 1))
      else At(s, Copying(child, i + 1))
    case ForkEnd =>
      var child := s.pc[s.cur].child;
      s.(pc := s.pc[s.cur := Idle][child := Idle], runs := s.runs[child := 0])
    case Destroy(env) => Without(s, env)
    case Exit(to) => Without(s, s.cur).(cur := to, runs := s.runs[to := s.runs[to] + 1])
    case Begin(fd) => At(s, Began(fd, s.runs[s.cur]))
    case SeeFd =>
      var Began(fd, runs) := s.pc[s.cur];
      At(s, SawFd(fd, runs, FdRefs(s, s.fds[Slot(s.cur, fd)])))
    case SeePipe =>
      var SawFd(fd, runs, fdRef) := s.pc[s.cur];
      At(s, SawPipe(fd, runs, fdRef, PipeRefs(s)))
    case Conclude =>
      var SawPipe(fd, runs, fdRef, pipeRef) := s.pc[s.cur];
      if runs == s.runs[s.cur] then At(s, Answered(fd, fdRef == pipeRef)) else At(s, Began(fd, s.runs[s.cur]))
    case Resume => At(s, Idle)
  }

  /** The env is between unmapping or mapping the two pages of descriptor `fd`. */
  predicate InFlight(pc: Pc, fd: nat) {
    (pc.Closing? && pc.fd == fd) || (pc.DupFd? && pc.dst == fd)
  }

  /**
   In an env that runs, a mapped Fd page has its data page mapped, and the converse holds except for a descriptor in
   flight. In a child that fork is making, a mapped data page has its Fd page mapped.
   */
  ghost predicate Paired(s: State) {
    && (forall x :: x in s.fds ==> x.fd < NFD && (x.env in s.pc ==> x in s.data))
    && (forall x :: x in s.data ==> x.fd < NFD && (x in s.fds || (x.env in s.pc && InFlight(s.pc[x.env], x.fd))))
    && (forall e :: e in s.pc && s.pc[e].Closing? ==> s.pc[e].fd < NFD && Slot(e, s.pc[e].fd) !in s.fds)
    && (forall e :: e in s.pc && (s.pc[e].DupData? || s.pc[e].DupFd?) ==> s.pc[e].dst < NFD && Slot(e, s.pc[e].dst) !in s.fds)
    && (forall e :: e in s.pc && s.pc[e].DupFd? && Slot(e, s.pc[e].src) in s.fds ==> Slot(e, s.pc[e].dst) in s.data)
  }

  /** The child that env `e` is making has exactly the pages of `e` that were passed on so far. */
  ghost predicate HalfMade(s: State, e: nat, child: nat, i: nat) {
    && i <= 2 * NFD && child !in s.pc
    && (forall fd: nat {:trigger Slot(child, fd)} ::
          && (Slot(child, fd) in s.fds <==> fd < i && Slot(e, fd) in s.fds)
          && (Slot(child, fd) in s.fds ==> s.fds[Slot(child, fd)] == s.fds[Slot(e, fd)])
          && (Slot(child, fd) in s.data <==> fd + NFD < i && Slot(e, fd) in s.data))
  }

  ghost predicate Copies(s: State) {
    && (forall e :: e in s.pc && s.pc[e].Copying? ==> HalfMade(s, e, s.pc[e].child, s.pc[e].i))
    && (forall e, e' :: e in s.pc && e' in s.pc && e != e' && s.pc[e].Copying? && s.pc[e'].Copying? ==>
          s.pc[e].child != s.pc[e'].child)
  }

  /** The counts that the test of env `e` has read are those of the present moment, unless `e` was rescheduled. */
  ghost predicate Snapshot(s: State, e: nat)
    requires e in s.pc
  {
    e in s.runs &&
    match s.pc[e]
    case Began(fd, runs) => Slot(e, fd) in s.fds && runs <= s.runs[e]
    case SawFd(fd, runs, fdRef) =>
      && Slot(e, fd) in s.fds && runs <= s.runs[e]
      && (s.cur == e && runs == s.runs[e] ==> fdRef == FdRefs(s, s.fds[Slot(e, fd)]))
    case SawPipe(fd, runs, fdRef, pipeRef) =>
      && Slot(e, fd) in s.fds && runs <= s.runs[e]
      && (s.cur == e && runs == s.runs[e] ==> fdRef == FdRefs(s, s.fds[Slot(e, fd)]) && pipeRef == PipeRefs(s))
    case _ => true
  }

  ghost predicate Inv(s: State) {
    Paired(s) && Copies(s) && s.cur in s.pc && forall e :: e in s.pc ==> Snapshot(s, e)
  }

  lemma PairedKeeps(s: State, step: Step)
    requires Inv(s) && Enabled(s, step)
    ensures Paired(Next(s, step))
  {
    match step
    case CloseFd(_) => UnmapFdPaired(s, step);
    case DupStart(_, _) => UnmapFdPaired(s, step);
    case CloseData => CloseDataPaired(s);
    case MapData(_) => MapDataPaired(s, step);
    case MapFd(_) => MapFdPaired(s, step);
    case CopyPage => CopyPaired(s);
    case ForkEnd => ForkEndPaired(s);
    case _ =>
  }

  lemma CopyPaired(s: State)
    requires Inv(s) && Enabled(s, CopyPage)
    ensures Paired(Next(s, CopyPage))
  {
  }

  lemma ForkEndPaired(s: State)
    requires Inv(s) && Enabled(s, ForkEnd)
    ensures Paired(Next(s, ForkEnd))
  {
    var child := s.pc[s.cur].child;
    assert HalfMade(s, s.cur, child, 2 * NFD);
    forall x | x in s.fds && x.env == child ensures x in s.data {
      assert x == Slot(child, x.fd) && Slot(s.cur, x.fd) in s.fds;
    }
  }

  lemma CopiesKeeps(s: State, step: Step)
    requires Inv(s) && Enabled(s, step)
    ensures Copies(Next(s, step))
  {
    var t := Next(s, step);
    forall e | e in t.pc && t.pc[e].Copying? ensures HalfMade(t, e, t.pc[e].child, t.pc[e].i) {
      HalfMadeKeeps(s, step, e);
    }
  }

  lemma HalfMadeKeeps(s: State, step: Step, e: nat)
    requires Inv(s) && Enabled(s, step) && e in Next(s, step).pc && Next(s, step).pc[e].Copying?
    ensures HalfMade(Next(s, step), e, Next(s, step).pc[e].child, Next(s, step).pc[e].i)
  {
    if e != s.cur {
      assert HalfMade(s, e, s.pc[e].child, s.pc[e].i);
      TheirChildKeeps(s, step, e);
    } else if step.CopyPage? {
      CopyGrows(s);
    } else if e in s.pc && s.pc[e].Copying? {
      assert HalfMade(s, e, s.pc[e].child, s.pc[e].i);
    }
  }

  /** Another env's child: the current env touches neither that env nor its child. */
  lemma TheirChildKeeps(s: State, step: Step, e: nat)
    requires Inv(s) && Enabled(s, step) && e in Next(s, step).pc && e in s.pc && e != s.cur && s.pc[e].Copying?
    requires HalfMade(s, e, s.pc[e].child, s.pc[e].i)
    ensures HalfMade(Next(s, step), e, s.pc[e].child, s.pc[e].i)
  {
    var child := s.pc[e].child;
    assert Snapshot(s, e);
    StepFrame(s, step, e);
    if s.pc[s.cur].Copying? {
      assert s.pc[s.cur].child != child;
    }
    StepSlots(s, step, child);
    HalfMadeFrame(s, Next(s, step), e, child, s.pc[e].i);
  }

  lemma HalfMadeFrame(s: State, t: State, e: nat, child: nat, i: nat)
    requires HalfMade(s, e, child, i) && SameSlots(s, t, e) && SameSlots(s, t, child) && child !in t.pc
    ensures HalfMade(t, e, child, i)
  {
  }

  lemma CopyGrows(s: State)
    requires Inv(s) && Enabled(s, CopyPage)
    ensures HalfMade(Next(s, CopyPage), s.cur, s.pc[s.cur].child, s.pc[s.cur].i + 1)
  {
    assert HalfMade(s, s.cur, s.pc[s.cur].child, s.pc[s.cur].i);
  }

  lemma UnmapFdPaired(s: State, step: Step)
    requires Inv(s) && Enabled(s, step) && (step.CloseFd? || step.DupStart?)
    ensures Paired(Next(s, step))
  {
  }

  lemma CloseDataPaired(s: State)
    requires Inv(s) && Enabled(s, CloseData)
    ensures Paired(Next(s, CloseData))
  {
  }

  lemma MapDataPaired(s: State, step: Step)
    requires Inv(s) && Enabled(s, step) && step.MapData?
    ensures Paired(Next(s, step))
  {
  }

  lemma MapFdPaired(s: State, step: Step)
    requires Inv(s) && Enabled(s, step) && step.MapFd?
    ensures Paired(Next(s, step))
  {
  }

  lemma SnapshotKeeps(s: State, step: Step, e: nat)
    requires Inv(s) && Enabled(s, step) && e in Next(s, step).pc
    ensures Snapshot(Next(s, step), e)
  {
    if e !in s.pc {
      return;
    }
    assert Snapshot(s, e);
    if e == s.cur {
      MineKeeps(s, step);
    } else {
      TheirsKeeps(s, step, e);
    }
  }

  /** The current env's own step: it reads the counts of this very moment. */
  lemma MineKeeps(s: State, step: Step)
    requires Inv(s) && Enabled(s, step) && Snapshot(s, s.cur)
    ensures s.cur in Next(s, step).pc ==> Snapshot(Next(s, step), s.cur)
  {
  }

  /** Another env's view: it is not current, and becomes so only with a new run number. */
  lemma TheirsKeeps(s: State, step: Step, e: nat)
    requires Inv(s) && Enabled(s, step) && e in Next(s, step).pc && e in s.pc && e != s.cur && Snapshot(s, e)
    ensures Snapshot(Next(s, step), e)
  {
    StepFrame(s, step, e);
    SnapshotFrame(s, Next(s, step), e);
  }

  /** The descriptors of env `e` are the same in both states. */
  ghost predicate SameSlots(s: State, t: State, e: nat) {
    forall fd: nat {:trigger Slot(e, fd)} ::
      && (Slot(e, fd) in t.fds <==> Slot(e, fd) in s.fds)
      && (Slot(e, fd) in s.fds ==> t.fds[Slot(e, fd)] == s.fds[Slot(e, fd)])
      && (Slot(e, fd) in t.data <==> Slot(e, fd) in s.data)
  }

  /** Env `e` is not current, or it is and has a new run number. */
  ghost predicate Stale(s: State, t: State, e: nat) {
    e in s.runs && e in t.runs && s.runs[e] <= t.runs[e] && (t.cur == e ==> s.runs[e] < t.runs[e])
  }

  /** A step of the current env leaves alone every env but itself, its child and the one it destroys. */
  lemma StepSlots(s: State, step: Step, e: nat)
    requires Inv(s) && Enabled(s, step) && e != s.cur
    requires !(step.Destroy? && step.env == e) && !(s.pc[s.cur].Copying? && s.pc[s.cur].child == e)
    ensures SameSlots(s, Next(s, step), e)
  {
  }

  lemma StepFrame(s: State, step: Step, e: nat)
    requires Inv(s) && Enabled(s, step) && e in Next(s, step).pc && e in s.pc && e != s.cur && e in s.runs
    ensures SameSlots(s, Next(s, step), e) && Stale(s, Next(s, step), e) && Next(s, step).pc[e] == s.pc[e]
  {
    if s.pc[s.cur].Copying? {
      assert HalfMade(s, s.cur, s.pc[s.cur].child, s.pc[s.cur].i);
    }
    StepSlots(s, step, e);
  }

  lemma SnapshotFrame(s: State, t: State, e: nat)
    requires e in s.pc && e in t.pc && t.pc[e] == s.pc[e] && Snapshot(s, e) && SameSlots(s, t, e) && Stale(s, t, e)
    ensures Snapshot(t, e)
  {
  }

  lemma NextKeeps(s: State, step: Step)
    requires Inv(s) && Enabled(s, step)
    ensures Inv(Next(s, step))
  {
    PairedKeeps(s, step);
    CopiesKeeps(s, step);
    forall e | e in Next(s, step).pc ensures Snapshot(Next(s, step), e) {
      SnapshotKeeps(s, step, e);
    }
  }

  ghost predicate Moves(s: State, t: State) {
    exists step :: Enabled(s, step) && t == Next(s, step)
  }

  ghost predicate IsRun(run: seq<State>) {
    run != [] && forall i :: 0 < i < |run| ==> Moves(run[i - 1], run[i])
  }

  lemma MoveKeeps(s: State, t: State)
    requires Inv(s) && Moves(s, t)
    ensures Inv(t)
  {
    var step :| Enabled(s, step) && t == Next(s, step);
    NextKeeps(s, step);
  }

  lemma {:induction false} RunKeeps(run: seq<State>, i: nat)
    requires IsRun(run) && Inv(run[0]) && i < |run|
    ensures Inv(run[i])
  {
    if i > 0 {
      RunKeeps(run, i - 1);
      MoveKeeps(run[i - 1], run[i]);
    }
  }

  /** pipe() leaves both ends mapped in the calling env, with their data pages. */
  lemma FreshPipeIsValid(e: nat, r: nat, w: nat, n: nat)
    requires r != w && r < NFD && w < NFD
    ensures Inv(State(map[Slot(e, r) := ReadEnd, Slot(e, w) := WriteEnd], {Slot(e, r), Slot(e, w)},
                      map[e := Idle], map[e := n], e))
    ensures Housed(State(map[Slot(e, r) := ReadEnd, Slot(e, w) := WriteEnd], {Slot(e, r), Slot(e, w)},
                         map[e := Idle], map[e := n], e))
  {
  }

  // What the calls achieve.

  /** The last step of a dup that succeeds, however often the env was interrupted: the new descriptor is whole and of the same end. */
  lemma DupEnds(s: State)
    requires Inv(s) && Enabled(s, MapFd(true)) && Slot(s.cur, s.pc[s.cur].src) in s.fds
    ensures var x, y, t := Slot(s.cur, s.pc[s.cur].src), Slot(s.cur, s.pc[s.cur].dst), Next(s, MapFd(true));
            && t.fds == s.fds[y := s.fds[x]] && y in t.data && t.data == s.data && t.pc == s.pc[s.cur := Idle]
  {
  }

  /** The state when dup has closed the new descriptor. */
  ghost function DupBegun(s: State, src: nat, dst: nat): (t: State)
    requires Enabled(s, DupStart(src, dst))
  {
    var t := Next(s, DupStart(src, dst));
    if t.pc[t.cur].Closing? then Next(t, CloseData) else t
  }

  lemma DupBegins(s: State, src: nat, dst: nat)
    requires Inv(s) && Enabled(s, DupStart(src, dst))
    ensures var y := Slot(s.cur, dst);
            DupBegun(s, src, dst) == s.(fds := s.fds - {y}, data := s.data - {y}, pc := s.pc[s.cur := DupData(src, dst)])
  {
    var y := Slot(s.cur, dst);
    if y in s.fds {
      assert s.pc[s.cur := Closing(dst, Some(src))][s.cur := DupData(src, dst)] == s.pc[s.cur := DupData(src, dst)];
    } else {
      assert y !in s.data && s.fds - {y} == s.fds && s.data - {y} == s.data;
    }
  }

  /** A dup without interruption makes the new descriptor one of the same end with the same data page; nothing else changes. */
  lemma DupIsCopy(s: State, src: nat, dst: nat)
    requires Inv(s) && Enabled(s, DupStart(src, dst)) && src != dst
    ensures var x, y, t := Slot(s.cur, src), Slot(s.cur, dst), DupBegun(s, src, dst);
            && Enabled(t, MapData(true)) && Enabled(Next(t, MapData(true)), MapFd(true))
            && Next(Next(t, MapData(true)), MapFd(true)) == s.(fds := s.fds[y := s.fds[x]], data := s.data + {y})
  {
    DupBegins(s, src, dst);
    var x, y, t := Slot(s.cur, src), Slot(s.cur, dst), DupBegun(s, src, dst);
    assert x in t.data;
    var u := Next(t, MapData(true));
    assert (s.data - {y}) + {y} == s.data + {y} && (s.fds - {y})[y := s.fds[x]] == s.fds[y := s.fds[x]];
    assert u.pc[s.cur := Idle] == s.pc;
  }

  /** The state when a dup has failed at its first mapping, or at its second. */
  ghost function DupFailed(t: State, first: bool): (u: State)
    requires Enabled(t, MapData(!first))
  {
    var u := Next(t, MapData(!first));
    if first || !Enabled(u, MapFd(false)) then u else Next(u, MapFd(false))
  }

  /** A dup that fails leaves the new descriptor closed; nothing else changes. */
  lemma FailedDupCloses(s: State, src: nat, dst: nat, first: bool)
    requires Inv(s) && Enabled(s, DupStart(src, dst)) && src != dst
    ensures var y, t := Slot(s.cur, dst), DupBegun(s, src, dst);
            && Enabled(t, MapData(!first)) && Enabled(DupFailed(t, first), CloseData)
            && Next(DupFailed(t, first), CloseData) == s.(fds := s.fds - {y}, data := s.data - {y})
  {
    DupBegins(s, src, dst);
    var y, t := Slot(s.cur, dst), DupBegun(s, src, dst);
    assert Slot(s.cur, src) in t.data;
    var u := DupFailed(t, first);
    assert u.pc[s.cur] == Closing(dst, None) && u.pc[s.cur := Idle] == s.pc;
    assert u.data - {y} == s.data - {y} && u.fds == s.fds - {y};
  }

  /** A dup of a descriptor to itself closes it, finds nothing to map, and fails. */
  lemma SelfDupCloses(s: State, fd: nat, data: bool, ok: bool)
    requires Inv(s) && Enabled(s, DupStart(fd, fd))
    ensures var t := DupBegun(s, fd, fd);
            && Enabled(t, MapData(data)) && Enabled(Next(t, MapData(data)), MapFd(ok))
            && var u := Next(Next(t, MapData(data)), MapFd(ok));
               && u.pc[s.cur] == Closing(fd, None) && Slot(s.cur, fd) !in u.fds && Slot(s.cur, fd) !in u.data
  {
    DupBegins(s, fd, fd);
  }

  /** A close without interruption: exactly that descriptor is gone. */
  lemma CloseIsRemoval(s: State, fd: nat)
    requires Enabled(s, CloseFd(fd))
    ensures Enabled(Next(s, CloseFd(fd)), CloseData)
    ensures Next(Next(s, CloseFd(fd)), CloseData)
         == s.(fds := s.fds - {Slot(s.cur, fd)}, data := s.data - {Slot(s.cur, fd)})
  {
    assert s.pc[s.cur := Closing(fd, None)][s.cur := Idle] == s.pc;
  }

  /** The end of a fork, however often it was interrupted: parent and child have the same descriptors, all of them whole. */
  lemma ForkEnds(s: State, fd: nat)
    requires Inv(s) && Enabled(s, ForkEnd)
    ensures var child, t := s.pc[s.cur].child, Next(s, ForkEnd);
            && child in t.pc && t.pc[child] == Idle && t.pc[s.cur] == Idle && t.fds == s.fds && t.data == s.data
            && (Slot(child, fd) in t.fds <==> Slot(s.cur, fd) in t.fds)
            && (Slot(child, fd) in t.fds ==> t.fds[Slot(child, fd)] == t.fds[Slot(s.cur, fd)] && Slot(child, fd) in t.data)
            && (Slot(child, fd) in t.data <==> Slot(child, fd) in t.fds)
  {
    assert HalfMade(s, s.cur, s.pc[s.cur].child, 2 * NFD);
    var x := Slot(s.cur, fd);
  }

  /** The closed test without interruption answers, from the counts of that moment. */
  lemma TestAnswers(s: State, fd: nat)
    requires Inv(s) && Enabled(s, Begin(fd))
    ensures var t := Next(s, Begin(fd));
            && Enabled(t, SeeFd) && Enabled(Next(t, SeeFd), SeePipe) && Enabled(Next(Next(t, SeeFd), SeePipe), Conclude)
            && Next(Next(Next(t, SeeFd), SeePipe), Conclude)
               == s.(pc := s.pc[s.cur := Answered(fd, FdRefs(s, s.fds[Slot(s.cur, fd)]) == PipeRefs(s))])
  {
    var t := Next(s, Begin(fd));
    var u := Next(t, SeeFd);
    assert u.pc[s.cur] == SawFd(fd, s.runs[s.cur], FdRefs(s, s.fds[Slot(s.cur, fd)]));
    var v := Next(u, SeePipe);
    assert v.pc[s.cur] == SawPipe(fd, s.runs[s.cur], FdRefs(s, s.fds[Slot(s.cur, fd)]), PipeRefs(s));
    var a := Answered(fd, FdRefs(s, s.fds[Slot(s.cur, fd)]) == PipeRefs(s));
    assert v.pc[s.cur := a] == s.pc[s.cur := a];
  }

  /** An interrupted test starts over, with the run number of this moment. */
  lemma TestStartsOver(s: State)
    requires Enabled(s, Conclude) && s.pc[s.cur].runs != s.runs[s.cur]
    ensures Next(s, Conclude) == s.(pc := s.pc[s.cur := Began(s.pc[s.cur].fd, s.runs[s.cur])])
  {
  }

  /** env_free, of another env or of the caller: the env has no descriptor left and the other envs keep theirs. */
  lemma DestroyEnds(s: State, step: Step, e: nat, fd: nat)
    requires Enabled(s, step) && (step.Destroy? || step.Exit?)
    ensures var dead, t := if step.Destroy? then step.env else s.cur, Next(s, step);
            && dead !in t.pc && (forall f :: f != dead ==> (f in t.pc <==> f in s.pc))
            && (Slot(e, fd) in t.fds <==> Slot(e, fd) in s.fds && e != dead)
            && (Slot(e, fd) in t.data <==> Slot(e, fd) in s.data && e != dead)
            && (Slot(e, fd) in t.fds ==> t.fds[Slot(e, fd)] == s.fds[Slot(e, fd)])
  {
  }

  // What the counts say.

  /** Descriptors whose Fd page is mapped and whose data page is not: those of children that fork is making. */
  ghost function HalfMapped(s: State): (r: set<Slot>) {
    s.fds.Keys - s.data
  }

  /** Data pages whose Fd page is not mapped: descriptors that a dup or close is mapping or unmapping. */
  ghost function Loose(s: State): (r: set<Slot>) {
    s.data - s.fds.Keys
  }

  /** Only an env that does not run yet, or never will, has a half-mapped descriptor. */
  lemma HalfMappedIsUnborn(s: State, x: Slot)
    requires Paired(s) && x in HalfMapped(s)
    ensures x.env !in s.pc
  {
  }

  lemma EndsCount(s: State)
    ensures FdRefs(s, ReadEnd) + FdRefs(s, WriteEnd) == |s.fds.Keys|
  {
    var r, w := set x | x in s.fds && s.fds[x] == ReadEnd, set x | x in s.fds && s.fds[x] == WriteEnd;
    assert r + w == s.fds.Keys && r * w == {};
  }

  lemma DifferencesCount<T>(a: set<T>, b: set<T>)
    ensures |b| + |a - b| == |a| + |b - a|
  {
    assert a == (a * b) + (a - b) && b == (a * b) + (b - a);
  }

  /** The references of the pipe page against those of both ends, in every state whatever is in progress. */
  lemma PipeAndEnds(s: State)
    ensures FdRefs(s, ReadEnd) + FdRefs(s, WriteEnd) == |s.fds.Keys|
    ensures PipeRefs(s) + |HalfMapped(s)| == |s.fds.Keys| + |Loose(s)|
  {
    EndsCount(s);
    DifferencesCount(s.fds.Keys, s.data);
  }

  /** While no child is half made, the pipe page has at least as many references as both ends together. */
  lemma PipeCoversEnds(s: State)
    ensures HalfMapped(s) == {} ==> FdRefs(s, ReadEnd) + FdRefs(s, WriteEnd) <= PipeRefs(s)
  {
    PipeAndEnds(s);
  }

  /** No dup or close is in progress anywhere. */
  ghost predicate Quiet(s: State) {
    forall e :: e in s.pc ==> !s.pc[e].Closing? && !s.pc[e].DupData? && !s.pc[e].DupFd?
  }

  // When no child is half made.

  /** Env `e` is making `child`. */
  ghost predicate Makes(s: State, e: nat, child: nat) {
    e in s.pc && s.pc[e].Copying? && s.pc[e].child == child
  }

  /** Every descriptor is that of an env that runs or of a child that some env is making. */
  ghost predicate Housed(s: State) {
    forall x :: x in s.fds ==> x.env in s.pc || exists e :: Makes(s, e, x.env)
  }

  /** The step destroys an env that is in the middle of a fork. */
  predicate KillsForker(s: State, step: Step) {
    step.Destroy? && step.env in s.pc && s.pc[step.env].Copying?
  }

  lemma HousedKeeps(s: State, step: Step)
    requires Inv(s) && Housed(s) && Enabled(s, step) && !KillsForker(s, step)
    ensures Housed(Next(s, step))
  {
    var t := Next(s, step);
    forall x | x in t.fds && x.env !in t.pc ensures exists e :: Makes(t, e, x.env) {
      if x in s.fds {
        WasUnborn(s, step, x);
        StillHoused(s, step, x);
      } else {
        NewlyHoused(s, step, x);
        assert Makes(t, s.cur, x.env);
      }
    }
  }

  lemma StillHoused(s: State, step: Step, x: Slot)
    requires Inv(s) && Housed(s) && Enabled(s, step) && !KillsForker(s, step)
    requires x in s.fds && x in Next(s, step).fds && x.env !in Next(s, step).pc && x.env !in s.pc
    ensures exists e :: Makes(Next(s, step), e, x.env)
  {
    var e :| Makes(s, e, x.env);
    if e == s.cur {
      OwnForkGoesOn(s, step);
    } else {
      assert s.pc[s.cur].Copying? ==> HalfMade(s, s.cur, s.pc[s.cur].child, s.pc[s.cur].i);
      RunsOn(s, step, e);
    }
    assert Makes(Next(s, step), e, x.env);
  }

  /** An env that runs and is not current goes on, unless it is destroyed. */
  lemma RunsOn(s: State, step: Step, e: nat)
    requires Enabled(s, step) && !(step.Destroy? && step.env == e) && e in s.pc && e != s.cur
    requires s.pc[s.cur].Copying? ==> s.pc[s.cur].child !in s.pc
    ensures e in Next(s, step).pc && Next(s, step).pc[e] == s.pc[e]
  {
  }

  lemma OwnForkGoesOn(s: State, step: Step)
    requires Enabled(s, step) && s.pc[s.cur].Copying? && s.pc[s.cur].child !in Next(s, step).pc
    ensures Makes(Next(s, step), s.cur, s.pc[s.cur].child)
  {
  }

  lemma WasUnborn(s: State, step: Step, x: Slot)
    requires Enabled(s, step) && x in s.fds && x in Next(s, step).fds && x.env !in Next(s, step).pc
    ensures x.env !in s.pc
  {
  }

  lemma NewlyHoused(s: State, step: Step, x: Slot)
    requires Inv(s) && Enabled(s, step) && x !in s.fds && x in Next(s, step).fds && x.env !in Next(s, step).pc
    ensures Makes(Next(s, step), s.cur, x.env)
  {
  }

  /** No env is in the middle of a fork. */
  ghost predicate NoFork(s: State) {
    forall e :: e in s.pc ==> !s.pc[e].Copying?
  }

  lemma NoForkIsWhole(s: State)
    requires Inv(s) && Housed(s) && NoFork(s)
    ensures HalfMapped(s) == {}
  {
    forall x | x in s.fds ensures x in s.data {
      if e :| Makes(s, e, x.env) {
        assert false;
      }
    }
  }

  /** A run in which no env is destroyed while it forks. */
  ghost predicate IsGentleRun(run: seq<State>) {
    run != [] && forall i :: 0 < i < |run| ==> Gently(run[i - 1], run[i])
  }

  ghost predicate Gently(s: State, t: State) {
    exists step :: Enabled(s, step) && !KillsForker(s, step) && t == Next(s, step)
  }

  lemma {:induction false} GentleRunKeeps(run: seq<State>, i: nat)
    requires IsGentleRun(run) && Inv(run[0]) && Housed(run[0]) && i < |run|
    ensures Inv(run[i]) && Housed(run[i])
  {
    if i > 0 {
      GentleRunKeeps(run, i - 1);
      assert Gently(run[i - 1], run[i]);
      var step :| Enabled(run[i - 1], step) && !KillsForker(run[i - 1], step) && run[i] == Next(run[i - 1], step);
      NextKeeps(run[i - 1], step);
      HousedKeeps(run[i - 1], step);
    }
  }

  /**
   No false close over whole runs: as long as no env is destroyed while it forks, every answer that is given while no
   fork is in progress is right.
   */
  lemma NoFalseClose(run: seq<State>, i: nat)
    requires IsGentleRun(run) && Inv(run[0]) && Housed(run[0]) && i < |run|
    requires NoFork(run[i]) && Enabled(run[i], Conclude) && run[i].pc[run[i].cur].runs == run[i].runs[run[i].cur]
    ensures var s := run[i];
            && Slot(s.cur, s.pc[s.cur].fd) in s.fds
            && var mine, answer := s.fds[Slot(s.cur, s.pc[s.cur].fd)], Next(s, Conclude).pc[s.cur];
               && answer.Answered?
               && (answer.closed ==> FdRefs(s, Other(mine)) == 0)
               && (FdRefs(s, Other(mine)) == 0 && Quiet(s) ==> answer.closed)
  {
    GentleRunKeeps(run, i);
    NoForkIsWhole(run[i]);
    ClosedTestIsSound(run[i]);
  }

  lemma QuietHasNoLoose(s: State)
    requires Paired(s) && Quiet(s)
    ensures Loose(s) == {}
  {
  }

  /**
   What the closed test answers, exactly: "closed" iff the descriptors of the other end and the loose data pages
   together are as many as the half-mapped descriptors of children in the making.
   */
  lemma ClosedTestIsExact(s: State)
    requires Inv(s) && Enabled(s, Conclude) && s.pc[s.cur].runs == s.runs[s.cur]
    ensures Slot(s.cur, s.pc[s.cur].fd) in s.fds
    ensures var mine := s.fds[Slot(s.cur, s.pc[s.cur].fd)];
            var answer := Next(s, Conclude).pc[s.cur];
            answer.Answered? && (answer.closed <==> FdRefs(s, Other(mine)) + |Loose(s)| == |HalfMapped(s)|)
  {
    assert Snapshot(s, s.cur);
    PipeAndEnds(s);
  }

  /**
   While no child is half made, the closed test never errs: when it answers "closed", no descriptor of the other end
   is mapped anywhere; and when the other end is gone and no dup or close is under way, it answers "closed".
   */
  lemma ClosedTestIsSound(s: State)
    requires Inv(s) && Enabled(s, Conclude) && s.pc[s.cur].runs == s.runs[s.cur] && HalfMapped(s) == {}
    ensures Slot(s.cur, s.pc[s.cur].fd) in s.fds
    ensures var mine := s.fds[Slot(s.cur, s.pc[s.cur].fd)];
            var answer := Next(s, Conclude).pc[s.cur];
            && answer.Answered?
            && (answer.closed ==> FdRefs(s, Other(mine)) == 0)
            && (FdRefs(s, Other(mine)) == 0 && Quiet(s) ==> answer.closed)
  {
    ClosedTestIsExact(s);
    if Quiet(s) {
      QuietHasNoLoose(s);
    }
  }

  /** Env 1 holds both ends of the pipe and env 3 a second reader; both are idle. */
  function TwoReaders(): (s: State) {
    State(map[Slot(1, 0) := ReadEnd, Slot(1, 1) := WriteEnd, Slot(3, 0) := ReadEnd],
          {Slot(1, 0), Slot(1, 1), Slot(3, 0)}, map[1 := Idle, 3 := Idle], map[1 := 1, 3 := 1], 1)
  }

  /** Env 1 has begun a fork that makes env 2. */
  function Forking(): (s: State) {
    TwoReaders().(pc := map[1 := Copying(2, 0), 3 := Idle])
  }

  /** Env 1 is interrupted when it has passed on one page to its child, the Fd page of the read end. */
  function Interrupted(): (s: State) {
    TwoReaders().(fds := TwoReaders().fds[Slot(2, 0) := ReadEnd], pc := map[1 := Copying(2, 1), 3 := Idle],
                  runs := map[1 := 1, 3 := 2], cur := 3)
  }

  lemma TwoReadersIsValid()
    ensures Inv(TwoReaders()) && Housed(TwoReaders())
  {
  }

  lemma ForkBegins()
    ensures Enabled(TwoReaders(), ForkStart(2)) && Next(TwoReaders(), ForkStart(2)) == Forking()
  {
  }

  lemma ForkIsInterrupted()
    ensures Enabled(Forking(), CopyPage) && Enabled(Next(Forking(), CopyPage), Switch(3))
    ensures Next(Next(Forking(), CopyPage), Switch(3)) == Interrupted()
  {
    var s := Next(Forking(), CopyPage);
    assert s.fds == Interrupted().fds && s.data == Interrupted().data;
    assert s.pc == Interrupted().pc;
  }

  lemma InterruptedCounts()
    ensures FdRefs(Interrupted(), ReadEnd) == 3 && FdRefs(Interrupted(), WriteEnd) == 1 && PipeRefs(Interrupted()) == 3
  {
    var s := Interrupted();
    assert (set x | x in s.fds && s.fds[x] == ReadEnd) == {Slot(1, 0), Slot(2, 0), Slot(3, 0)};
    assert (set x | x in s.fds && s.fds[x] == WriteEnd) == {Slot(1, 1)};
  }

  /** An interrupted fork fools the test: env 3 finds the pipe closed although env 1 can still write. */
  lemma InterruptedForkFoolsTest()
    ensures var s := Interrupted();
            && Enabled(s, Begin(0)) && Enabled(Next(s, Begin(0)), SeeFd)
            && Enabled(Next(Next(s, Begin(0)), SeeFd), SeePipe)
            && Enabled(Next(Next(Next(s, Begin(0)), SeeFd), SeePipe), Conclude)
            && var t := Next(Next(Next(Next(s, Begin(0)), SeeFd), SeePipe), Conclude);
               t.pc[3] == Answered(0, true) && FdRefs(t, WriteEnd) == 1
  {
    InterruptedCounts();
    var s := Interrupted();
    var s2 := Next(Next(s, Begin(0)), SeeFd);
    assert s2.pc[3] == SawFd(0, 2, 3) && s2.data == s.data;
    assert Next(s2, SeePipe).pc[3] == SawPipe(0, 2, 3, 3);
  }

  ghost predicate Gone(s: State, d: End) {
    forall x :: x in s.fds ==> s.fds[x] != d
  }

  lemma GoneIsZero(s: State, d: End)
    ensures Gone(s, d) <==> FdRefs(s, d) == 0
  {
    var r := set x | x in s.fds && s.fds[x] == d;
    if |r| == 0 {
      assert forall x :: x in s.fds && s.fds[x] == d ==> x in r;
    } else {
      var x :| x in r;
    }
  }

  /** An end that is gone stays gone, so the answer "closed" is never overtaken by events. */
  lemma {:induction false} ClosedIsForever(run: seq<State>, i: nat, j: nat, d: End)
    requires IsRun(run) && i <= j < |run| && FdRefs(run[i], d) == 0
    ensures FdRefs(run[j], d) == 0
  {
    if i < j {
      ClosedIsForever(run, i, j - 1, d);
      GoneIsZero(run[j - 1], d);
      GoneIsZero(run[j], d);
      GoneStays(run[j - 1], run[j], d);
    }
  }

  lemma GoneStays(s: State, t: State, d: End)
    requires Moves(s, t) && Gone(s, d)
    ensures Gone(t, d)
  {
    var step :| Enabled(s, step) && t == Next(s, step);
  }
}
