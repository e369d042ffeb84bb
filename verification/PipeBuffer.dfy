/**
 The byte channel of user/lib/pipe.c: one reader and one writer share a ring of 32 bytes and
 two 32-bit positions, and may be interrupted between any two accesses to them.
 */
module PipeBuffer {

  const SIZE: nat := 32
  const WRAP: nat := 0x1_0000_0000

  /** Where the reader is: before its test, past it, or between fetching a byte and advancing. */
  datatype Reader = Testing | Ready | Fetched(byte: bv8)
  /** Where the writer is: before its test, past it, or between storing a byte and advancing. */
  datatype Writer = Checking | Clear | Stored

  /**
   The shared page (`rpos`, `wpos`, `buf`) and the two program counters. `sent` and `got` are the bytes that
   passed the writer's and the reader's position increments, and `next` the byte the writer is about to send.
   */
  datatype State = State(rpos: nat, wpos: nat, buf: seq<bv8>, reader: Reader, writer: Writer, next: bv8,
                         sent: seq<bv8>, got: seq<bv8>)

  function Start(): (s: State) {
    State(0, 0, seq(SIZE, _ => 0), Testing, Checking, 0, [], [])
  }

  /** The slot of position `k`. */
  function Slot(k: nat): (i: nat)
    ensures i < SIZE
  {
    k % 32
  }

  /** One access: the tests and the accesses to the buffer and the positions are separate steps. */
  datatype Step =
    | ReadTest                 // rpos >= wpos?
    | ReadByte                 // fetch p_buf[rpos % 32]
    | ReadAdvance              // rpos++
    | WriteTest(byte: bv8)     // wpos - rpos >= 32?
    | WriteByte                // p_buf[wpos % 32] := byte
    | WriteAdvance             // wpos++

  predicate Enabled(s: State, step: Step) {
    match step
    case ReadTest => s.reader == Testing
    case ReadByte => s.reader == Ready
    case ReadAdvance => s.reader.Fetched?
    case WriteTest(_) => s.writer == Checking
    case WriteByte => s.writer == Clear
    case WriteAdvance => s.writer == Stored
  }

  function Next(s: State, step: Step): (t: State)
    requires Enabled(s, step) && |s.buf| == SIZE
  {
    match step
    case ReadTest => if s.rpos >= s.wpos then s else s.(reader := Ready)
    case ReadByte => s.(reader := Fetched(s.buf[Slot(s.rpos)]))
    case ReadAdvance => s.(rpos := (s.rpos + 1) % 0x1_0000_0000, got := s.got + [s.reader.byte], reader := Testing)
    case WriteTest(b) =>
      if (s.wpos - s.rpos) % 0x1_0000_0000 >= SIZE then s else s.(writer := Clear, next := b)
    case WriteByte => s.(buf := s.buf[Slot(s.wpos) := s.next], writer := Stored)
    case WriteAdvance => s.(wpos := (s.wpos + 1) % 0x1_0000_0000, sent := s.sent + [s.next], writer := Checking)
  }

  /**
   The write position is the number of bytes sent modulo 2^32, the read position the number of bytes delivered, and
   the ring holds the bytes in between. The reader never gets beyond 2^32 - 1 bytes: past that it sees no byte.
   */
  ghost predicate Inv(s: State) {
    && |s.buf| == SIZE
    && s.wpos == |s.sent| % 0x1_0000_0000 && s.rpos == |s.got| < WRAP && |s.got| <= |s.sent| <= |s.got| + SIZE
    && (forall k :: |s.got| <= k < |s.sent| ==> s.buf[Slot(k)] == s.sent[k])
    && (forall k :: 0 <= k < |s.got| ==> s.got[k] == s.sent[k])
    && (s.reader != Testing ==> |s.got| < |s.sent| && |s.got| < WRAP - 1)
    && (s.reader.Fetched? ==> s.reader.byte == s.sent[|s.got|])
    && (s.writer != Checking ==> |s.sent| < |s.got| + SIZE)
    && (s.writer == Stored ==> s.buf[Slot(|s.sent|)] == s.next)
  }

  /** Positions that agree modulo 2^32 agree modulo the ring size. */
  lemma SlotOfWrapped(n: nat)
    ensures Slot(n % 0x1_0000_0000) == Slot(n)
  {
  }

  /** What the reader's test finds: an empty pipe, or a write position that has wrapped. */
  lemma EmptyTest(s: State)
    requires Inv(s)
    ensures s.rpos >= s.wpos <==> |s.got| == |s.sent| || |s.sent| >= WRAP
  {
  }

  /**
   The reader's test tells an empty pipe from others exactly as long as fewer than 2^32 bytes were sent; from
   then on it always finds the pipe empty although it never is.
   */
  lemma EmptyTestIsExact(s: State)
    requires Inv(s)
    ensures (s.rpos >= s.wpos <==> |s.got| == |s.sent|) <==> |s.sent| < WRAP
    ensures |s.sent| >= WRAP ==> s.rpos >= s.wpos && |s.got| < |s.sent|
  {
    EmptyTest(s);
  }

  /** Two positions of one ring generation never share a slot. */
  lemma SlotsApart(a: nat, b: nat)
    requires a < b < a + SIZE
    ensures Slot(a) != Slot(b)
  {
  }

  lemma NextKeeps(s: State, step: Step)
    requires Inv(s) && Enabled(s, step)
    ensures Inv(Next(s, step))
  {
    match step
    case ReadTest => TestedKeeps(s);
    case ReadByte =>
    case ReadAdvance => ReadAdvanceKeeps(s);
    case WriteTest(b) => RoomTest(s);
    case WriteByte => StoredByteKeeps(s);
    case WriteAdvance => WriteAdvanceKeeps(s);
  }

  lemma TestedKeeps(s: State)
    requires Inv(s) && s.reader == Testing
    ensures Inv(Next(s, ReadTest))
  {
    EmptyTest(s);
  }

  lemma ReadAdvanceKeeps(s: State)
    requires Inv(s) && s.reader.Fetched?
    ensures Inv(Next(s, ReadAdvance))
  {
    assert Next(s, ReadAdvance).rpos == s.rpos + 1;
  }

  lemma WriteAdvanceKeeps(s: State)
    requires Inv(s) && s.writer == Stored
    ensures Inv(Next(s, WriteAdvance))
  {
    var n := |s.sent|;
    assert (n % 0x1_0000_0000 + 1) % 0x1_0000_0000 == (n + 1) % 0x1_0000_0000;
  }

  /** The writer's test finds the number of bytes under way, also across the wrap. */
  lemma RoomTest(s: State)
    requires Inv(s)
    ensures (s.wpos - s.rpos) % 0x1_0000_0000 == |s.sent| - |s.got|
  {
  }

  lemma StoredByteKeeps(s: State)
    requires Inv(s) && s.writer == Clear
    ensures Inv(Next(s, WriteByte))
  {
    SlotOfWrapped(|s.sent|);
    forall k | |s.got| <= k < |s.sent| ensures Slot(k) != Slot(|s.sent|) {
      SlotsApart(k, |s.sent|);
    }
  }

  ghost predicate CanRun(s: State, steps: seq<Step>)
    decreases |steps|
  {
    |s.buf| == SIZE && (steps == [] || (Enabled(s, steps[0]) && CanRun(Next(s, steps[0]), steps[1..])))
  }

  ghost function Run(s: State, steps: seq<Step>): (t: State)
    requires CanRun(s, steps)
    decreases |steps|
  {
    if steps == [] then s else Run(Next(s, steps[0]), steps[1..])
  }

  /** Under every interleaving of any length the invariant holds. */
  lemma {:induction false} RunKeeps(s: State, steps: seq<Step>)
    requires Inv(s) && CanRun(s, steps)
    ensures Inv(Run(s, steps))
    decreases |steps|
  {
    if steps != [] {
      NextKeeps(s, steps[0]);
      RunKeeps(Next(s, steps[0]), steps[1..]);
    }
  }

  /**
   In every reachable state the bytes delivered are a prefix of the bytes written, at most 32 are under way, and
   the reader's test for an empty pipe is right iff fewer than 2^32 bytes were sent.
   */
  lemma Fifo(steps: seq<Step>)
    requires CanRun(Start(), steps)
    ensures var t := Run(Start(), steps);
            && t.got <= t.sent && |t.sent| - |t.got| <= SIZE
            && ((t.rpos >= t.wpos <==> |t.got| == |t.sent|) <==> |t.sent| < WRAP)
  {
    RunKeeps(Start(), steps);
    var t := Run(Start(), steps);
    assert t.got == t.sent[..|t.got|];
    EmptyTestIsExact(t);
  }

  // What the pipe stands for: a channel without ring and positions.

  /** The bytes sent and got; the reader has seen a byte to take; and the byte that the writer has room for. */
  datatype Channel = Channel(sent: seq<bv8>, got: seq<bv8>, ready: bool, pending: seq<bv8>)

  /**
   The same accesses on the channel: a byte is accepted for writing while fewer than 32 are under way, and sent when
   the writer advances; a byte is taken for reading while there is one and fewer than 2^32 were sent, and got, in
   order, when the reader advances.
   */
  function ChannelNext(c: Channel, step: Step): (d: Channel) {
    match step
    case ReadTest => c.(ready := c.ready || (|c.got| < |c.sent| && |c.sent| < 0x1_0000_0000))
    case ReadByte => c
    case ReadAdvance =>
      if c.ready && |c.got| < |c.sent| then c.(got := c.got + [c.sent[|c.got|]], ready := false) else c
    case WriteTest(b) => if |c.sent| - |c.got| < 32 then c.(pending := [b]) else c
    case WriteByte => c
    case WriteAdvance => c.(sent := c.sent + c.pending, pending := [])
  }

  function ChannelRun(c: Channel, steps: seq<Step>): (d: Channel)
    decreases |steps|
  {
    if steps == [] then c else ChannelRun(ChannelNext(c, steps[0]), steps[1..])
  }

  /** The channel that a state of the pipe stands for. */
  function View(s: State): (c: Channel) {
    Channel(s.sent, s.got, s.reader != Testing, if s.writer == Checking then [] else [s.next])
  }

  lemma NextRefines(s: State, step: Step)
    requires Inv(s) && Enabled(s, step)
    ensures View(Next(s, step)) == ChannelNext(View(s), step)
  {
    EmptyTest(s);
    RoomTest(s);
  }

  lemma {:induction false} RunRefines(s: State, steps: seq<Step>)
    requires Inv(s) && CanRun(s, steps)
    ensures View(Run(s, steps)) == ChannelRun(View(s), steps)
    decreases |steps|
  {
    if steps != [] {
      NextKeeps(s, steps[0]);
      NextRefines(s, steps[0]);
      RunRefines(Next(s, steps[0]), steps[1..]);
    }
  }

  /**
   Under every interleaving the pipe is the channel: what was written is what the writes that found room carried, and
   what was read is that in order.
   */
  lemma PipeIsChannel(steps: seq<Step>)
    requires CanRun(Start(), steps)
    ensures View(Run(Start(), steps)) == ChannelRun(Channel([], [], false, []), steps)
  {
    RunRefines(Start(), steps);
  }

  /** Once 2^32 bytes were sent, a reader that is back at its test gets no byte any more, whatever happens. */
  lemma {:induction false} WrapStarvesReader(s: State, steps: seq<Step>)
    requires Inv(s) && CanRun(s, steps) && |s.sent| >= WRAP && s.reader == Testing
    ensures Run(s, steps).got == s.got && Run(s, steps).reader == Testing && |Run(s, steps).got| < |Run(s, steps).sent|
    decreases |steps|
  {
    if steps != [] {
      NextKeeps(s, steps[0]);
      EmptyTest(s);
      WrapStarvesReader(Next(s, steps[0]), steps[1..]);
    }
  }
}
