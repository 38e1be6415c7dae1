/** A TCP session: its life cycle, its output buffer and what it queues in its cycle. */
module Session {
  import opened Flattening

  datatype SessionState = Connecting | Connected | Disconnecting | Disconnected {
    function Rank(): (r: nat) {
      match this
      case Connecting => 0
      case Connected => 1
      case Disconnecting => 2
      case Disconnected => 3
    }

    /** What `HandleClose` asserts. */
    predicate Open() {
      Connected? || Disconnecting?
    }
  }

  /** What is queued in the cycle: to send these bytes, or to tell that all has been written. */
  datatype Task = SendTask(bytes: seq<byte>) | WrittenTask

  /** What a user, or a callback of theirs, asks of the session. */
  datatype Call = Send(bytes: seq<byte>) | Shutdown | ForceClose | StartRead | StopRead

  function Bytes(t: Task): (r: seq<byte>) {
    if t.SendTask? then t.bytes else []
  }

  /** How many of `n` bytes a socket with this room takes. */
  function Taken(room: nat, n: nat): (r: nat)
    ensures r <= n
  {
    if room < n then room else n
  }

  /** Queued bytes are buffered behind those there. */
  lemma Buffered(written: seq<byte>, out: seq<byte>, done: seq<Task>, t: Task)
    requires written + out == Joined(Bytes, done)
    ensures written + (out + Bytes(t)) == Joined(Bytes, done + [t])
  {
    JoinedConcat(Bytes, done, [t]);
    JoinedSingle(Bytes, t);
    assert written + (out + Bytes(t)) == written + out + Bytes(t);
  }

  /** A session as a value: its state, whether its event is in a cycle and asks to read and to write, the
      output buffered and written, the tasks being run and waiting, and what its user does when told of
      the close. */
  datatype Core = Core(state: SessionState, reading: Reading, registered: bool, writing: bool,
                       out: seq<byte>, written: seq<byte>, running: seq<Task>, pending: seq<Task>, told: seq<Call>)

  /** A new session: its event asks to read and to write, but is in no cycle yet. */
  function New(told: seq<Call>): (r: Core) {
    Core(Connecting, Reading(false, true), false, true, [], [], [], [], told)
  }

  /** Whether a session reads, and its event asks to, after calls that start and stop that. */
  datatype Reading = Reading(on: bool, bit: bool)

  function Reads(r: Reading, calls: seq<Call>): (after: Reading) {
    if calls == [] then r
    else
      var before, last := Reads(r, calls[..|calls| - 1]), calls[|calls| - 1];
      if last.StartRead? then Reading(true, true) else if last.StopRead? then Reading(false, false) else before
  }

  /** The event asks for nothing more, unless the user told of the close starts to read; then it leaves
      the cycle. */
  function Closed(c: Core): (r: Core) {
    c.(state := Disconnected, reading := Reads(c.reading.(bit := false), c.told), writing := false, registered := false)
  }

  /** A call: sends are queued while connected, a shutdown waits for the output, a forced close does not. */
  function Called(c: Core, call: Call): (r: Core) {
    match call
    case Send(bytes) => if c.state.Connected? then c.(pending := c.pending + [SendTask(bytes)]) else c
    case Shutdown => if c.state.Connected? then c.(state := Disconnecting) else c
    case ForceClose => if c.state.Open() then Closed(c) else c
    case StartRead => c.(reading := Reading(true, true))
    case StopRead => c.(reading := Reading(false, false))
  }

  function CalledAll(c: Core, calls: seq<Call>): (r: Core) {
    if calls == [] then c else Called(CalledAll(c, calls[..|calls| - 1]), calls[|calls| - 1])
  }

  /** A write of what the socket takes; the last of it tells the user, and closes a session that waited. */
  function Wrote(c: Core, room: nat): (r: Core) {
    if !c.writing then c
    else
      var n := Taken(room, |c.out|);
      var w := c.(written := c.written + c.out[..n], out := c.out[n..], writing := n < |c.out|,
                  pending := c.pending + if n == |c.out| then [WrittenTask] else []);
      if c.state.Disconnecting? then Closed(w) else w
  }

  /** A read, or its callback, closes the session. */
  predicate ClosedBy(state: SessionState, read: bool, got: nat, calls: seq<Call>) {
    read && state.Open() && (got == 0 || ForceClose in calls)
  }

  /** What `got` bytes read lead to: none, to the close. */
  function HasRead(c: Core, got: nat, calls: seq<Call>): (r: Core) {
    if got == 0 then Closed(c) else CalledAll(c, calls)
  }

  /** A report of READ and WRITE: the read comes first. */
  function Reported(c: Core, read: bool, write: bool, got: nat, room: nat, calls: seq<Call>): (r: Core) {
    var after := if read then HasRead(c, got, calls) else c;
    if write then Wrote(after, room) else after
  }

  /** A task: its bytes are buffered, and written at once if they are the first; otherwise the user is
      told if there is much output, or of all being written. */
  function TaskDone(c: Core, mark: nat, room: nat, calls: seq<Call>): (r: Core)
    requires c.running != []
  {
    var t := c.running[0];
    var b := c.(running := c.running[1..], out := c.out + Bytes(t));
    if t.SendTask? && c.out == [] then Wrote(b.(writing := true), room)
    else if t.WrittenTask? || (|c.out| > mark && mark > 0) then CalledAll(b, calls)
    else b
  }

  function Opened(c: Core, calls: seq<Call>, ok: bool): (r: Core) {
    var told := CalledAll(c.(state := Connected), calls);
    told.(registered := ok, reading := told.reading.(bit := true))
  }

  /** A session that is not open takes no call but to start or stop reading. */
  lemma {:induction false} ShutToCalls(c: Core, calls: seq<Call>)
    requires !c.state.Open()
    ensures CalledAll(c, calls) == c.(reading := Reads(c.reading, calls))
  {
    if calls != [] {
      ShutToCalls(c, calls[..|calls| - 1]);
    }
  }

  /** Nothing goes back: not the state, not what is queued, and nothing is written; the event leaves the
      cycle and stops asking to write at the close, and not before. */
  predicate Forward(c: Core, r: Core) {
    && c.state.Rank() <= r.state.Rank() && (r.state.Connecting? <==> c.state.Connecting?)
    && r.out == c.out && r.written == c.written && r.running == c.running && c.pending <= r.pending
    && (if r.state.Disconnected? && !c.state.Disconnected? then !r.writing && !r.registered
        else r.writing == c.writing && r.registered == c.registered)
  }

  lemma {:induction false} CallsForward(c: Core, calls: seq<Call>)
    ensures Forward(c, CalledAll(c, calls))
    ensures c.state.Open() ==> (CalledAll(c, calls).state.Disconnected? <==> ForceClose in calls)
    ensures c.state.Connected? ==> (CalledAll(c, calls).state == c.state <==> ForceClose !in calls && Shutdown !in calls)
    ensures c.state.Disconnecting? && ForceClose !in calls ==> CalledAll(c, calls).state == c.state
  {
    if calls != [] {
      CallsForward(c, calls[..|calls| - 1]);
      assert calls == calls[..|calls| - 1] + [calls[|calls| - 1]];
    }
  }

  /** The event is in a cycle only while the session is open. */
  predicate Lively(c: Core) {
    c.registered ==> c.state.Open()
  }

  /** A write takes the bytes off the front of the output, as many as the socket takes. */
  lemma WritesFront(c: Core, room: nat)
    ensures var r, n := Wrote(c, room), if c.writing then Taken(room, |c.out|) else 0;
            && r.written == c.written + c.out[..n] && r.out == c.out[n..] && r.running == c.running
            && c.pending <= r.pending && c.state.Rank() <= r.state.Rank() && (Lively(c) ==> Lively(r))
            && r.state == (if c.writing && c.state.Disconnecting? then Disconnected else c.state)
  {
  }

  /** What a report leads to: the session writes if it asks to and the read does not close it, and closes
      if it waited for that. */
  lemma ReportWrites(c: Core, read: bool, write: bool, got: nat, room: nat, calls: seq<Call>)
    requires read && got == 0 ==> c.state.Open()
    ensures var r := Reported(c, read, write, got, room, calls);
            var n := if write && c.writing && !ClosedBy(c.state, read, got, calls) then Taken(room, |c.out|) else 0;
            && r.written == c.written + c.out[..n] && r.out == c.out[n..] && r.running == c.running
            && c.pending <= r.pending && c.state.Rank() <= r.state.Rank() && (Lively(c) ==> Lively(r))
            && (write && c.writing && c.state.Disconnecting? ==> r.state.Disconnected?)
  {
    CallsForward(c, calls);
    WritesFront(if read then HasRead(c, got, calls) else c, room);
  }

  /** A task leaves the queue; what it sends is written at once if nothing is buffered, and buffered
      otherwise. */
  lemma TaskWrites(c: Core, mark: nat, room: nat, calls: seq<Call>)
    requires c.running != []
    ensures var r, bytes := TaskDone(c, mark, room, calls), Bytes(c.running[0]);
            var n := if c.running[0].SendTask? && c.out == [] then Taken(room, |bytes|) else 0;
            && r.running == c.running[1..] && r.written == c.written + bytes[..n] && r.out == (c.out + bytes)[n..]
            && c.pending <= r.pending && c.state.Rank() <= r.state.Rank() && (Lively(c) ==> Lively(r))
  {
    var b := c.(running := c.running[1..], out := c.out + Bytes(c.running[0]));
    assert c.out == [] ==> b.out == Bytes(c.running[0]);
    WritesFront(b.(writing := true), room);
    CallsForward(b, calls);
  }

  lemma QueueStep<T>(a: seq<T>, b: seq<T>, c: seq<T>)
    requires b != []
    ensures a + b + c == (a + [b[0]]) + b[1..] + c
  {
  }

  class TcpSession {
    var state: SessionState
    var reading: bool
    // The event's mask, and whether it is in a cycle.
    var readBit: bool
    var writeBit: bool
    var registered: bool
    var out: seq<byte>
    const highWaterMark: nat
    var pending: seq<Task>
    var running: seq<Task>
    /** What the connection callback does when told of the close. */
    const onClosed: seq<Call>
    var destroyed: nat
    var written: seq<byte>
    ghost var queued: seq<Task>
    ghost var done: seq<Task>
    /** While the callback is told of the close. */
    ghost var closing: bool

    /** Tasks are done in the order they are queued; what is written and what is buffered are the
        bytes of the sends done; there is output buffered only while the event asks to write, or
        after the close; the session is destroyed once, by the close. */
    ghost predicate Valid()
      reads this
    {
      && queued == done + running + pending
      && written + out == Joined(Bytes, done)
      && (out != [] && !state.Disconnected? ==> writeBit)
      && destroyed == (if state.Disconnected? && !closing then 1 else 0) && (closing ==> state.Disconnected?)
    }

    function Now(): (r: Core)
      reads this
    {
      Core(state, Reading(reading, readBit), registered, writeBit, out, written, running, pending, onClosed)
    }

    /** The event is in a cycle only while the session is open. */
    ghost predicate Lives()
      reads this
    {
      Lively(Now())
    }

    /** Nothing new is done, and nothing is taken out of the queue. */
    twostate predicate Onward()
      reads this
    {
      done == old(done) && closing == old(closing) && old(queued) <= queued
    }

    constructor (onClosed: seq<Call>, highWaterMark: nat)
      ensures Valid() && Lives() && queued == [] && !closing && Now() == New(onClosed)
      ensures this.onClosed == onClosed && this.highWaterMark == highWaterMark
    {
      state, reading, readBit, writeBit, registered := Connecting, false, true, true, false;
      out, pending, running, destroyed := [], [], [], 0;
      this.onClosed, this.highWaterMark := onClosed, highWaterMark;
      written, queued, done, closing := [], [], [], false;
    }

    method QueueInCycle(t: Task)
      requires Valid()
      modifies `pending, `queued
      ensures Valid() && pending == old(pending) + [t] && queued == old(queued) + [t]
    {
      pending := pending + [t];
      queued := queued + [t];
    }

    /** One call, from outside or from a callback. */
    method Do(call: Call) returns (ok: bool)
      requires Valid()
      modifies this
      ensures Valid() && Onward() && Now() == Called(old(Now()), call) && (old(Lives()) ==> Lives())
      ensures call.Shutdown? ==> ok == (old(state).Connected? && !old(writeBit))
      ensures call.StartRead? ==> reading && readBit
      ensures call.StopRead? ==> !reading && !readBit
      ensures call.Send? || call.Shutdown? ==> reading == old(reading) && readBit == old(readBit)
      ensures call.Send? ==> ok == old(state).Connected? && queued == old(queued) + if ok then [SendTask(call.bytes)] else []
      ensures !call.Send? ==> queued == old(queued)
      ensures call.Shutdown? ==> state == if old(state).Connected? then Disconnecting else old(state)
      ensures call.ForceClose? ==> ok == old(state).Open() && state == if ok then Disconnected else old(state)
      ensures !call.Shutdown? && !call.ForceClose? ==> state == old(state)
      decreases if state.Open() then 4 else 1
    {
      ok := true;
      match call
      case Send(bytes) =>
        ok := state.Connected?;
        if ok {
          QueueInCycle(SendTask(bytes));
        }
      case Shutdown =>
        ok := state.Connected? && !writeBit;
        if state.Connected? {
          state := Disconnecting;
        }
      case ForceClose =>
        ok := state.Open();
        if ok {
          HandleClose();
        }
      case StartRead =>
        if !reading || !readBit {
          readBit, reading := true, true;
        }
      case StopRead =>
        if reading || readBit {
          readBit, reading := false, false;
        }
    }

    method Callback(calls: seq<Call>)
      requires Valid()
      modifies this
      ensures Valid() && Onward() && Now() == CalledAll(old(Now()), calls) && (old(Lives()) ==> Lives())
      ensures old(state).Open() ==> (state.Disconnected? <==> ForceClose in calls)
      ensures !old(state).Open() || calls == [] ==> state == old(state) && queued == old(queued)
      decreases if state.Open() then 5 else 2
    {
      assert calls[..0] == [];
      for n := 0 to |calls|
        invariant Valid() && Onward() && Now() == CalledAll(old(Now()), calls[..n])
        invariant !old(state).Open() ==> !state.Open()
      {
        assert calls[..n + 1][..n] == calls[..n];
        CallsForward(old(Now()), calls[..n + 1]);
        var _ := Do(calls[n]);
      }
      assert calls[..|calls|] == calls;
      CallsForward(old(Now()), calls);
      if !old(state).Open() {
        ShutToCalls(old(Now()), calls);
      }
    }

    /** The callback told of the close cannot open the session again. */
    method HandleClose()
      requires Valid() && state.Open()
      modifies this
      ensures Valid() && Onward() && Now() == Closed(old(Now())) && queued == old(queued)
      decreases 3
    {
      BeginClose();
      ShutToCalls(Now(), onClosed);
      Callback(onClosed);
      registered := false;
      destroyed, closing := destroyed + 1, false;
    }

    /** The event is to ask for nothing more. */
    method BeginClose()
      requires Valid() && state.Open()
      modifies `state, `closing, `readBit, `writeBit
      ensures Valid() && closing && destroyed == 0
      ensures Now() == old(Now()).(state := Disconnected, reading := Reading(reading, false), writing := false)
    {
      state, closing := Disconnected, true;
      readBit, writeBit := false, false;
    }

    /** Writes what the socket takes; once all is written, stops asking to. */
    method WriteOut(room: nat)
      requires Valid() && writeBit
      modifies `written, `out, `writeBit, `pending, `queued
      ensures Valid() && written == old(written) + old(out)[..Taken(room, old(|out|))]
      ensures out == old(out)[Taken(room, old(|out|))..] && writeBit == (out != [])
      ensures pending == old(pending) + (if out == [] then [WrittenTask] else [])
      ensures queued == old(queued) + if out == [] then [WrittenTask] else []
    {
      TakeFront(room);
      if out == [] {
        writeBit := false;
        QueueInCycle(WrittenTask);
      }
    }

    method TakeFront(room: nat)
      requires Valid() && writeBit
      modifies `written, `out
      ensures Valid() && written == old(written) + old(out)[..Taken(room, old(|out|))]
      ensures out == old(out)[Taken(room, old(|out|))..]
    {
      var n := Taken(room, |out|);
      assert written + out == (written + out[..n]) + out[n..];
      written, out := written + out[..n], out[n..];
    }

    /** `room` is how many bytes the socket takes: none on an error, which the buffer does not tell
        apart. A session that is disconnecting closes after the first write, even of a part. */
    method HandleWrite(room: nat)
      requires Valid()
      modifies this
      ensures Valid() && done == old(done) && running == old(running) && closing == old(closing)
      ensures written + out == old(written + out) && old(written) <= written && old(queued) <= queued
      ensures |written| == old(|written|) + if old(writeBit) then Taken(room, old(|out|)) else 0
      ensures queued == old(queued) + if old(writeBit) && out == [] then [WrittenTask] else []
      ensures Now() == Wrote(old(Now()), room)
      ensures state == if old(state).Disconnecting? && old(writeBit) then Disconnected else old(state)
      ensures old(Lives()) ==> Lives()
    {
      WritesFront(Now(), room);
      if writeBit {
        assert out == out[..Taken(room, |out|)] + out[Taken(room, |out|)..];
        WriteOut(room);
        if state.Disconnecting? {
          HandleClose();
        }
      }
    }

    /** `got` is how many bytes were read: none at the end of the stream, or on an error. `held` is
        whether the assertion in `HandleClose`, if reached, holds. */
    method HandleRead(got: nat, calls: seq<Call>) returns (held: bool)
      requires Valid()
      modifies this
      ensures Valid() && Onward() && (old(Lives()) ==> Lives()) && (held <==> got > 0 || old(state).Open())
      ensures Now() == if held then HasRead(old(Now()), got, calls) else old(Now())
    {
      held := true;
      if got == 0 {
        held := state.Open();
        if held {
          HandleClose();
        }
      } else {
        Callback(calls);
      }
    }

    /** Events with READ and WRITE only fail an assertion exactly if nothing can be read on a session
        that is not open; with CLOSED besides, also if it is open. A session that asks to write, and that
        the read has not closed, writes what the socket takes; if it waited for that, it is closed. */
    method HandleCallback(read: bool, write: bool, closed: bool, got: nat, room: nat, calls: seq<Call>)
      returns (held: bool)
      requires Valid()
      modifies this
      ensures Valid() && Onward() && (old(Lives()) ==> Lives()) && old(state).Rank() <= state.Rank()
      ensures running == old(running) && old(written) <= written
      ensures !closed ==> (held <==> !(read && got == 0) || old(state).Open())
      ensures closed && read && got == 0 ==> !held
      ensures !closed ==> Now() == if held then Reported(old(Now()), read, write, got, room, calls) else old(Now())
      ensures closed && held ==> Now() == Closed(Reported(old(Now()), read, write, got, room, calls))
      ensures held ==>
                var n := if write && old(writeBit) && !ClosedBy(old(state), read, got, calls)
                         then Taken(room, old(|out|)) else 0;
                written == old(written) + old(out)[..n] && out == old(out)[n..]
      ensures held && write && old(writeBit) && old(state).Disconnecting? ==> state.Disconnected?
    {
      held := HandleReport(read, write, got, room, calls);
      if held {
        ReportWrites(old(Now()), read, write, got, room, calls);
        if closed {
          held := state.Open();
          if held {
            HandleClose();
          }
        }
      }
    }

    /** A report of READ and WRITE. */
    method HandleReport(read: bool, write: bool, got: nat, room: nat, calls: seq<Call>) returns (held: bool)
      requires Valid()
      modifies this
      ensures Valid() && Onward() && (held <==> !(read && got == 0) || old(state).Open())
      ensures Now() == if held then Reported(old(Now()), read, write, got, room, calls) else old(Now())
    {
      held := true;
      if read {
        held := HandleRead(got, calls);
      }
      if held && write {
        HandleWrite(room);
      }
    }

    /** `ok` is whether epoll takes the event. A callback that closes the session leaves a closed one
        in the cycle. */
    method ConnectEstablished(calls: seq<Call>, ok: bool)
      requires Valid() && state.Connecting?
      modifies this
      ensures Valid() && Onward() && Now() == Opened(old(Now()), calls, ok) && readBit
      ensures running == old(running) && written == old(written) && registered == ok
      ensures state == Connected <==> ForceClose !in calls && Shutdown !in calls
      ensures Lives() <==> !ok || ForceClose !in calls
    {
      CallsForward(Now().(state := Connected), calls);
      state := Connected;
      Callback(calls);
      registered := ok;
      readBit := true;
    }

    /** `DoPendingFunctions` takes the queue whole. */
    method TakePending()
      requires Valid() && running == []
      modifies `running, `pending
      ensures Valid() && running == old(pending) && pending == []
    {
      running, pending := pending, [];
    }

    /** The first part of a task: its bytes are buffered, and the event asks to write if none were. */
    method StartTask() returns (t: Task, size: nat)
      requires Valid() && running != []
      modifies `running, `done, `out, `writeBit
      ensures Valid() && t == old(running)[0] && size == old(|out|)
      ensures done == old(done) + [t] && running == old(running)[1..] && out == old(out) + Bytes(t)
      ensures writeBit == (old(writeBit) || (t.SendTask? && size == 0))
    {
      t, size := running[0], |out|;
      QueueStep(done, running, pending);
      Buffered(written, out, done, t);
      running := running[1..];
      done := done + [t];
      if t.SendTask? {
        out := out + t.bytes;
        if size == 0 {
          writeBit := true;
        }
      }
    }

    method RunTask(room: nat, calls: seq<Call>)
      requires Valid() && running != []
      modifies this
      ensures Valid() && done == old(done) + [old(running)[0]] && running == old(running)[1..]
      ensures old(state).Rank() <= state.Rank() && old(queued) <= queued && closing == old(closing)
      ensures old(Lives()) ==> Lives()
      ensures Now() == TaskDone(old(Now()), highWaterMark, room, calls)
      ensures old(running)[0].SendTask? && old(out) == [] ==>
                written == old(written) + old(running)[0].bytes[..Taken(room, |old(running)[0].bytes|)]
    {
      TaskWrites(Now(), highWaterMark, room, calls);
      var t, size := StartTask();
      if t.SendTask? && size == 0 {
        HandleWrite(room);
      } else if t.WrittenTask? || (size > highWaterMark && highWaterMark > 0) {
        Callback(calls);
      }
    }

    /** All that was queued before is done, in order; what is queued meanwhile waits. */
    method DoPendingFunctions(room: nat -> nat, calls: nat -> seq<Call>)
      requires Valid() && running == []
      modifies this
      ensures Valid() && running == [] && done == old(done) + old(pending)
      ensures old(state).Rank() <= state.Rank() && closing == old(closing) && (old(Lives()) ==> Lives())
    {
      TakePending();
      var n := 0;
      while running != []
        invariant Valid() && done + running == old(done) + old(pending)
        invariant old(state).Rank() <= state.Rank() && closing == old(closing) && (old(Lives()) ==> Lives())
        decreases |running|
      {
        ghost var before := done + running;
        RunTask(room(n), calls(n));
        assert done + running == before;
        n := n + 1;
      }
    }
  }

  /** What can happen to a session, one at a time in its cycle's thread. A poll may put its event into
      the batch the cycle then goes through; until its turn comes other handlers can close it. `kept` is
      whether the user then has the session. */
  datatype Step =
    | Asked(call: Call)
    | Established(calls: seq<Call>, ok: bool)
    | Polled
    | Delivered(kept: bool, read: bool, write: bool, got: nat, room: nat, calls: seq<Call>)
    | PendingTaken
    | TaskRun(room: nat, calls: seq<Call>)

  /** Where a session stands, and whether its event is in the batch. */
  datatype Seen = Seen(core: Core, inBatch: bool)

  function Look(s: TcpSession, inBatch: bool): (seen: Seen)
    reads s
  {
    Seen(s.Now(), inBatch)
  }

  /** An event handles nothing once the session it is tied to is gone. The server or the client that
      made the session has it until the close destroys it, and queued tasks have it. */
  predicate Gone(seen: Seen, step: Step)
    requires step.Delivered?
  {
    seen.core.state.Disconnected? && seen.core.running == [] && seen.core.pending == [] && !step.kept
  }

  /** The one way to fail an assertion: the turn of an event comes after its session has been closed,
      while somebody still has it, and there is nothing to read. */
  predicate Fails(seen: Seen, step: Step) {
    && step.Delivered? && seen.inBatch && step.read && step.got == 0
    && !seen.core.state.Open() && !Gone(seen, step)
  }

  /** What a step that does not fail does, where it can happen. */
  function After(seen: Seen, step: Step, mark: nat): (r: Seen) {
    var c := seen.core;
    match step
    case Asked(call) => seen.(core := Called(c, call))
    case Established(calls, ok) => if c.state.Connecting? then seen.(core := Opened(c, calls, ok)) else seen
    case Polled => seen.(inBatch := seen.inBatch || c.registered)
    case Delivered(_, read, write, got, room, calls) =>
      Seen(if seen.inBatch && !Gone(seen, step) then Reported(c, read, write, got, room, calls) else c, false)
    case PendingTaken => if c.running == [] then seen.(core := c.(running := c.pending, pending := [])) else seen
    case TaskRun(room, calls) => if c.running != [] then seen.(core := TaskDone(c, mark, room, calls)) else seen
  }

  /** The callback told of the connection closes the session. */
  predicate ClosesAtOnce(step: Step) {
    step.Established? && ForceClose in step.calls
  }

  /** The turn of an event in the batch. */
  method Deliver(s: TcpSession, step: Step, inBatch: bool) returns (held: bool)
    requires s.Valid() && step.Delivered?
    modifies s
    ensures s.Valid() && s.Onward() && (held <==> !Fails(old(Look(s, inBatch)), step))
    ensures held ==> Look(s, false) == After(old(Look(s, inBatch)), step, s.highWaterMark)
    ensures !held ==> s.Now() == old(s.Now())
    ensures old(s.state).Rank() <= s.state.Rank() && (old(s.Lives()) ==> s.Lives())
  {
    held := true;
    if inBatch && !Gone(Look(s, inBatch), step) {
      held := s.HandleCallback(step.read, step.write, false, step.got, step.room, step.calls);
    }
  }

  /** One step, where it can happen. */
  method Happen(s: TcpSession, step: Step, inBatch: bool) returns (held: bool, batch: bool)
    requires s.Valid()
    modifies s
    ensures s.Valid() && s.closing == old(s.closing) && old(s.done) <= s.done
    ensures held <==> !Fails(old(Look(s, inBatch)), step)
    ensures held ==> Look(s, batch) == After(old(Look(s, inBatch)), step, s.highWaterMark)
    ensures !held ==> s.Now() == old(s.Now())
    ensures old(s.state).Rank() <= s.state.Rank()
    ensures old(s.Lives()) && !ClosesAtOnce(step) ==> s.Lives()
  {
    held, batch := true, inBatch;
    match step
    case Asked(call) =>
      var _ := s.Do(call);
    case Established(calls, ok) =>
      if s.state.Connecting? {
        s.ConnectEstablished(calls, ok);
      }
    case Polled =>
      batch := inBatch || s.registered;
    case Delivered(_, _, _, _, _, _) =>
      batch := false;
      held := Deliver(s, step, inBatch);
    case PendingTaken =>
      if s.running == [] {
        s.TakePending();
      }
    case TaskRun(room, calls) =>
      if s.running != [] {
        s.RunTask(room, calls);
      }
  }

  /** A step that fails no assertion and does what it does: the state only moves forward, and an event
      writes. */
  predicate Steps(seen: Seen, step: Step, next: Seen, mark: nat) {
    && !Fails(seen, step) && next == After(seen, step, mark) && seen.core.state.Rank() <= next.core.state.Rank()
    && Delivers(seen, step, next)
  }

  /** The first `n` steps; and unless one of them closes at once the event was registered only while the
      session was open. */
  ghost predicate Onwards(trace: seq<Seen>, steps: seq<Step>, n: nat, mark: nat) {
    && |trace| == n + 1 <= |steps| + 1
    && (forall i :: 0 <= i < n ==> Steps(trace[i], steps[i], trace[i + 1], mark))
    && (NoneClosesAtOnce(steps, n) ==> OpenWhileRegistered(trace))
  }

  /** Over all of them the state only moves forward. */
  lemma {:induction false} NeverBack(trace: seq<Seen>, steps: seq<Step>, n: nat, mark: nat, i: nat, j: nat)
    requires Onwards(trace, steps, n, mark) && i <= j <= n
    ensures trace[i].core.state.Rank() <= trace[j].core.state.Rank()
    decreases j - i
  {
    if i < j {
      NeverBack(trace, steps, n, mark, i, j - 1);
      assert Steps(trace[j - 1], steps[j - 1], trace[j], mark);
    }
  }

  lemma AllForward(trace: seq<Seen>, steps: seq<Step>, n: nat, mark: nat)
    requires Onwards(trace, steps, n, mark)
    ensures forall i, j :: 0 <= i <= j < |trace| ==> trace[i].core.state.Rank() <= trace[j].core.state.Rank()
  {
    forall i, j | 0 <= i <= j < |trace| ensures trace[i].core.state.Rank() <= trace[j].core.state.Rank() {
      NeverBack(trace, steps, n, mark, i, j);
    }
  }

  ghost predicate OpenWhileRegistered(trace: seq<Seen>) {
    forall i :: 0 <= i < |trace| ==> Lively(trace[i].core)
  }

  ghost predicate NoneClosesAtOnce(steps: seq<Step>, n: nat) {
    forall i :: 0 <= i < |steps| && i < n ==> !ClosesAtOnce(steps[i])
  }

  /** Events have their turn only while they are registered. */
  ghost predicate NoneStale(trace: seq<Seen>, steps: seq<Step>) {
    forall i :: 0 <= i < |trace| && i < |steps| && steps[i].Delivered? && trace[i].inBatch ==> trace[i].core.registered
  }

  /** An event whose turn comes writes what the socket takes, if the session is there, asks to write and
      is not closed by the read. */
  predicate Delivers(seen: Seen, step: Step, next: Seen) {
    step.Delivered? ==>
      var c := seen.core;
      var writes := && seen.inBatch && !Gone(seen, step) && step.write && c.writing
                    && !ClosedBy(c.state, step.read, step.got, step.calls);
      var n := if writes then Taken(step.room, |c.out|) else 0;
      next.core.written == c.written + c.out[..n] && next.core.out == c.out[n..]
  }

  lemma DeliveryWrites(seen: Seen, step: Step, mark: nat)
    requires !Fails(seen, step)
    ensures Delivers(seen, step, After(seen, step, mark))
  {
    if step.Delivered? && seen.inBatch && !Gone(seen, step) {
      ReportWrites(seen.core, step.read, step.write, step.got, step.room, step.calls);
    }
  }

  lemma OneMore(trace: seq<Seen>, steps: seq<Step>, n: nat, mark: nat, seen: Seen)
    requires Onwards(trace, steps, n, mark) && n < |steps| && Steps(trace[n], steps[n], seen, mark)
    requires Lively(trace[n].core) && !ClosesAtOnce(steps[n]) ==> Lively(seen.core)
    ensures Onwards(trace + [seen], steps, n + 1, mark)
  {
    if NoneClosesAtOnce(steps, n + 1) {
      assert NoneClosesAtOnce(steps, n) && !ClosesAtOnce(steps[n]);
    }
  }

  lemma FailedStale(trace: seq<Seen>, steps: seq<Step>, n: nat, mark: nat)
    requires Onwards(trace, steps, n, mark) && n < |steps| && Fails(trace[n], steps[n])
    ensures !(NoneClosesAtOnce(steps, |steps|) && NoneStale(trace, steps))
  {
    assert NoneClosesAtOnce(steps, |steps|) ==> NoneClosesAtOnce(steps, n);
  }

  method HappenNext(s: TcpSession, steps: seq<Step>, n: nat, batch: bool, trace: seq<Seen>)
    returns (held: bool, batch': bool, trace': seq<Seen>)
    requires s.Valid() && n < |steps| && Onwards(trace, steps, n, s.highWaterMark) && trace[n] == Look(s, batch)
    modifies s
    ensures s.Valid() && s.closing == old(s.closing) && |trace| <= |trace'| && trace'[0] == trace[0]
    ensures held ==> Onwards(trace', steps, n + 1, s.highWaterMark) && trace'[n + 1] == Look(s, batch')
    ensures !held ==> trace' == trace && trace[n].core == s.Now() && Fails(trace[n], steps[n])
  {
    trace' := trace;
    held, batch' := Happen(s, steps[n], batch);
    if held {
      DeliveryWrites(trace[n], steps[n], s.highWaterMark);
      OneMore(trace, steps, n, s.highWaterMark, Look(s, batch'));
      trace' := trace + [Look(s, batch')];
    }
  }

  /** Every run, up to the first assertion that fails, if one does: it fails exactly at a stale event
      with nothing to read, of a session somebody still has; so never when events come only while
      registered and the callback told of the connection does not close it. The state only moves
      forward, the session is destroyed exactly once, by the close, and tasks and output keep their
      order. */
  method Run(onClosed: seq<Call>, highWaterMark: nat, steps: seq<Step>)
    returns (s: TcpSession, held: bool, trace: seq<Seen>)
    ensures s.Valid() && s.destroyed == if s.state.Disconnected? then 1 else 0
    ensures 0 < |trace| && Onwards(trace, steps, |trace| - 1, highWaterMark)
    ensures trace[0] == Seen(New(onClosed), false) && trace[|trace| - 1].core == s.Now()
    ensures forall i, j :: 0 <= i <= j < |trace| ==> trace[i].core.state.Rank() <= trace[j].core.state.Rank()
    ensures if held then |trace| == |steps| + 1 else |trace| <= |steps| && Fails(trace[|trace| - 1], steps[|trace| - 1])
    ensures NoneClosesAtOnce(steps, |steps|) && NoneStale(trace, steps) ==> held
  {
    s := new TcpSession(onClosed, highWaterMark);
    var batch := false;
    held, trace := true, [Look(s, batch)];
    for n := 0 to |steps|
      invariant fresh(s) && held && s.Valid() && !s.closing
      invariant Onwards(trace, steps, n, highWaterMark) && trace[n] == Look(s, batch) && s.highWaterMark == highWaterMark
      invariant trace[0] == Seen(New(onClosed), false)
    {
      held, batch, trace := HappenNext(s, steps, n, batch, trace);
      if !held {
        FailedStale(trace, steps, n, highWaterMark);
        AllForward(trace, steps, n, highWaterMark);
        return;
      }
    }
    AllForward(trace, steps, |steps|, highWaterMark);
  }

  /** A callback that closes the session when told of the connection leads to a failing assertion, if
      the user has the session. */
  method ClosedWhenConnected(onClosed: seq<Call>) returns (held: bool)
    ensures !held
  {
    var s := new TcpSession(onClosed, 0);
    s.ConnectEstablished([ForceClose], true);
    var batch;
    held, batch := Happen(s, Polled, false);
    held, batch := Happen(s, Delivered(true, true, false, 0, 0, []), batch);
  }

  /** So does a handler that closes a session whose event is further back in the batch: nobody else
      has the session, and nothing happens; the user has it, and the assertion fails. */
  method ClosedInBatch(onClosed: seq<Call>, kept: bool) returns (held: bool)
    ensures held <==> !kept
  {
    var s := new TcpSession(onClosed, 0);
    s.ConnectEstablished([], true);
    var batch;
    held, batch := Happen(s, Polled, false);
    var _ := s.Do(ForceClose);
    held, batch := Happen(s, Delivered(kept, true, false, 0, 0, []), batch);
  }
}
