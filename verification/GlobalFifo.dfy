/** process_schedule/fork/globalfifo.c: the queue kept in mem[0..current_len] and moved down on every
    read (class Device), and the blocking calls of any number of threads on it (the transition system).
    read is modelled as taking the mutex on entry, as write does, and as giving it up on every exit. */
module GlobalFifo {
  import opened Wrappers

  const GLOBALFIFO_SIZE := 0x1000
  const FIFO_CLEAR := 0x01
  const EAGAIN := 11
  const EFAULT := 14
  const EINVAL := 22
  const ERESTARTSYS := 512

  function Min(a: nat, b: nat): nat { if a <= b then a else b }

  // ---------- the device, changed in place ----------

  class Device {
    var currentLen: nat
    const mem: array<byte>

    constructor ()
      ensures Valid() && Contents() == []
    {
      currentLen := 0;
      mem := new byte[GLOBALFIFO_SIZE](_ => 0);
    }

    predicate Valid() reads this {
      mem.Length == GLOBALFIFO_SIZE && currentLen <= GLOBALFIFO_SIZE
    }

    function Contents(): seq<byte>
      requires Valid()
      reads this, mem
    {
      mem[..currentLen]
    }

    /** memcpy(mem, mem + count, len - count), byte by byte from the front. */
    method ShiftDown(count: nat)
      requires Valid() && count <= currentLen
      modifies mem
      ensures mem[..currentLen - count] == old(mem[count..currentLen])
    {
      var k := 0;
      while k < currentLen - count
        invariant 0 <= k <= currentLen - count
        invariant forall x | 0 <= x < k :: mem[x] == old(mem[count + x])
        invariant forall x | k <= x < GLOBALFIFO_SIZE :: mem[x] == old(mem[x])
      {
        mem[k] := mem[count + k];
        k := k + 1;
      }
    }

    /** Lines 62-77 of globalfifo_read, the queue not empty: up to count bytes leave at the front.
        A failing copy_to_user takes nothing. */
    method TakeBytes(count: nat, copyFails: bool) returns (ret: int, out: seq<byte>)
      requires Valid()
      modifies this`currentLen, mem
      ensures Valid()
      ensures var n := Min(count, |old(Contents())|);
              if copyFails then ret == -EFAULT && out == [] && Contents() == old(Contents())
              else ret == n && out == old(Contents())[..n] && Contents() == old(Contents())[n..]
      ensures !copyFails ==>
                Transfer(0, ReadCall(count, false), old(Contents())) == (Contents(), [Delivered(0, out)])
    {
      var n := count;
      if n > currentLen {
        n := currentLen;
      }
      if copyFails {
        return -EFAULT, [];
      }
      out := mem[..n];
      ShiftDown(n);
      currentLen := currentLen - n;
      ret := n;
    }

    /** Lines 121-142 of globalfifo_write: as many bytes as there is room for join at the back. A
        copy_from_user that fails after j bytes leaves the queue as it was. */
    method PutBytes(buf: seq<byte>, failsAfter: Option<nat>) returns (ret: int)
      requires Valid()
      modifies this`currentLen, mem
      ensures Valid()
      ensures var n := Min(|buf|, GLOBALFIFO_SIZE - |old(Contents())|);
              if failsAfter.Some? && failsAfter.value < n then ret == -EFAULT && Contents() == old(Contents())
              else ret == n && Contents() == old(Contents()) + buf[..n]
      ensures ret != -EFAULT ==>
                Transfer(0, WriteCall(buf, false), old(Contents())) == (Contents(), [Accepted(0, buf[..ret])])
    {
      var n := |buf|;
      if n > GLOBALFIFO_SIZE - currentLen {
        n := GLOBALFIFO_SIZE - currentLen;
      }
      var copied := if failsAfter.Some? && failsAfter.value < n then failsAfter.value else n;
      var k := 0;
      while k < copied
        invariant 0 <= k <= copied && currentLen == old(currentLen)
        invariant forall x | 0 <= x < GLOBALFIFO_SIZE ::
                    mem[x] == if currentLen <= x < currentLen + k then buf[x - currentLen] else old(mem[x])
      {
        mem[currentLen + k] := buf[k];
        k := k + 1;
      }
      if copied < n {
        assert Contents() == old(Contents());
        return -EFAULT;
      }
      currentLen := currentLen + n;
      assert |Contents()| == |old(Contents())| + n;
      assert forall x | 0 <= x < currentLen :: Contents()[x] == (old(Contents()) + buf[..n])[x];
      assert Contents() == old(Contents()) + buf[..n];
      ret := n;
    }

    /** globalfifo_ioctl: FIFO_CLEAR empties the queue, anything else is refused. */
    method Ioctl(cmd: int) returns (ret: int)
      requires Valid()
      modifies this`currentLen, mem
      ensures Valid()
      ensures if cmd == FIFO_CLEAR then ret == 0 && Contents() == [] && mem[..] == seq(GLOBALFIFO_SIZE, _ => 0)
              else ret == -EINVAL && Contents() == old(Contents())
    {
      if cmd != FIFO_CLEAR {
        return -EINVAL;
      }
      currentLen := 0;
      var k := 0;
      while k < GLOBALFIFO_SIZE
        invariant 0 <= k <= GLOBALFIFO_SIZE && currentLen == 0
        invariant forall x | 0 <= x < k :: mem[x] == 0
      {
        mem[k] := 0;
        k := k + 1;
      }
      ret := 0;
    }

    /** globalfifo_poll: whether to report POLL_IN | POLLRDNORM and POLLOUT | POLLWRNORM. */
    method Poll() returns (readable: bool, writable: bool)
      requires Valid()
      ensures readable <==> |Contents()| > 0
      ensures writable <==> |Contents()| < GLOBALFIFO_SIZE
      ensures readable <==> !MustWait(ReadCall(0, false), Contents())
      ensures writable <==> !MustWait(WriteCall([], false), Contents())
    {
      readable := currentLen != 0;
      writable := currentLen != GLOBALFIFO_SIZE;
    }
  }

  // ---------- threads ----------

  type Tid = nat

  datatype Call =
    | NoCall
    | ReadCall(count: nat, nonblock: bool)
    | WriteCall(data: seq<byte>, nonblock: bool)
    | ClearCall

  /** Where a call stands. Test to Unlock, but not Schedule and Relock, hold the mutex. */
  datatype PC = Enter | Test | Prepare | Release | Schedule | Relock | Copy | Wake | Unlock

  /** asleep: the task state is TASK_INTERRUPTIBLE. signalled: a signal is pending. cleared: the queue
      has been cleared since the task state was set. ret: what the call will return, once that is known. */
  datatype Thread = Thread(call: Call, pc: PC, asleep: bool, signalled: bool, cleared: bool, ret: int)

  /** What happened to the queue. */
  datatype Event = Accepted(t: Tid, data: seq<byte>) | Delivered(t: Tid, data: seq<byte>) | Cleared

  /** A call that has come back. */
  datatype Return = Return(t: Tid, call: Call, ret: int)

  datatype State = State(owner: Option<Tid>, q: seq<byte>, threads: map<Tid, Thread>,
                         log: seq<Event>, returned: seq<Return>)

  datatype Act =
    | Start(t: Tid, call: Call)
    | Go(t: Tid)       // the next statement of t's call
    | Fault(t: Tid)    // t's copy to or from user space fails
    | Signal(t: Tid)   // a signal arrives for t

  const IDLE := Thread(NoCall, Enter, false, false, false, 0)

  function Init(tids: set<Tid>): State {
    State(None, [], map t | t in tids :: IDLE, [], [])
  }

  /** The conditions of the wait loops (lines 42 and 100). */
  predicate MustWait(call: Call, q: seq<byte>) {
    || (call.ReadCall? && |q| == 0)
    || (call.WriteCall? && |q| == GLOBALFIFO_SIZE)
  }

  predicate Nonblock(call: Call) {
    (call.ReadCall? || call.WriteCall?) && call.nonblock
  }

  /** What the copy of a call does to the queue, and how it is recorded: see Device for the bytes. */
  function Transfer(t: Tid, call: Call, q: seq<byte>): (seq<byte>, seq<Event>) {
    match call
    case NoCall => (q, [])
    case ReadCall(count, _) =>
      var n := Min(count, |q|);
      (q[n..], [Delivered(t, q[..n])])
    case WriteCall(data, _) =>
      var n := if |q| > GLOBALFIFO_SIZE then 0 else Min(|data|, GLOBALFIFO_SIZE - |q|);
      (q + data[..n], [Accepted(t, data[..n])])
    case ClearCall => ([], [Cleared])
  }

  /** The count of bytes that a copy has moved. */
  function Moved(ev: seq<Event>): int {
    if ev == [] || ev[0].Cleared? then 0 else |ev[0].data|
  }

  /** wake_up_interruptible: a read wakes all sleeping writers, a write all sleeping readers. */
  function Wakes(call: Call, u: Thread): bool {
    (call.ReadCall? && u.call.WriteCall?) || (call.WriteCall? && u.call.ReadCall?)
  }

  function AfterWake(call: Call, threads: map<Tid, Thread>): map<Tid, Thread> {
    map u | u in threads :: if Wakes(call, threads[u]) then threads[u].(asleep := false) else threads[u]
  }

  function AfterClear(threads: map<Tid, Thread>): map<Tid, Thread> {
    map u | u in threads :: if threads[u].asleep then threads[u].(cleared := true) else threads[u]
  }

  function Next(s: State, act: Act): Option<State> {
    if act.t !in s.threads then None else
    var t, th := act.t, s.threads[act.t];
    match act
    case Start(_, call) =>
      if th.call == NoCall && call != NoCall then Some(s.(threads := s.threads[t := IDLE.(call := call)])) else None
    case Signal(_) =>
      if th.call != NoCall
      then Some(s.(threads := s.threads[t := th.(signalled := true, asleep := false)]))
      else None
    case Fault(_) =>
      if th.pc == Copy && (th.call.ReadCall? || th.call.WriteCall?)
      then Some(s.(threads := s.threads[t := th.(pc := Unlock, ret := -EFAULT)]))
      else None
    case Go(_) =>
      if th.call == NoCall then None else
      match th.pc
      case Enter =>
        if s.owner != None then None
        else Some(s.(owner := Some(t), threads := s.threads[t := th.(pc := if th.call == ClearCall then Copy else Test)]))
      case Relock =>
        if s.owner != None then None
        else Some(s.(owner := Some(t), threads := s.threads[t := th.(pc := Test)]))
      case Test =>
        var th' := if !MustWait(th.call, s.q) then th.(pc := Copy)
                   else if Nonblock(th.call) then th.(pc := Unlock, ret := -EAGAIN)
                   else th.(pc := Prepare);
        Some(s.(threads := s.threads[t := th']))
      case Prepare =>
        Some(s.(threads := s.threads[t := th.(pc := Release, asleep := true, cleared := false)]))
      case Release => Some(s.(owner := None, threads := s.threads[t := th.(pc := Schedule)]))
      case Schedule =>
        if th.signalled
        then Some(s.(threads := s.threads[t := IDLE], returned := s.returned + [Return(t, th.call, -ERESTARTSYS)]))
        else if th.asleep then None
        else Some(s.(threads := s.threads[t := th.(pc := Relock)]))
      case Copy =>
        var (q, ev) := Transfer(t, th.call, s.q);
        if th.call == ClearCall
        then Some(s.(q := q, log := s.log + ev, threads := AfterClear(s.threads[t := th.(pc := Unlock, ret := 0)])))
        else Some(s.(q := q, log := s.log + ev, threads := s.threads[t := th.(pc := Wake, ret := Moved(ev))]))
      case Wake => Some(s.(threads := AfterWake(th.call, s.threads[t := th.(pc := Unlock)])))
      case Unlock =>
        Some(s.(owner := None, threads := s.threads[t := IDLE], returned := s.returned + [Return(t, th.call, th.ret)]))
  }

  function Exec(s: State, acts: seq<Act>): Option<State> {
    if acts == [] then Some(s)
    else match Exec(s, acts[..|acts| - 1])
         case None => None
         case Some(r) => Next(r, acts[|acts| - 1])
  }

  ghost predicate Reachable(tids: set<Tid>, s: State) {
    exists acts :: Exec(Init(tids), acts) == Some(s)
  }

  // ---------- the queue as its users see it ----------

  /** The queue an atomic bounded fifo would hold after these events; None if one of them could not
      have happened: too many bytes accepted, or delivered bytes that are not the next ones. */
  function Replay(log: seq<Event>): Option<seq<byte>> {
    if log == [] then Some([])
    else match Replay(log[..|log| - 1])
         case None => None
         case Some(q) =>
           match log[|log| - 1]
           case Accepted(_, data) => if |q| + |data| <= GLOBALFIFO_SIZE then Some(q + data) else None
           case Delivered(_, data) => if data <= q then Some(q[|data|..]) else None
           case Cleared => Some([])
  }

  /** The bytes accepted, and the bytes delivered, since the last clear. */
  function AcceptedBytes(log: seq<Event>): seq<byte> {
    if log == [] then []
    else match log[|log| - 1]
         case Accepted(_, data) => AcceptedBytes(log[..|log| - 1]) + data
         case Delivered(_, _) => AcceptedBytes(log[..|log| - 1])
         case Cleared => []
  }

  function DeliveredBytes(log: seq<Event>): seq<byte> {
    if log == [] then []
    else match log[|log| - 1]
         case Accepted(_, _) => DeliveredBytes(log[..|log| - 1])
         case Delivered(_, data) => DeliveredBytes(log[..|log| - 1]) + data
         case Cleared => []
  }

  /** A replayable history loses, repeats and reorders nothing. */
  lemma {:induction false} ReplayConserves(log: seq<Event>)
    requires Replay(log).Some?
    ensures AcceptedBytes(log) == DeliveredBytes(log) + Replay(log).value
    ensures |Replay(log).value| <= GLOBALFIFO_SIZE
  {
    if log != [] {
      ReplayConserves(log[..|log| - 1]);
    }
  }

  // ---------- what every interleaving keeps ----------

  predicate Holds(th: Thread) {
    th.call != NoCall && th.pc in {Test, Prepare, Release, Copy, Wake, Unlock}
  }

  ghost predicate Owners(s: State) {
    && (s.owner.Some? ==> s.owner.value in s.threads)
    && (forall t | t in s.threads :: Holds(s.threads[t]) <==> s.owner == Some(t))
  }

  /** The owner of the mutex has yet to wake those who wait for what th waits for. */
  ghost predicate WakeDue(s: State, th: Thread) {
    && s.owner.Some? && s.owner.value in s.threads
    && s.threads[s.owner.value].pc == Wake
    && Wakes(s.threads[s.owner.value].call, th)
  }

  /** A sleeper has reason to sleep, is about to be woken, or missed a clear. */
  ghost predicate SleepJustified(s: State, t: Tid)
    requires t in s.threads
  {
    var th := s.threads[t];
    th.asleep ==>
      && th.pc in {Release, Schedule} && (th.call.ReadCall? || th.call.WriteCall?)
      && (MustWait(th.call, s.q) || WakeDue(s, th) || (th.call.WriteCall? && th.cleared))
  }

  /** A call reaches its copy only when it need not wait, and goes to sleep only when it must. */
  ghost predicate ThreadWaitsRight(th: Thread, q: seq<byte>) {
    (th.pc == Copy ==> !MustWait(th.call, q)) && (th.pc == Prepare ==> MustWait(th.call, q))
  }

  ghost predicate WaitsRight(s: State) {
    forall t | t in s.threads :: ThreadWaitsRight(s.threads[t], s.q)
  }

  ghost predicate Inv(s: State) {
    && Owners(s)
    && Replay(s.log) == Some(s.q)
    && WaitsRight(s)
    && (forall t | t in s.threads :: SleepJustified(s, t))
  }

  /** A step of one thread leaves call and statement of the others alone, and the mutex to others too. */
  lemma OthersStay(s: State, act: Act, u: Tid)
    requires Next(s, act).Some? && u in Next(s, act).value.threads && u != act.t
    ensures u in s.threads
    ensures var th, th' := s.threads[u], Next(s, act).value.threads[u];
            th' == th.(asleep := th'.asleep, cleared := th'.cleared) && (th'.asleep ==> th.asleep)
  {
  }

  lemma OwnSection(s: State, act: Act)
    requires Owners(s) && Next(s, act).Some?
    ensures var s' := Next(s, act).value;
            && act.t in s'.threads && (Holds(s'.threads[act.t]) <==> s'.owner == Some(act.t))
            && (s'.owner == s.owner || (s.owner == Some(act.t) && s'.owner == None)
                || (s.owner == None && s'.owner == Some(act.t)))
  {
  }

  lemma OwnersKept(s: State, act: Act)
    requires Owners(s) && Next(s, act).Some?
    ensures Owners(Next(s, act).value)
  {
    var s' := Next(s, act).value;
    OwnSection(s, act);
    KeepsThreads(s, act);
    forall u | u in s'.threads ensures Holds(s'.threads[u]) <==> s'.owner == Some(u) {
      if u != act.t { OthersStay(s, act, u); }
    }
  }

  lemma TransferReplays(t: Tid, call: Call, q: seq<byte>, log: seq<Event>)
    requires call != NoCall && Replay(log) == Some(q)
    ensures var (q', ev) := Transfer(t, call, q); Replay(log + ev) == Some(q')
  {
    ReplayConserves(log);
    var (q', ev) := Transfer(t, call, q);
    assert (log + ev)[..|log|] == log;
  }

  lemma ReplayKept(s: State, act: Act)
    requires Replay(s.log) == Some(s.q) && Next(s, act).Some?
    ensures Replay(Next(s, act).value.log) == Some(Next(s, act).value.q)
  {
    if act.Go? && s.threads[act.t].pc == Copy {
      TransferReplays(act.t, s.threads[act.t].call, s.q, s.log);
    }
  }

  lemma ThreadWaitsRightKept(s: State, act: Act, u: Tid)
    requires Owners(s) && WaitsRight(s) && Next(s, act).Some? && u in Next(s, act).value.threads
    ensures ThreadWaitsRight(Next(s, act).value.threads[u], Next(s, act).value.q)
  {
    assert u in s.threads && ThreadWaitsRight(s.threads[u], s.q);
  }

  lemma WaitsRightKept(s: State, act: Act)
    requires Owners(s) && WaitsRight(s) && Next(s, act).Some?
    ensures WaitsRight(Next(s, act).value)
  {
    var s' := Next(s, act).value;
    forall u | u in s'.threads ensures ThreadWaitsRight(s'.threads[u], s'.q) {
      ThreadWaitsRightKept(s, act, u);
    }
  }

  /** The owner's copy: who slept for what it brought is now due to be woken, or has missed a clear. */
  lemma SleepKeptByCopy(s: State, t: Tid, u: Tid)
    requires Inv(s) && t in s.threads && u in s.threads && s.threads[t].call != NoCall && s.threads[t].pc == Copy
    ensures var s' := Next(s, Go(t)).value; u in s'.threads && SleepJustified(s', u)
  {
    assert SleepJustified(s, u) && ThreadWaitsRight(s.threads[t], s.q);
  }

  lemma SleepKeptByWake(s: State, t: Tid, u: Tid)
    requires Inv(s) && t in s.threads && u in s.threads && s.threads[t].call != NoCall && s.threads[t].pc == Wake
    ensures var s' := Next(s, Go(t)).value; u in s'.threads && SleepJustified(s', u)
  {
    assert SleepJustified(s, u);
  }

  lemma SleepKeptByRest(s: State, act: Act, u: Tid)
    requires Inv(s) && Next(s, act).Some? && u in s.threads
    requires act.Go? ==> s.threads[act.t].pc != Copy && s.threads[act.t].pc != Wake
    ensures var s' := Next(s, act).value; u in s'.threads && SleepJustified(s', u)
  {
    assert SleepJustified(s, u);
    if act.Go? { assert ThreadWaitsRight(s.threads[act.t], s.q); }
  }

  lemma SleepKept(s: State, act: Act, u: Tid)
    requires Inv(s) && Next(s, act).Some? && u in s.threads
    ensures var s' := Next(s, act).value; u in s'.threads && SleepJustified(s', u)
  {
    if act.Go? && s.threads[act.t].pc == Copy {
      SleepKeptByCopy(s, act.t, u);
    } else if act.Go? && s.threads[act.t].pc == Wake {
      SleepKeptByWake(s, act.t, u);
    } else {
      SleepKeptByRest(s, act, u);
    }
  }

  lemma InvKept(s: State, act: Act)
    requires Inv(s) && Next(s, act).Some?
    ensures Inv(Next(s, act).value)
  {
    OwnersKept(s, act);
    ReplayKept(s, act);
    WaitsRightKept(s, act);
    KeepsThreads(s, act);
    var s' := Next(s, act).value;
    forall u | u in s'.threads ensures SleepJustified(s', u) {
      SleepKept(s, act, u);
    }
  }

  lemma {:induction false} ExecInv(tids: set<Tid>, acts: seq<Act>)
    requires Exec(Init(tids), acts).Some?
    ensures Inv(Exec(Init(tids), acts).value)
  {
    if acts != [] {
      var m := |acts| - 1;
      ExecInv(tids, acts[..m]);
      InvKept(Exec(Init(tids), acts[..m]).value, acts[m]);
    }
  }

  lemma ReachableInv(tids: set<Tid>, s: State)
    requires Reachable(tids, s)
    ensures Inv(s)
  {
    var acts :| Exec(Init(tids), acts) == Some(s);
    ExecInv(tids, acts);
  }

  // ---------- main results ----------

  /** In every run the queue is the one an atomic bounded fifo would hold: what was accepted since the
      last clear is what was delivered, in order, followed by what is still there. */
  lemma QueueConserved(tids: set<Tid>, s: State)
    requires Reachable(tids, s)
    ensures Replay(s.log) == Some(s.q) && |s.q| <= GLOBALFIFO_SIZE
    ensures AcceptedBytes(s.log) == DeliveredBytes(s.log) + s.q
  {
    ReachableInv(tids, s);
    ReplayConserves(s.log);
  }

  /** Each delivery is the next stretch of the accepted bytes, so each byte goes to exactly one reader. */
  lemma {:induction false} DeliveryIsNextStretch(log: seq<Event>, i: nat)
    requires Replay(log).Some? && i < |log| && log[i].Delivered?
    requires forall j | i < j < |log| :: !log[j].Cleared?
    ensures var from := |DeliveredBytes(log[..i])|;
            && from + |log[i].data| <= |DeliveredBytes(log)| <= |AcceptedBytes(log)|
            && AcceptedBytes(log)[from..from + |log[i].data|] == log[i].data
    decreases |log|
  {
    var m := |log| - 1;
    ReplayConserves(log);
    if i < m {
      DeliveryIsNextStretch(log[..m], i);
      assert log[..m][..i] == log[..i];
    }
  }

  /** Mutual exclusion of everything between taking and giving up the mutex. */
  lemma OneHolder(tids: set<Tid>, s: State, t: Tid, u: Tid)
    requires Reachable(tids, s) && t in s.threads && u in s.threads && Holds(s.threads[t]) && Holds(s.threads[u])
    ensures t == u
  {
    ReachableInv(tids, s);
  }

  /** A thread whose call is not asleep can always be brought forward, itself or through the mutex owner. */
  lemma Progress(tids: set<Tid>, s: State, t: Tid)
    requires Reachable(tids, s) && t in s.threads && s.threads[t].call != NoCall && !s.threads[t].asleep
    ensures Next(s, Go(t)).Some? || (s.owner.Some? && Next(s, Go(s.owner.value)).Some?)
  {
    ReachableInv(tids, s);
  }

  /** A sleeping reader never misses data; a sleeping writer misses room only after a clear. */
  lemma SleepersJustified(tids: set<Tid>, s: State, t: Tid)
    requires Reachable(tids, s) && s.owner == None && t in s.threads && s.threads[t].asleep
    ensures MustWait(s.threads[t].call, s.q) || (s.threads[t].call.WriteCall? && s.threads[t].cleared)
  {
    ReachableInv(tids, s);
    assert SleepJustified(s, t);
  }

  // ---------- FIFO_CLEAR wakes no writer ----------

  /** Nobody is at work, and someone sleeps although what it waits for has come. */
  ghost predicate Stranded(s: State) {
    s.owner == None && exists t | t in s.threads :: s.threads[t].asleep && !MustWait(s.threads[t].call, s.q)
  }

  /** Nobody is at work, and a reader and a writer wait for each other. */
  ghost predicate BothAsleep(s: State) {
    s.owner == None && exists r, w | r in s.threads && w in s.threads ::
      && s.threads[r].asleep && s.threads[r].call.ReadCall?
      && s.threads[w].asleep && s.threads[w].call.WriteCall?
  }

  ghost predicate NoClears(acts: seq<Act>) {
    forall i | 0 <= i < |acts| :: !(acts[i].Start? && acts[i].call.ClearCall?)
  }

  ghost predicate ClearFree(s: State) {
    forall t | t in s.threads :: !s.threads[t].cleared && !s.threads[t].call.ClearCall?
  }

  lemma ClearFreeKept(s: State, act: Act)
    requires ClearFree(s) && Next(s, act).Some? && !(act.Start? && act.call.ClearCall?)
    ensures ClearFree(Next(s, act).value)
  {
    var s' := Next(s, act).value;
    forall t | t in s'.threads ensures !s'.threads[t].cleared && !s'.threads[t].call.ClearCall? {
      assert t in s.threads;
    }
  }

  lemma {:induction false} NothingCleared(tids: set<Tid>, acts: seq<Act>)
    requires NoClears(acts) && Exec(Init(tids), acts).Some?
    ensures ClearFree(Exec(Init(tids), acts).value)
  {
    if acts != [] {
      var m := |acts| - 1;
      NothingCleared(tids, acts[..m]);
      ClearFreeKept(Exec(Init(tids), acts[..m]).value, acts[m]);
    }
  }

  lemma ExecNext(s0: State, acts: seq<Act>, act: Act)
    requires Exec(s0, acts).Some?
    ensures Exec(s0, acts + [act]) == Next(Exec(s0, acts).value, act)
  {
    assert (acts + [act])[..|acts|] == acts;
  }

  /** Without FIFO_CLEAR sleepers are woken in time, and a reader and a writer never both sleep. */
  lemma WithoutClears(tids: set<Tid>, acts: seq<Act>)
    requires NoClears(acts) && Exec(Init(tids), acts).Some?
    ensures !Stranded(Exec(Init(tids), acts).value) && !BothAsleep(Exec(Init(tids), acts).value)
  {
    NothingCleared(tids, acts);
    ExecInv(tids, acts);
    var s := Exec(Init(tids), acts).value;
    forall t | t in s.threads && s.owner == None && s.threads[t].asleep ensures MustWait(s.threads[t].call, s.q) {
      assert SleepJustified(s, t);
    }
  }

  /** A run of two threads: t fills the queue, u waits for room, t clears the queue, which does not wake
      u, and t waits for data. */
  function Script(t: Tid, u: Tid, fill: seq<byte>): seq<Act> {
    [Start(t, WriteCall(fill, false)), Go(t), Go(t), Go(t), Go(t), Go(t),
     Start(u, WriteCall([0], false)), Go(u), Go(u), Go(u), Go(u),
     Start(t, ClearCall), Go(t), Go(t), Go(t),
     Start(t, ReadCall(1, false)), Go(t), Go(t), Go(t), Go(t)]
  }

  /** The state before line i of the script. */
  ghost predicate AtLine(s: State, i: nat, t: Tid, u: Tid, fill: seq<byte>)
    requires t in s.threads && u in s.threads
  {
    var a, b := s.threads[t], s.threads[u];
    var w, v, r := WriteCall(fill, false), WriteCall([0], false), ReadCall(1, false);
    var asleep := Thread(v, Schedule, true, false, false, 0);
    if i <= 5 then
      && b == IDLE && |s.q| == (if i <= 3 then 0 else GLOBALFIFO_SIZE)
      && s.owner == (if i <= 1 then None else Some(t))
      && a == (if i == 0 then IDLE
               else IDLE.(call := w, pc := if i == 1 then Enter else if i == 2 then Test else if i == 3 then Copy
                                           else if i == 4 then Wake else Unlock,
                          ret := if i == 4 || i == 5 then GLOBALFIFO_SIZE else 0))
    else if i <= 11 then
      && a == IDLE && |s.q| == GLOBALFIFO_SIZE
      && s.owner == (if 8 <= i <= 10 then Some(u) else None)
      && b == (if i == 6 then IDLE else if i == 11 then asleep
               else if i == 10 then asleep.(pc := Release)
               else IDLE.(call := v, pc := if i == 7 then Enter else if i == 8 then Test else Prepare))
    else if i <= 15 then
      && (if i <= 13 then |s.q| == GLOBALFIFO_SIZE && b == asleep else |s.q| == 0 && b == asleep.(cleared := true))
      && s.owner == (if i == 13 || i == 14 then Some(t) else None)
      && a == (if i == 15 then IDLE
               else IDLE.(call := ClearCall, pc := if i == 12 then Enter else if i == 13 then Copy else Unlock))
    else
      && |s.q| == 0 && b == asleep.(cleared := true)
      && s.owner == (if 17 <= i <= 19 then Some(t) else None)
      && a == (if i <= 18 then IDLE.(call := r, pc := if i == 16 then Enter else if i == 17 then Test else Prepare)
               else Thread(r, if i == 19 then Release else Schedule, true, false, false, 0))
  }

  lemma LineStep(s: State, i: nat, t: Tid, u: Tid, fill: seq<byte>)
    requires t in s.threads && u in s.threads && t != u && |fill| == GLOBALFIFO_SIZE && i < |Script(t, u, fill)|
    requires AtLine(s, i, t, u, fill)
    ensures var s' := Next(s, Script(t, u, fill)[i]);
            && s'.Some? && t in s'.value.threads && u in s'.value.threads && AtLine(s'.value, i + 1, t, u, fill)
  {
  }

  /** The script can be followed to any line. */
  lemma Follow(tids: set<Tid>, t: Tid, u: Tid, fill: seq<byte>, lines: nat) returns (acts: seq<Act>, s: State)
    requires t in tids && u in tids && t != u && |fill| == GLOBALFIFO_SIZE && lines <= |Script(t, u, fill)|
    ensures Exec(Init(tids), acts) == Some(s) && t in s.threads && u in s.threads && AtLine(s, lines, t, u, fill)
  {
    acts, s := [], Init(tids);
    var i := 0;
    while i < lines
      invariant 0 <= i <= lines && Exec(Init(tids), acts) == Some(s)
      invariant t in s.threads && u in s.threads && AtLine(s, i, t, u, fill)
    {
      var act := Script(t, u, fill)[i];
      LineStep(s, i, t, u, fill);
      ExecNext(Init(tids), acts, act);
      acts, s := acts + [act], Next(s, act).value;
      i := i + 1;
    }
  }

  /** A clear can leave a writer asleep on an empty queue, and then a reader waiting for that writer. */
  lemma ClearStrands(tids: set<Tid>, t: Tid, u: Tid) returns (acts: seq<Act>, more: seq<Act>)
    requires t in tids && u in tids && t != u
    ensures Exec(Init(tids), acts).Some? && Stranded(Exec(Init(tids), acts).value)
    ensures Exec(Init(tids), more).Some? && BothAsleep(Exec(Init(tids), more).value)
  {
    var fill: seq<byte> := seq(GLOBALFIFO_SIZE, _ => 0);
    var s, s';
    acts, s := Follow(tids, t, u, fill, 15);
    more, s' := Follow(tids, t, u, fill, 20);
    assert s.threads[u].asleep && !MustWait(s.threads[u].call, s.q);
    assert s'.threads[t].asleep && s'.threads[u].asleep;
  }

  ghost predicate TwoThreads(tids: set<Tid>) { exists t, u :: t in tids && u in tids && t != u }

  /** A thread that is alone is awake when it clears the queue. */
  ghost predicate NoneCleared(s: State) { forall t | t in s.threads :: !s.threads[t].cleared }

  lemma NoneClearedKept(s: State, act: Act)
    requires Inv(s) && NoneCleared(s) && Next(s, act).Some? && !TwoThreads(s.threads.Keys)
    ensures NoneCleared(Next(s, act).value) && Next(s, act).value.threads.Keys == s.threads.Keys
  {
    var s' := Next(s, act).value;
    forall t | t in s'.threads ensures t in s.threads && !s'.threads[t].cleared {
      assert t == act.t && SleepJustified(s, t);
    }
  }

  lemma {:induction false} AloneNeverCleared(tids: set<Tid>, acts: seq<Act>)
    requires !TwoThreads(tids) && Exec(Init(tids), acts).Some?
    ensures NoneCleared(Exec(Init(tids), acts).value) && Exec(Init(tids), acts).value.threads.Keys == tids
  {
    if acts != [] {
      var m := |acts| - 1;
      AloneNeverCleared(tids, acts[..m]);
      ExecInv(tids, acts[..m]);
      NoneClearedKept(Exec(Init(tids), acts[..m]).value, acts[m]);
    }
  }

  /** Some run strands a sleeper, and some run puts a reader and a writer to sleep at once, exactly if
      two threads use the device. */
  lemma StrandedExactly(tids: set<Tid>)
    ensures (exists acts :: Exec(Init(tids), acts).Some? && Stranded(Exec(Init(tids), acts).value)) <==> TwoThreads(tids)
    ensures (exists acts :: Exec(Init(tids), acts).Some? && BothAsleep(Exec(Init(tids), acts).value)) <==> TwoThreads(tids)
  {
    if TwoThreads(tids) {
      var t, u :| t in tids && u in tids && t != u;
      var acts, more := ClearStrands(tids, t, u);
    } else {
      forall acts | Exec(Init(tids), acts).Some?
        ensures !Stranded(Exec(Init(tids), acts).value) && !BothAsleep(Exec(Init(tids), acts).value)
      {
        AloneNeverStranded(tids, acts);
      }
    }
  }

  lemma AloneNeverStranded(tids: set<Tid>, acts: seq<Act>)
    requires !TwoThreads(tids) && Exec(Init(tids), acts).Some?
    ensures !Stranded(Exec(Init(tids), acts).value) && !BothAsleep(Exec(Init(tids), acts).value)
  {
    AloneNeverCleared(tids, acts);
    ExecInv(tids, acts);
    var s := Exec(Init(tids), acts).value;
    forall t | t in s.threads && s.owner == None && s.threads[t].asleep ensures MustWait(s.threads[t].call, s.q) {
      assert SleepJustified(s, t);
    }
  }

  // ---------- what calls do, step by step, and what they return ----------

  /** No nonblocking call sleeps or is on the way to it. */
  ghost predicate NoneBlocked(s: State) {
    forall t | t in s.threads :: NotBlocked(s.threads[t])
  }

  predicate GoesToSleep(pc: PC) { pc == Prepare || pc == Release || pc == Schedule || pc == Relock }

  ghost predicate NotBlocked(th: Thread) {
    Nonblock(th.call) ==> !th.asleep && !GoesToSleep(th.pc)
  }

  lemma OwnNotBlocked(s: State, act: Act)
    requires Next(s, act).Some? && act.t in s.threads && NotBlocked(s.threads[act.t])
    ensures act.t in Next(s, act).value.threads && NotBlocked(Next(s, act).value.threads[act.t])
  {
  }

  lemma NoneBlockedKept(s: State, act: Act)
    requires NoneBlocked(s) && Next(s, act).Some?
    ensures NoneBlocked(Next(s, act).value)
  {
    var s' := Next(s, act).value;
    OwnNotBlocked(s, act);
    forall u | u in s'.threads ensures NotBlocked(s'.threads[u]) {
      if u != act.t { OthersStay(s, act, u); }
    }
  }

  lemma {:induction false} ExecNoneBlocked(tids: set<Tid>, acts: seq<Act>)
    requires Exec(Init(tids), acts).Some?
    ensures NoneBlocked(Exec(Init(tids), acts).value)
  {
    if acts != [] {
      var m := |acts| - 1;
      ExecNoneBlocked(tids, acts[..m]);
      NoneBlockedKept(Exec(Init(tids), acts[..m]).value, acts[m]);
    }
  }

  /** In every reachable state a thread with a nonblocking call is awake and not on the way to sleep. */
  lemma NonblockNeverSleeps(tids: set<Tid>, s: State, t: Tid)
    requires Reachable(tids, s) && t in s.threads && Nonblock(s.threads[t].call)
    ensures !s.threads[t].asleep && s.threads[t].pc !in {Prepare, Release, Schedule, Relock}
  {
    var acts :| Exec(Init(tids), acts) == Some(s);
    ExecNoneBlocked(tids, acts);
  }

  /** Two steps of one thread. */
  function Twice(s: State, t: Tid): Option<State> {
    match Next(s, Go(t)) case None => None case Some(r) => Next(r, Go(t))
  }

  /** The call of t is over, and has returned ret. */
  function Ended(s: State, t: Tid, ret: int): State
    requires t in s.threads
  {
    s.(threads := s.threads[t := IDLE], returned := s.returned + [Return(t, s.threads[t].call, ret)])
  }

  /** A call begins by taking the mutex, when that is free; if it need not wait it comes to its copy. */
  lemma BeginsCall(s: State, t: Tid)
    requires t in s.threads && s.threads[t].call != NoCall && s.threads[t].pc == Enter
    ensures s.owner != None ==> Next(s, Go(t)) == None
    ensures s.owner == None && s.threads[t].call == ClearCall ==>
              Next(s, Go(t)) == Some(s.(owner := Some(t), threads := s.threads[t := s.threads[t].(pc := Copy)]))
    ensures s.owner == None && s.threads[t].call != ClearCall ==>
              Next(s, Go(t)) == Some(s.(owner := Some(t), threads := s.threads[t := s.threads[t].(pc := Test)]))
    ensures s.owner == None && s.threads[t].call != ClearCall && !MustWait(s.threads[t].call, s.q) ==>
              Twice(s, t) == Some(s.(owner := Some(t), threads := s.threads[t := s.threads[t].(pc := Copy)]))
  {
    var th := s.threads[t];
    assert s.threads[t := th.(pc := Test)][t := th.(pc := Copy)] == s.threads[t := th.(pc := Copy)];
  }

  /** A nonblocking call that would have to wait returns -EAGAIN in two steps, leaving the queue alone;
      a blocking one gives up the mutex and sleeps. */
  lemma WaitsOrReturns(s: State, t: Tid)
    requires t in s.threads && s.threads[t].call != NoCall && s.threads[t].pc == Test && s.owner == Some(t)
    requires MustWait(s.threads[t].call, s.q)
    ensures Nonblock(s.threads[t].call) ==> Twice(s, t) == Some(Ended(s, t, -EAGAIN).(owner := None))
    ensures !Nonblock(s.threads[t].call) ==>
              && Twice(s, t).Some? && Next(Twice(s, t).value, Go(t)) ==
                 Some(s.(owner := None, threads := s.threads[t :=
                   s.threads[t].(pc := Schedule, asleep := true, cleared := false)]))
  {
    var th := s.threads[t];
    var th1 := if Nonblock(th.call) then th.(pc := Unlock, ret := -EAGAIN) else th.(pc := Prepare);
    assert Next(s, Go(t)) == Some(s.(threads := s.threads[t := th1]));
    assert s.threads[t := th1][t := IDLE] == s.threads[t := IDLE];
    var th2 := th1.(pc := Release, asleep := true, cleared := false);
    assert s.threads[t := th1][t := th2] == s.threads[t := th2];
    assert s.threads[t := th2][t := th2.(pc := Schedule)] == s.threads[t := th2.(pc := Schedule)];
  }

  /** A signalled sleeper returns -ERESTARTSYS, whatever the queue holds; one that has been woken takes
      the mutex again; one that is still asleep does not go on. */
  lemma AfterSchedule(s: State, t: Tid)
    requires t in s.threads && s.threads[t].call != NoCall && s.threads[t].pc == Schedule
    ensures s.threads[t].signalled ==> Next(s, Go(t)) == Some(Ended(s, t, -ERESTARTSYS))
    ensures !s.threads[t].signalled && s.threads[t].asleep ==> Next(s, Go(t)) == None
    ensures !s.threads[t].signalled && !s.threads[t].asleep ==>
              && Next(s, Go(t)).Some?
              && (s.owner == None ==>
                    Twice(s, t) == Some(s.(owner := Some(t), threads := s.threads[t := s.threads[t].(pc := Test)])))
  {
    var th := s.threads[t];
    assert s.threads[t := th.(pc := Relock)][t := th.(pc := Test)] == s.threads[t := th.(pc := Test)];
  }

  /** A copy that fails makes the call return -EFAULT with the queue as it was. */
  lemma FaultReturns(s: State, t: Tid)
    requires t in s.threads && s.threads[t].pc == Copy && (s.threads[t].call.ReadCall? || s.threads[t].call.WriteCall?)
    ensures var r := Next(s, Fault(t));
            r.Some? && Next(r.value, Go(t)) == Some(Ended(s, t, -EFAULT).(owner := None))
  {
    var th := s.threads[t].(pc := Unlock, ret := -EFAULT);
    assert s.threads[t := th][t := IDLE] == s.threads[t := IDLE];
  }

  /** u slept for what the call of kind `call` brings, and is awake; everybody else is as before. */
  ghost predicate Woken(call: Call, before: map<Tid, Thread>, after: map<Tid, Thread>, t: Tid) {
    && after.Keys == before.Keys
    && forall u | u in before && u != t ::
         after[u] == if (call.ReadCall? && before[u].call.WriteCall?) || (call.WriteCall? && before[u].call.ReadCall?)
                     then before[u].(asleep := false) else before[u]
  }

  /** A read takes min(count, current_len) bytes from the front, wakes all writers and returns how many
      bytes it took. */
  lemma ReadEnds(s: State, t: Tid)
    requires t in s.threads && s.threads[t].call.ReadCall? && s.threads[t].pc == Copy
    ensures var n := Min(s.threads[t].call.count, |s.q|);
            var r := Twice(s, t);
            && r.Some? && Next(r.value, Go(t)).Some?
            && var e := Next(r.value, Go(t)).value;
               && e.q == s.q[n..] && e.log == s.log + [Delivered(t, s.q[..n])] && e.owner == None
               && e.returned == s.returned + [Return(t, s.threads[t].call, n)]
               && e.threads.Keys == s.threads.Keys && e.threads[t] == IDLE
               && Woken(s.threads[t].call, s.threads, e.threads, t)
  {
  }

  /** A write adds as many bytes as there is room for at the back, wakes all readers and returns how many. */
  lemma WriteEnds(s: State, t: Tid)
    requires t in s.threads && s.threads[t].call.WriteCall? && s.threads[t].pc == Copy && |s.q| <= GLOBALFIFO_SIZE
    ensures var data := s.threads[t].call.data;
            var n := Min(|data|, GLOBALFIFO_SIZE - |s.q|);
            var r := Twice(s, t);
            && r.Some? && Next(r.value, Go(t)).Some?
            && var e := Next(r.value, Go(t)).value;
               && e.q == s.q + data[..n] && e.log == s.log + [Accepted(t, data[..n])] && e.owner == None
               && e.returned == s.returned + [Return(t, s.threads[t].call, n)]
               && e.threads.Keys == s.threads.Keys && e.threads[t] == IDLE
               && Woken(s.threads[t].call, s.threads, e.threads, t)
  {
  }

  /** FIFO_CLEAR empties the queue, wakes nobody and returns 0. */
  lemma ClearEnds(s: State, t: Tid)
    requires t in s.threads && s.threads[t].call == ClearCall && s.threads[t].pc == Copy && !s.threads[t].asleep
    ensures var r := Twice(s, t);
            && r.Some? && r.value.q == [] && r.value.log == s.log + [Cleared] && r.value.owner == None
            && r.value.returned == s.returned + [Return(t, ClearCall, 0)]
            && r.value.threads.Keys == s.threads.Keys && r.value.threads[t] == IDLE
            && forall u | u in s.threads && u != t ::
                 r.value.threads[u] == s.threads[u].(cleared := s.threads[u].asleep || s.threads[u].cleared)
  {
  }

  // What calls have returned adds up to what has crossed.

  /** How many bytes the log shows to have gone to t, and to have come from t. */
  function BytesTo(log: seq<Event>, t: Tid): nat {
    if log == [] then 0
    else
      var e := log[|log| - 1];
      BytesTo(log[..|log| - 1], t) + if e.Delivered? && e.t == t then |e.data| else 0
  }

  function BytesFrom(log: seq<Event>, t: Tid): nat {
    if log == [] then 0
    else
      var e := log[|log| - 1];
      BytesFrom(log[..|log| - 1], t) + if e.Accepted? && e.t == t then |e.data| else 0
  }

  /** The sum of the counts that reads, and that writes, of t have returned. */
  function ReadTotal(rs: seq<Return>, t: Tid): int {
    if rs == [] then 0
    else
      var e := rs[|rs| - 1];
      ReadTotal(rs[..|rs| - 1], t) + if e.t == t && e.call.ReadCall? && e.ret > 0 then e.ret else 0
  }

  function WriteTotal(rs: seq<Return>, t: Tid): int {
    if rs == [] then 0
    else
      var e := rs[|rs| - 1];
      WriteTotal(rs[..|rs| - 1], t) + if e.t == t && e.call.WriteCall? && e.ret > 0 then e.ret else 0
  }

  /** The count that a call which has moved its bytes has yet to return. */
  function Due(th: Thread): int {
    if th.call != NoCall && (th.pc == Wake || th.pc == Unlock) && th.ret > 0 then th.ret else 0
  }

  ghost predicate AddsUp(s: State, t: Tid)
    requires t in s.threads
  {
    var th := s.threads[t];
    && BytesTo(s.log, t) == ReadTotal(s.returned, t) + (if th.call.ReadCall? then Due(th) else 0)
    && BytesFrom(s.log, t) == WriteTotal(s.returned, t) + (if th.call.WriteCall? then Due(th) else 0)
  }

  lemma LogOneMore(log: seq<Event>, e: Event, t: Tid)
    ensures BytesTo(log + [e], t) == BytesTo(log, t) + if e.Delivered? && e.t == t then |e.data| else 0
    ensures BytesFrom(log + [e], t) == BytesFrom(log, t) + if e.Accepted? && e.t == t then |e.data| else 0
  {
    assert (log + [e])[..|log|] == log;
  }

  lemma ReturnedOneMore(rs: seq<Return>, e: Return, t: Tid)
    ensures ReadTotal(rs + [e], t) == ReadTotal(rs, t) + if e.t == t && e.call.ReadCall? && e.ret > 0 then e.ret else 0
    ensures WriteTotal(rs + [e], t) == WriteTotal(rs, t) + if e.t == t && e.call.WriteCall? && e.ret > 0 then e.ret else 0
  {
    assert (rs + [e])[..|rs|] == rs;
  }

  /** What a step adds to the records: a copy its event, the end of a call what it returns. */
  datatype Note = Nothing | Moves(e: Event) | Returns(ret: int)

  function NoteOf(s: State, act: Act): Note
    requires act.t in s.threads
  {
    var th := s.threads[act.t];
    if !act.Go? || th.call == NoCall then Nothing
    else if th.pc == Copy then Moves(Transfer(act.t, th.call, s.q).1[0])
    else if th.pc == Unlock then Returns(th.ret)
    else if th.pc == Schedule && th.signalled then Returns(-ERESTARTSYS)
    else Nothing
  }

  /** The state of the records, and of the thread that has made the step. */
  lemma StepNotes(s: State, act: Act)
    requires Next(s, act).Some?
    ensures act.t in s.threads && act.t in Next(s, act).value.threads
    ensures var s' := Next(s, act).value;
            match NoteOf(s, act)
            case Nothing => s'.log == s.log && s'.returned == s.returned
            case Moves(e) => s'.log == s.log + [e] && s'.returned == s.returned
            case Returns(ret) =>
              s'.log == s.log && s'.returned == s.returned + [Return(act.t, s.threads[act.t].call, ret)]
  {
  }

  /** What the thread has due after a step. */
  lemma StepDue(s: State, act: Act)
    requires Next(s, act).Some? && act.t in Next(s, act).value.threads
    ensures act.t in s.threads
    ensures var th, th' := s.threads[act.t], Next(s, act).value.threads[act.t];
            match NoteOf(s, act)
            case Nothing => Due(th') == Due(th) && (th'.call == th.call || Due(th) == 0)
            case Moves(e) =>
              && Due(th) == 0 && Due(th') == Moved([e]) && th'.call == th.call
              && (th.call.ReadCall? <==> e.Delivered?) && (th.call.WriteCall? <==> e.Accepted?) && (!e.Cleared? ==> e.t == act.t)
            case Returns(ret) => (if ret > 0 then ret else 0) == Due(th) && Due(th') == 0
  {
    var th := s.threads[act.t];
    if act.Go? && th.call != NoCall && th.pc == Copy { TransferNotes(act.t, th.call, s.q); }
  }

  lemma TransferNotes(t: Tid, call: Call, q: seq<byte>)
    requires call != NoCall
    ensures var ev := Transfer(t, call, q).1;
            && |ev| == 1 && ev == [ev[0]] && (!ev[0].Cleared? ==> ev[0].t == t)
            && (call.ReadCall? <==> ev[0].Delivered?) && (call.WriteCall? <==> ev[0].Accepted?)
  {
  }

  lemma OwnAddsUp(s: State, act: Act)
    requires Next(s, act).Some? && act.t in s.threads && AddsUp(s, act.t)
    ensures act.t in Next(s, act).value.threads && AddsUp(Next(s, act).value, act.t)
  {
    StepNotes(s, act);
    StepDue(s, act);
    NotesCounted(s, act, act.t, NoteOf(s, act), Next(s, act).value);
    var th, th', note := s.threads[act.t], Next(s, act).value.threads[act.t], NoteOf(s, act);
    assert note.Nothing? ==> Due(th') == Due(th);
  }

  lemma OthersAddUp(s: State, act: Act, u: Tid)
    requires Next(s, act).Some? && u in s.threads && AddsUp(s, u) && u != act.t && u in Next(s, act).value.threads
    ensures AddsUp(Next(s, act).value, u)
  {
    OthersStay(s, act, u);
    StepNotes(s, act);
    StepDue(s, act);
    NotesCounted(s, act, u, NoteOf(s, act), Next(s, act).value);
  }

  lemma NotesCounted(s: State, act: Act, u: Tid, note: Note, s': State)
    requires act.t in s.threads
    requires match note
             case Nothing => s'.log == s.log && s'.returned == s.returned
             case Moves(e) => s'.log == s.log + [e] && s'.returned == s.returned
             case Returns(ret) =>
               s'.log == s.log && s'.returned == s.returned + [Return(act.t, s.threads[act.t].call, ret)]
    ensures BytesTo(s'.log, u) ==
            BytesTo(s.log, u) + if note.Moves? && note.e.Delivered? && note.e.t == u then |note.e.data| else 0
    ensures BytesFrom(s'.log, u) ==
            BytesFrom(s.log, u) + if note.Moves? && note.e.Accepted? && note.e.t == u then |note.e.data| else 0
    ensures ReadTotal(s'.returned, u) == ReadTotal(s.returned, u)
            + if note.Returns? && act.t == u && s.threads[act.t].call.ReadCall? && note.ret > 0 then note.ret else 0
    ensures WriteTotal(s'.returned, u) == WriteTotal(s.returned, u)
            + if note.Returns? && act.t == u && s.threads[act.t].call.WriteCall? && note.ret > 0 then note.ret else 0
  {
    match note
    case Nothing =>
    case Moves(e) => LogOneMore(s.log, e, u);
    case Returns(ret) => ReturnedOneMore(s.returned, Return(act.t, s.threads[act.t].call, ret), u);
  }

  lemma {:induction false} ExecAddsUp(tids: set<Tid>, acts: seq<Act>, t: Tid)
    requires t in tids && Exec(Init(tids), acts).Some?
    ensures t in Exec(Init(tids), acts).value.threads && AddsUp(Exec(Init(tids), acts).value, t)
  {
    if acts != [] {
      var m := |acts| - 1;
      var s := Exec(Init(tids), acts[..m]).value;
      ExecAddsUp(tids, acts[..m], t);
      KeepsThreads(s, acts[m]);
      if acts[m].t == t { OwnAddsUp(s, acts[m]); } else { OthersAddUp(s, acts[m], t); }
    }
  }

  lemma KeepsThreads(s: State, act: Act)
    requires Next(s, act).Some?
    ensures Next(s, act).value.threads.Keys == s.threads.Keys
  {
  }

  /** In every run the counts that the finished calls of a thread have returned, and the count a call at
      its end is about to return, are the bytes that went to it and came from it. */
  lemma ReturnsAddUp(tids: set<Tid>, s: State, t: Tid)
    requires Reachable(tids, s) && t in tids
    ensures t in s.threads && AddsUp(s, t)
  {
    var acts :| Exec(Init(tids), acts) == Some(s);
    ExecAddsUp(tids, acts, t);
  }

  /** What a call can return: a count it asked for at most, -EAGAIN only if nonblocking, -ERESTARTSYS only
      if blocking, -EFAULT. */
  predicate RightReturn(call: Call, ret: int) {
    match call
    case NoCall => false
    case ClearCall => ret == 0
    case ReadCall(count, nonblock) => 0 <= ret <= count || RightError(ret, nonblock)
    case WriteCall(data, nonblock) => 0 <= ret <= |data| || RightError(ret, nonblock)
  }

  predicate RightError(ret: int, nonblock: bool) {
    ret == -EFAULT || ret == if nonblock then -EAGAIN else -ERESTARTSYS
  }

  /** A thread keeps to the statements of its call, and knows a right value to return when it has one. */
  predicate OnItsWay(th: Thread) {
    && ((th.pc == Wake || th.pc == Unlock) && th.call != NoCall ==> RightReturn(th.call, th.ret))
    && (GoesToSleep(th.pc) || th.pc == Test || th.pc == Wake ==> th.call.ReadCall? || th.call.WriteCall?)
    && (GoesToSleep(th.pc) ==> !Nonblock(th.call))
  }

  ghost predicate ReturnsRight(s: State) {
    && (forall t | t in s.threads :: OnItsWay(s.threads[t]))
    && (forall i | 0 <= i < |s.returned| :: RightReturn(s.returned[i].call, s.returned[i].ret))
  }

  lemma ThreadOnItsWay(s: State, act: Act)
    requires Next(s, act).Some? && act.t in Next(s, act).value.threads
    requires act.t in s.threads && OnItsWay(s.threads[act.t])
    ensures OnItsWay(Next(s, act).value.threads[act.t])
  {
    if act.Go? && (s.threads[act.t].pc == Copy || s.threads[act.t].pc == Wake) {
      CopyOnItsWay(s, act.t);
    } else {
      RestOnItsWay(s, act);
    }
  }

  lemma CopyOnItsWay(s: State, t: Tid)
    requires Next(s, Go(t)).Some? && t in Next(s, Go(t)).value.threads
    requires t in s.threads && OnItsWay(s.threads[t]) && (s.threads[t].pc == Copy || s.threads[t].pc == Wake)
    ensures OnItsWay(Next(s, Go(t)).value.threads[t])
  {
  }

  lemma RestOnItsWay(s: State, act: Act)
    requires Next(s, act).Some? && act.t in Next(s, act).value.threads
    requires act.t in s.threads && OnItsWay(s.threads[act.t])
    requires act.Go? ==> s.threads[act.t].pc != Copy && s.threads[act.t].pc != Wake
    ensures OnItsWay(Next(s, act).value.threads[act.t])
  {
  }

  lemma NoteRight(s: State, act: Act)
    requires act.t in s.threads && OnItsWay(s.threads[act.t]) && NoteOf(s, act).Returns?
    ensures RightReturn(s.threads[act.t].call, NoteOf(s, act).ret)
  {
  }

  lemma ReturnsRightKept(s: State, act: Act)
    requires ReturnsRight(s) && Next(s, act).Some?
    ensures ReturnsRight(Next(s, act).value)
  {
    var s' := Next(s, act).value;
    StepNotes(s, act);
    ThreadOnItsWay(s, act);
    if NoteOf(s, act).Returns? { NoteRight(s, act); }
    forall u | u in s'.threads ensures OnItsWay(s'.threads[u]) {
      if u != act.t { OthersStay(s, act, u); }
    }
  }

  lemma {:induction false} ExecReturnsRight(tids: set<Tid>, acts: seq<Act>)
    requires Exec(Init(tids), acts).Some?
    ensures ReturnsRight(Exec(Init(tids), acts).value)
  {
    if acts != [] {
      var m := |acts| - 1;
      ExecReturnsRight(tids, acts[..m]);
      ReturnsRightKept(Exec(Init(tids), acts[..m]).value, acts[m]);
    }
  }
}
