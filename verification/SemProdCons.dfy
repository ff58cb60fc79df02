/** Application/ipc/sem/sem.c: one producer and one consumer over a ring of NBUFF cells and three
    semaphores. Each semaphore operation and each access to the ring is one step. */
module SemProdCons {
  import opened Wrappers

  const NBUFF := 10

  /** Where a thread stands in one turn of its loop (lines 83-88 and 99-103). */
  datatype PC = WaitSlot | WaitMutex | Access | PostMutex | PostOther

  datatype State = State(
    nempty: nat,
    nstored: nat,
    mutex: nat,
    buf: seq<int>,
    pp: PC,             // the producer
    pi: nat,
    cp: PC,             // the consumer
    ci: nat,
    printed: seq<int>)  // the values the consumer has read, oldest first

  datatype Thread = Producer | Consumer

  /** nempty and nstored start at e0 and s0; the program uses 1 and 1. */
  function Init(e0: nat, s0: nat): State {
    State(e0, s0, 1, seq(NBUFF, _ => 0), WaitSlot, 0, WaitSlot, 0, [])
  }

  /** One step of a thread of the program for nitems == n: None when it is blocked or has finished. */
  function Next(n: int, s: State, t: Thread): Option<State>
    requires |s.buf| == NBUFF
  {
    match t
    case Producer =>
      (match s.pp
       case WaitSlot =>
         if s.pi >= n || s.nempty == 0 then None
         else Some(s.(nempty := s.nempty - 1, pp := WaitMutex))
       case WaitMutex =>
         if s.mutex == 0 then None else Some(s.(mutex := s.mutex - 1, pp := Access))
       case Access => Some(s.(buf := s.buf[s.pi % NBUFF := s.pi], pp := PostMutex))
       case PostMutex => Some(s.(mutex := s.mutex + 1, pp := PostOther))
       case PostOther => Some(s.(nstored := s.nstored + 1, pi := s.pi + 1, pp := WaitSlot)))
    case Consumer =>
      (match s.cp
       case WaitSlot =>
         if s.ci >= n || s.nstored == 0 then None
         else Some(s.(nstored := s.nstored - 1, cp := WaitMutex))
       case WaitMutex =>
         if s.mutex == 0 then None else Some(s.(mutex := s.mutex - 1, cp := Access))
       case Access => Some(s.(printed := s.printed + [s.buf[s.ci % NBUFF]], cp := PostMutex))
       case PostMutex => Some(s.(mutex := s.mutex + 1, cp := PostOther))
       case PostOther => Some(s.(nempty := s.nempty + 1, ci := s.ci + 1, cp := WaitSlot)))
  }

  /** The state reached from s by a schedule, None if some scheduled step is not possible. */
  function Exec(n: int, s: State, sched: seq<Thread>): (r: Option<State>)
    requires |s.buf| == NBUFF
    ensures r.Some? ==> |r.value.buf| == NBUFF
  {
    if sched == [] then
      Some(s)
    else
      Then(n, Exec(n, s, sched[..|sched| - 1]), sched[|sched| - 1])
  }

  /** One more step, of thread t, if there is a state to go on from. */
  function Then(n: int, before: Option<State>, t: Thread): (r: Option<State>)
    requires before.Some? ==> |before.value.buf| == NBUFF
    ensures r.Some? ==> |r.value.buf| == NBUFF
  {
    if before.Some? then Next(n, before.value, t) else None
  }

  // ---------- what every interleaving keeps ----------

  /** Completed writes, completed reads, completed waits on nempty and on nstored. */
  function Written(s: State): nat { s.pi + if s.pp in {PostMutex, PostOther} then 1 else 0 }
  function Consumed(s: State): nat { s.ci + if s.cp in {PostMutex, PostOther} then 1 else 0 }
  function SlotsTaken(s: State): nat { s.pi + if s.pp != WaitSlot then 1 else 0 }
  function ItemsTaken(s: State): nat { s.ci + if s.cp != WaitSlot then 1 else 0 }
  function InSection(pc: PC): nat { if pc in {Access, PostMutex} then 1 else 0 }

  /** Ring cell k after the values below w have been written: the latest value that belongs there. */
  function Cell(w: nat, k: nat): int
    requires k < NBUFF
  {
    if w <= k then 0 else (w - 1) - (w - 1 - k) % NBUFF
  }

  /** v is what a reader finds in the cell of item i when w values have been written, w within the
      slack the semaphores allow. */
  ghost predicate ReadAt(n: int, v: int, i: nat, w: int, e0: nat, s0: nat) {
    i + 1 - s0 <= w <= i + e0 && i < n && 0 <= w <= n && v == Cell(w, i % NBUFF)
  }

  ghost predicate WasRead(n: int, v: int, i: nat, e0: nat, s0: nat) {
    exists w :: ReadAt(n, v, i, w, e0, s0)
  }

  ghost predicate Inv(n: int, e0: nat, s0: nat, s: State) {
    && s.nempty + SlotsTaken(s) == e0 + s.ci
    && s.nstored + ItemsTaken(s) == s0 + s.pi
    && s.mutex + InSection(s.pp) + InSection(s.cp) == 1
    && (s.pi == 0 || s.pi <= n) && (s.ci == 0 || s.ci <= n)
    && (s.pp != WaitSlot ==> s.pi < n) && (s.cp != WaitSlot ==> s.ci < n)
    && |s.buf| == NBUFF
    && (forall k | 0 <= k < NBUFF :: s.buf[k] == Cell(Written(s), k))
    && |s.printed| == Consumed(s)
  }

  ghost predicate AllRead(n: int, e0: nat, s0: nat, s: State) {
    forall i | 0 <= i < |s.printed| :: WasRead(n, s.printed[i], i, e0, s0)
  }

  lemma CellWritten(w: nat, k: nat)
    requires k < NBUFF
    ensures Cell(w + 1, k) == if k == w % NBUFF then w else Cell(w, k)
  {
  }

  /** The cell of item i is fresh for a lap after i is written, and a lap old just before. */
  lemma CellOfItem(w: nat, i: nat)
    ensures i < w <= i + NBUFF ==> Cell(w, i % NBUFF) == i
    ensures i < w <= NBUFF ==> Cell(w, i % NBUFF) == i
    ensures Cell(i, i % NBUFF) == if i < NBUFF then 0 else i - NBUFF
  {
  }

  lemma ProducerKeeps(n: int, e0: nat, s0: nat, s: State)
    requires Inv(n, e0, s0, s) && Next(n, s, Producer).Some?
    ensures Inv(n, e0, s0, Next(n, s, Producer).value)
  {
    var t := Next(n, s, Producer).value;
    if s.pp == Access {
      forall k | 0 <= k < NBUFF ensures t.buf[k] == Cell(Written(t), k) {
        CellWritten(s.pi, k);
      }
    }
  }

  lemma ConsumerKeeps(n: int, e0: nat, s0: nat, s: State)
    requires Inv(n, e0, s0, s) && AllRead(n, e0, s0, s) && Next(n, s, Consumer).Some?
    ensures Inv(n, e0, s0, Next(n, s, Consumer).value) && AllRead(n, e0, s0, Next(n, s, Consumer).value)
  {
    var t := Next(n, s, Consumer).value;
    if s.cp == Access {
      assert ReadAt(n, t.printed[s.ci], s.ci, Written(s), e0, s0);
      assert WasRead(n, t.printed[s.ci], s.ci, e0, s0);
    } else {
      assert t.printed == s.printed;
    }
  }

  /** In every interleaving the semaphores count exactly what they should, at most one thread is
      inside the critical section, each ring cell holds the latest value written for it, and each
      value read was the content of its cell at a moment within the slack of the semaphores. */
  lemma {:induction false} ReachableInv(n: int, e0: nat, s0: nat, sched: seq<Thread>)
    requires Exec(n, Init(e0, s0), sched).Some?
    ensures var s := Exec(n, Init(e0, s0), sched).value; Inv(n, e0, s0, s) && AllRead(n, e0, s0, s)
  {
    if sched != [] {
      var m := |sched| - 1;
      ReachableInv(n, e0, s0, sched[..m]);
      var s := Exec(n, Init(e0, s0), sched[..m]).value;
      if sched[m] == Producer { ProducerKeeps(n, e0, s0, s); } else { ConsumerKeeps(n, e0, s0, s); }
    }
  }

  /** Writer and reader are never further apart than the initial semaphore values allow. */
  lemma SlackBounds(n: int, e0: nat, s0: nat, sched: seq<Thread>)
    requires Exec(n, Init(e0, s0), sched).Some?
    ensures var s := Exec(n, Init(e0, s0), sched).value;
            && Written(s) <= |s.printed| + e0
            && |s.printed| <= Written(s) + s0
            && !(s.pp in {Access, PostMutex} && s.cp in {Access, PostMutex})
  {
    ReachableInv(n, e0, s0, sched);
  }

  // ---------- which values are read ----------

  ghost predicate InOrder(s: State) {
    forall i | 0 <= i < |s.printed| :: s.printed[i] == i
  }

  /** With the program's own values 1 and 1 an item is read fresh or exactly one lap old. */
  lemma OneLapOld(n: int, sched: seq<Thread>, i: nat)
    requires Exec(n, Init(1, 1), sched).Some?
    requires i < |Exec(n, Init(1, 1), sched).value.printed|
    ensures var v := Exec(n, Init(1, 1), sched).value.printed[i];
            v == i || v == if i < NBUFF then 0 else i - NBUFF
  {
    ReachableInv(n, 1, 1, sched);
    var s := Exec(n, Init(1, 1), sched).value;
    assert WasRead(n, s.printed[i], i, 1, 1);
    var w :| ReadAt(n, s.printed[i], i, w, 1, 1);
    CellOfItem(w, i);
  }

  /** Exactly when the queue delivers every item in order. */
  predicate Fifo(n: int, e0: nat, s0: nat) {
    n <= 1 || (s0 == 0 && (e0 <= NBUFF || n <= NBUFF))
  }

  lemma FifoDelivers(n: int, e0: nat, s0: nat, sched: seq<Thread>)
    requires Fifo(n, e0, s0) && Exec(n, Init(e0, s0), sched).Some?
    ensures InOrder(Exec(n, Init(e0, s0), sched).value)
  {
    ReachableInv(n, e0, s0, sched);
    var s := Exec(n, Init(e0, s0), sched).value;
    forall i | 0 <= i < |s.printed| ensures s.printed[i] == i {
      assert WasRead(n, s.printed[i], i, e0, s0);
      var w :| ReadAt(n, s.printed[i], i, w, e0, s0);
      CellOfItem(w, i);
    }
  }

  // Schedules that break the order when the condition fails.

  const P5 := [Producer, Producer, Producer, Producer, Producer]
  const C5 := [Consumer, Consumer, Consumer, Consumer, Consumer]

  lemma ExecOne(n: int, s: State, a: seq<Thread>, t: Thread)
    requires |s.buf| == NBUFF
    ensures Exec(n, s, a + [t]) == Then(n, Exec(n, s, a), t)
  {
    var at := a + [t];
    assert |at| - 1 == |a| && at[..|at| - 1] == a && at[|at| - 1] == t;
  }

  lemma {:induction false} ExecConcat(n: int, s: State, a: seq<Thread>, b: seq<Thread>)
    requires |s.buf| == NBUFF && Exec(n, s, a).Some?
    ensures Exec(n, s, a + b) == Exec(n, Exec(n, s, a).value, b)
    decreases |b|
  {
    if b == [] {
      assert a + b == a;
    } else {
      var m := |b| - 1;
      ExecConcat(n, s, a, b[..m]);
      assert a + b == (a + b[..m]) + [b[m]] && b == b[..m] + [b[m]];
      ExecOne(n, s, a + b[..m], b[m]);
      ExecOne(n, Exec(n, s, a).value, b[..m], b[m]);
    }
  }

  /** A whole turn of the producer, undisturbed. */
  lemma ProducerTurn(n: int, s: State)
    requires |s.buf| == NBUFF && s.pp == WaitSlot && s.pi < n && s.nempty > 0 && s.mutex > 0
    ensures Exec(n, s, P5) == Some(s.(nempty := s.nempty - 1, nstored := s.nstored + 1, pi := s.pi + 1,
                                      buf := s.buf[s.pi % NBUFF := s.pi]))
  {
    var a1 := [] + [Producer];
    var a2 := a1 + [Producer];
    var a3 := a2 + [Producer];
    var a4 := a3 + [Producer];
    ExecOne(n, s, [], Producer);
    ExecOne(n, s, a1, Producer);
    ExecOne(n, s, a2, Producer);
    ExecOne(n, s, a3, Producer);
    ExecOne(n, s, a4, Producer);
    assert a4 + [Producer] == P5;
  }

  /** A whole turn of the consumer, undisturbed. */
  lemma ConsumerTurn(n: int, s: State)
    requires |s.buf| == NBUFF && s.cp == WaitSlot && s.ci < n && s.nstored > 0 && s.mutex > 0
    ensures Exec(n, s, C5) == Some(s.(nempty := s.nempty + 1, nstored := s.nstored - 1, ci := s.ci + 1,
                                      printed := s.printed + [s.buf[s.ci % NBUFF]]))
  {
    var a1 := [] + [Consumer];
    var a2 := a1 + [Consumer];
    var a3 := a2 + [Consumer];
    var a4 := a3 + [Consumer];
    ExecOne(n, s, [], Consumer);
    ExecOne(n, s, a1, Consumer);
    ExecOne(n, s, a2, Consumer);
    ExecOne(n, s, a3, Consumer);
    ExecOne(n, s, a4, Consumer);
    assert a4 + [Consumer] == C5;
  }

  /** The producer alone can complete k turns as long as there is room. */
  lemma {:induction false} ProducerTurns(n: int, e0: nat, s0: nat, k: nat) returns (sched: seq<Thread>)
    requires k <= n && k <= e0
    ensures Exec(n, Init(e0, s0), sched).Some?
    ensures var s := Exec(n, Init(e0, s0), sched).value;
            s == Init(e0, s0).(nempty := e0 - k, nstored := s0 + k, pi := k, buf := s.buf)
  {
    if k == 0 {
      sched := [];
    } else {
      sched := ProducerTurns(n, e0, s0, k - 1);
      var s := Exec(n, Init(e0, s0), sched).value;
      ProducerTurn(n, s);
      ExecConcat(n, Init(e0, s0), sched, P5);
      sched := sched + P5;
    }
  }

  lemma FifoBreaks(n: int, e0: nat, s0: nat) returns (sched: seq<Thread>)
    requires !Fifo(n, e0, s0)
    ensures Exec(n, Init(e0, s0), sched).Some? && !InOrder(Exec(n, Init(e0, s0), sched).value)
  {
    var init := Init(e0, s0);
    if s0 == 0 {
      // NBUFF + 1 items are written before the first is read
      sched := ProducerTurns(n, e0, s0, NBUFF + 1);
      var s := Exec(n, init, sched).value;
      ReachableInv(n, e0, s0, sched);
      ConsumerTurn(n, s);
      ExecConcat(n, init, sched, C5);
      sched := sched + C5;
      assert Exec(n, init, sched).value.printed[0] == Cell(NBUFF + 1, 0) == NBUFF;
    } else {
      // the consumer reads cell 0, the producer fills cell 0, the consumer reads the empty cell 1
      ConsumerTurn(n, init);
      var s1 := Exec(n, init, C5).value;
      ProducerTurn(n, s1);
      ExecConcat(n, init, C5, P5);
      var s2 := Exec(n, init, C5 + P5).value;
      ConsumerTurn(n, s2);
      ExecConcat(n, init, C5 + P5, C5);
      sched := C5 + P5 + C5;
      assert Exec(n, init, sched).value.printed[1] == 0;
    }
  }

  /** In-order delivery in every interleaving, exactly characterised. The program's 1 and 1 fail it
      from two items on. */
  lemma FifoExactly(n: int, e0: nat, s0: nat)
    ensures Fifo(n, e0, s0) <==>
            forall sched | Exec(n, Init(e0, s0), sched).Some? :: InOrder(Exec(n, Init(e0, s0), sched).value)
  {
    if Fifo(n, e0, s0) {
      forall sched | Exec(n, Init(e0, s0), sched).Some? ensures InOrder(Exec(n, Init(e0, s0), sched).value) {
        FifoDelivers(n, e0, s0, sched);
      }
    } else {
      var sched := FifoBreaks(n, e0, s0);
    }
  }

  /** k items have been read, each one lap old, with the producer one item behind. */
  ghost predicate Lagging(s: State, k: nat) {
    && k >= 1 && s.pp == WaitSlot && s.pi == k - 1 && s.cp == WaitSlot && s.ci == k
    && |s.printed| == k
    && forall i | 0 <= i < k :: s.printed[i] == if i < NBUFF then 0 else i - NBUFF
  }

  lemma LagGoesOn(n: nat, s: State, k: nat) returns (t: State)
    requires 1 <= k < n && Inv(n, 1, 1, s) && Lagging(s, k)
    ensures Exec(n, s, P5 + C5) == Some(t) && Lagging(t, k + 1)
  {
    ProducerTurn(n, s);
    var s1 := Exec(n, s, P5).value;
    ConsumerTurn(n, s1);
    ExecConcat(n, s, P5, C5);
    t := Exec(n, s1, C5).value;
    CellWritten(k - 1, k % NBUFF);
    CellOfItem(k, k);
  }

  /** The staleness is no rare accident: in one run of the program every single item is read one lap old. */
  lemma {:induction false} AllStale(n: nat, k: nat) returns (sched: seq<Thread>)
    requires 1 <= k <= n
    ensures Exec(n, Init(1, 1), sched).Some? && Lagging(Exec(n, Init(1, 1), sched).value, k)
    decreases k
  {
    var init := Init(1, 1);
    if k == 1 {
      ConsumerTurn(n, init);
      sched := C5;
    } else {
      sched := AllStale(n, k - 1);
      ReachableInv(n, 1, 1, sched);
      var t := LagGoesOn(n, Exec(n, init, sched).value, k - 1);
      ExecConcat(n, init, sched, P5 + C5);
      sched := sched + (P5 + C5);
    }
  }

  // ---------- every run ends ----------

  function Rank(pc: PC): nat {
    match pc
    case WaitSlot => 0 case WaitMutex => 1 case Access => 2 case PostMutex => 3 case PostOther => 4
  }

  function StepsDone(s: State): nat {
    5 * s.pi + Rank(s.pp) + 5 * s.ci + Rank(s.cp)
  }

  predicate Finished(n: int, s: State) {
    s.pp == WaitSlot && s.pi >= n && s.cp == WaitSlot && s.ci >= n
  }

  predicate Stuck(n: int, s: State)
    requires |s.buf| == NBUFF
  {
    Next(n, s, Producer) == None && Next(n, s, Consumer) == None
  }

  lemma {:induction false} StepsCounted(n: int, e0: nat, s0: nat, sched: seq<Thread>)
    requires Exec(n, Init(e0, s0), sched).Some?
    ensures |sched| == StepsDone(Exec(n, Init(e0, s0), sched).value)
  {
    if sched != [] { StepsCounted(n, e0, s0, sched[..|sched| - 1]); }
  }

  /** No run is longer than ten steps an item, whatever the interleaving. */
  lemma RunsAreBounded(n: nat, e0: nat, s0: nat, sched: seq<Thread>)
    requires Exec(n, Init(e0, s0), sched).Some?
    ensures |sched| <= 10 * n
    ensures |sched| == 10 * n <==> Finished(n, Exec(n, Init(e0, s0), sched).value)
  {
    StepsCounted(n, e0, s0, sched);
    ReachableInv(n, e0, s0, sched);
  }

  lemma StuckMeansFinished(n: int, e0: nat, s0: nat, sched: seq<Thread>)
    requires e0 + s0 >= 1 || n <= 0
    requires Exec(n, Init(e0, s0), sched).Some? && Stuck(n, Exec(n, Init(e0, s0), sched).value)
    ensures Finished(n, Exec(n, Init(e0, s0), sched).value)
  {
    ReachableInv(n, e0, s0, sched);
  }

  /** Freedom from deadlock, exactly characterised: one unit in either semaphore is enough. */
  lemma DeadlockFreeExactly(n: int, e0: nat, s0: nat)
    ensures (e0 + s0 >= 1 || n <= 0) <==>
            forall sched | Exec(n, Init(e0, s0), sched).Some? && Stuck(n, Exec(n, Init(e0, s0), sched).value) ::
              Finished(n, Exec(n, Init(e0, s0), sched).value)
  {
    if e0 + s0 >= 1 || n <= 0 {
      forall sched | Exec(n, Init(e0, s0), sched).Some? && Stuck(n, Exec(n, Init(e0, s0), sched).value)
        ensures Finished(n, Exec(n, Init(e0, s0), sched).value)
      {
        StuckMeansFinished(n, e0, s0, sched);
      }
    } else {
      assert Exec(n, Init(e0, s0), []) == Some(Init(e0, s0));
      assert Stuck(n, Init(e0, s0)) && !Finished(n, Init(e0, s0));
    }
  }

  /** A run that cannot go on has moved every item and left the semaphores as they were. */
  lemma CompleteRun(n: nat, e0: nat, s0: nat, sched: seq<Thread>)
    requires e0 + s0 >= 1
    requires Exec(n, Init(e0, s0), sched).Some? && Stuck(n, Exec(n, Init(e0, s0), sched).value)
    ensures var s := Exec(n, Init(e0, s0), sched).value;
            && s.nempty == e0 && s.nstored == s0 && s.mutex == 1
            && |s.printed| == n
            && (Fifo(n, e0, s0) ==> s.printed == seq(n, i => i))
  {
    StuckMeansFinished(n, e0, s0, sched);
    ReachableInv(n, e0, s0, sched);
    if Fifo(n, e0, s0) { FifoDelivers(n, e0, s0, sched); }
  }
}
