/** device_driver/i2c/bus/i2c_bus.c lines 190-357: an interrupt-driven transfer of a list of messages.
    Line 304 is read as a test of the DONE bit, curr_msg0 on line 308 as curr_msg. */
module I2cBus {
  import opened Wrappers

  // Control register
  const C_READ: bv32 := 0x1
  const C_ST: bv32 := 0x80
  const C_INTD: bv32 := 0x100
  const C_INIT: bv32 := 0x200
  const C_INTR: bv32 := 0x400
  const C_I2CEN: bv32 := 0x8000

  // Status register
  const S_DONE: bv32 := 0x2
  const S_TXW: bv32 := 0x4
  const S_RXR: bv32 := 0x8
  const S_TXD: bv32 := 0x10
  const S_RXD: bv32 := 0x20
  const S_ERR: bv32 := 0x100
  const S_CLKT: bv32 := 0x200
  const S_LEN: bv32 := 0x400

  const EIO := 5
  const EOPNOTSUPP := 95
  const ETIMEDOUT := 110
  const EREMOTEIO := 121

  predicate Has(val: bv32, bit: bv32) { val & bit != 0 }

  /** An i2c_msg; for a read, buf only tells how many bytes are wanted. */
  datatype Msg = Msg(addr: int, read: bool, buf: seq<byte>)

  /** What the driver writes to the registers: lines 240-242 for each message, lines 352-353 at the end. */
  datatype RegOp = Program(addr: int, len: nat, c: bv32) | Clear

  /** The device registers as a source of answers: the k-th status word read, the k-th byte read from the FIFO. */
  datatype Env = Env(status: nat -> bv32, fifo: nat -> byte)

  /** The fields of i2c_demo_dev and what has crossed the registers. cur and off stand for curr_msg and
      msg_buf; polls counts the status words read so far. */
  datatype Dev = Dev(
    msgs: seq<Msg>, cur: nat, numMsgs: nat,
    msgErr: bv32, off: nat, remaining: nat,
    completed: bool,
    ops: seq<RegOp>, sent: seq<byte>, received: seq<byte>, polls: nat)

  /** msg_buf and msg_buf_remaining stay inside the current message. */
  predicate Fits(s: Dev) {
    s.cur < |s.msgs| && s.off + s.remaining == |s.msgs[s.cur].buf|
  }

  /** num_msgs counts the messages after the current one. */
  predicate Counted(s: Dev) {
    Fits(s) && s.cur + s.numMsgs + 1 == |s.msgs|
  }

  function Control(m: Msg, last: bool): bv32 {
    C_ST | C_I2CEN | (if m.read then C_READ | C_INTR else C_INIT) | (if last then C_INTD else 0)
  }

  /** i2c_demo_start_transfer */
  function AfterStart(s: Dev): Dev
    requires s.numMsgs > 0 ==> s.cur < |s.msgs|
  {
    if s.numMsgs == 0 then s
    else
      var m := s.msgs[s.cur];
      s.(numMsgs := s.numMsgs - 1, off := 0, remaining := |m.buf|,
         ops := s.ops + [Program(m.addr, |m.buf|, Control(m, s.numMsgs == 1))])
  }

  /** One byte to the FIFO, one byte from the FIFO. */
  function FillOne(s: Dev): Dev
    requires Fits(s) && s.remaining > 0
  {
    s.(polls := s.polls + 1, sent := s.sent + [s.msgs[s.cur].buf[s.off]], off := s.off + 1, remaining := s.remaining - 1)
  }

  function DrainOne(s: Dev, env: Env): Dev
    requires Fits(s) && s.remaining > 0
  {
    s.(polls := s.polls + 1, received := s.received + [env.fifo(|s.received|)], off := s.off + 1, remaining := s.remaining - 1)
  }

  /** i2c_demo_fill_txfifo */
  function AfterFill(s: Dev, env: Env): (r: Dev)
    requires Fits(s)
    ensures Fits(r) && r.msgs == s.msgs && r.cur == s.cur && r.numMsgs == s.numMsgs && r.completed == s.completed
    decreases s.remaining
  {
    if s.remaining == 0 then s
    else if !Has(env.status(s.polls), S_TXD) then s.(polls := s.polls + 1)
    else AfterFill(FillOne(s), env)
  }

  /** i2c_demo_drain_rxfifo */
  function AfterDrain(s: Dev, env: Env): (r: Dev)
    requires Fits(s)
    ensures Fits(r) && r.msgs == s.msgs && r.cur == s.cur && r.numMsgs == s.numMsgs && r.completed == s.completed
    decreases s.remaining
  {
    if s.remaining == 0 then s
    else if !Has(env.status(s.polls), S_RXD) then s.(polls := s.polls + 1)
    else AfterDrain(DrainOne(s, env), env)
  }

  /** How many status words from the given one on have the bit, max at most. */
  function Streak(env: Env, from: nat, bit: bv32, max: nat): (n: nat)
    ensures n <= max && forall k: nat | from <= k < from + n :: Has(env.status(k), bit)
    ensures n < max ==> !Has(env.status(from + n), bit)
    decreases max
  {
    if max == 0 || !Has(env.status(from), bit) then 0
    else 1 + Streak(env, from + 1, bit, max - 1)
  }

  /** The status words read by a loop that moves n of the remaining bytes. */
  function PollsFor(n: nat, remaining: nat): nat { if n < remaining then n + 1 else n }

  /** The next n bytes of the current message have gone out. */
  function Sent(s: Dev, n: nat): Dev
    requires Fits(s) && n <= s.remaining
  {
    s.(polls := s.polls + PollsFor(n, s.remaining), off := s.off + n, remaining := s.remaining - n,
       sent := s.sent + s.msgs[s.cur].buf[s.off..s.off + n])
  }

  /** The next n bytes of the FIFO have come in. */
  function Received(s: Dev, env: Env, n: nat): Dev
    requires n <= s.remaining
  {
    s.(polls := s.polls + PollsFor(n, s.remaining), off := s.off + n, remaining := s.remaining - n,
       received := s.received + FifoBytes(env, |s.received|, n))
  }

  /** n bytes of the FIFO, from the k-th on. */
  function FifoBytes(env: Env, k: nat, n: nat): (bs: seq<byte>)
    ensures |bs| == n
    decreases n
  {
    if n == 0 then [] else [env.fifo(k)] + FifoBytes(env, k + 1, n - 1)
  }

  lemma NothingMoved(s: Dev, env: Env)
    requires Fits(s)
    ensures var polls := s.polls + if s.remaining > 0 then 1 else 0;
            Sent(s, 0) == s.(polls := polls) && Received(s, env, 0) == s.(polls := polls)
  {
    assert s.sent + s.msgs[s.cur].buf[s.off..s.off] == s.sent;
    assert s.received + [] == s.received;
  }

  lemma SentOneMore(s: Dev, n: nat)
    requires Fits(s) && n < s.remaining
    ensures Sent(FillOne(s), n) == Sent(s, n + 1)
  {
    var b := s.msgs[s.cur].buf;
    assert [b[s.off]] + b[s.off + 1..s.off + 1 + n] == b[s.off..s.off + (n + 1)];
  }

  lemma ReceivedOneMore(s: Dev, env: Env, n: nat)
    requires Fits(s) && n < s.remaining
    ensures Received(DrainOne(s, env), env, n) == Received(s, env, n + 1)
  {
    var x := [env.fifo(|s.received|)];
    assert s.received + x + FifoBytes(env, |s.received| + 1, n) == s.received + (x + FifoBytes(env, |s.received| + 1, n));
  }

  /** Bytes go out for as long as the status allows. */
  lemma {:induction false} FillSends(s: Dev, env: Env)
    requires Fits(s)
    ensures AfterFill(s, env) == Sent(s, Streak(env, s.polls, S_TXD, s.remaining))
    decreases s.remaining
  {
    if s.remaining > 0 && Has(env.status(s.polls), S_TXD) {
      var f := FillOne(s);
      FillSends(f, env);
      SentOneMore(s, Streak(env, f.polls, S_TXD, f.remaining));
    } else {
      NothingMoved(s, env);
    }
  }

  lemma {:induction false} DrainReceives(s: Dev, env: Env)
    requires Fits(s)
    ensures AfterDrain(s, env) == Received(s, env, Streak(env, s.polls, S_RXD, s.remaining))
    decreases s.remaining
  {
    if s.remaining > 0 && Has(env.status(s.polls), S_RXD) {
      var d := DrainOne(s, env);
      DrainReceives(d, env);
      ReceivedOneMore(s, env, Streak(env, d.polls, S_RXD, d.remaining));
    } else {
      NothingMoved(s, env);
    }
  }

  /** Lines 351-354. */
  function Completed(s: Dev, err: bv32): Dev {
    s.(msgErr := err, completed := true, ops := s.ops + [Clear])
  }

  /** Lines 306-317: the hardware says the transfer is done. */
  function AfterDone(s: Dev, val: bv32, env: Env): Dev
    requires Fits(s)
  {
    if s.msgs[s.cur].read then
      var d := AfterDrain(s, env);
      Completed(d.(polls := d.polls + 1), if Has(env.status(d.polls), S_RXD) || d.remaining != 0 then S_LEN else 0)
    else
      Completed(s, if Has(val, S_RXD) || s.remaining != 0 then S_LEN else 0)
  }

  /** Lines 322-335: the FIFO wants bytes. */
  function AfterTxw(s: Dev, val: bv32, env: Env): (r: Dev)
    requires Counted(s)
    ensures Counted(r) && r.msgs == s.msgs
  {
    if s.remaining == 0 then Completed(s, val | S_LEN)
    else
      var f := AfterFill(s, env);
      if f.numMsgs != 0 && f.remaining == 0 then AfterStart(f.(cur := f.cur + 1)) else f
  }

  /** Lines 340-347: the FIFO has bytes. */
  function AfterRxr(s: Dev, val: bv32, env: Env): Dev
    requires Fits(s)
  {
    if s.remaining == 0 then Completed(s, val | S_LEN) else AfterDrain(s, env)
  }

  /** i2c_demo_isr */
  function AfterIsr(s0: Dev, env: Env): (r: Dev)
    requires Counted(s0)
    ensures Counted(r) && r.msgs == s0.msgs
  {
    var val := env.status(s0.polls);
    var s := s0.(polls := s0.polls + 1);
    if Has(val, S_CLKT | S_ERR) then Completed(s, val & (S_CLKT | S_ERR))
    else if Has(val, S_DONE) then AfterDone(s, val, env)
    else if Has(val, S_TXW) then AfterTxw(s, val, env)
    else if Has(val, S_RXR) then AfterRxr(s, val, env)
    else s
  }

  // ---------- the driver, changing its fields ----------

  class I2cDev {
    var msgs: seq<Msg>
    var cur: nat
    var numMsgs: nat
    var msgErr: bv32
    var off: nat
    var remaining: nat
    var completed: bool
    var ops: seq<RegOp>
    var sent: seq<byte>
    var received: seq<byte>
    var polls: nat

    function State(): Dev reads this {
      Dev(msgs, cur, numMsgs, msgErr, off, remaining, completed, ops, sent, received, polls)
    }

    method StartTransfer()
      requires numMsgs > 0 ==> cur < |msgs|
      modifies this
      ensures State() == AfterStart(old(State()))
    {
      var c := C_ST | C_I2CEN;
      var lastMsg := numMsgs == 1;
      if numMsgs == 0 {
        return;
      }
      var msg := msgs[cur];
      numMsgs := numMsgs - 1;
      off, remaining := 0, |msg.buf|;
      if msg.read {
        c := c | (C_READ | C_INTR);
      } else {
        c := c | C_INIT;
      }
      if lastMsg {
        c := c | C_INTD;
      }
      ops := ops + [Program(msg.addr, |msg.buf|, c)];
    }

    method FillTxfifo(env: Env)
      requires Fits(State())
      modifies this
      ensures State() == AfterFill(old(State()), env)
      ensures State() == Sent(old(State()), Streak(env, old(polls), S_TXD, old(remaining)))
    {
      FillSends(State(), env);
      while remaining != 0
        invariant Fits(State()) && AfterFill(State(), env) == AfterFill(old(State()), env)
        decreases remaining
      {
        ghost var was := State();
        var val := env.status(polls);
        polls := polls + 1;
        if !Has(val, S_TXD) {
          return;
        }
        sent := sent + [msgs[cur].buf[off]];
        off, remaining := off + 1, remaining - 1;
        assert State() == FillOne(was);
      }
    }

    method DrainRxfifo(env: Env)
      requires Fits(State())
      modifies this
      ensures State() == AfterDrain(old(State()), env)
      ensures State() == Received(old(State()), env, Streak(env, old(polls), S_RXD, old(remaining)))
    {
      DrainReceives(State(), env);
      while remaining != 0
        invariant Fits(State()) && AfterDrain(State(), env) == AfterDrain(old(State()), env)
        decreases remaining
      {
        ghost var was := State();
        var val := env.status(polls);
        polls := polls + 1;
        if !Has(val, S_RXD) {
          return;
        }
        received := received + [env.fifo(|received|)];
        off, remaining := off + 1, remaining - 1;
        assert State() == DrainOne(was, env);
      }
    }

    method Complete(err: bv32)
      modifies this
      ensures State() == Completed(old(State()), err)
    {
      msgErr := err;
      ops := ops + [Clear];
      completed := true;
    }

    method OnDone(status: bv32, env: Env)
      requires Fits(State())
      modifies this
      ensures State() == AfterDone(old(State()), status, env)
    {
      var val := status;
      if msgs[cur].read {
        DrainRxfifo(env);
        val := env.status(polls);
        polls := polls + 1;
      }
      if Has(val, S_RXD) || remaining != 0 {
        Complete(S_LEN);
      } else {
        Complete(0);
      }
    }

    method OnTxw(val: bv32, env: Env)
      requires Counted(State())
      modifies this
      ensures State() == AfterTxw(old(State()), val, env)
    {
      if remaining == 0 {
        Complete(val | S_LEN);
        return;
      }
      FillTxfifo(env);
      if numMsgs != 0 && remaining == 0 {
        cur := cur + 1;
        StartTransfer();
      }
    }

    method OnRxr(val: bv32, env: Env)
      requires Fits(State())
      modifies this
      ensures State() == AfterRxr(old(State()), val, env)
    {
      if remaining == 0 {
        Complete(val | S_LEN);
        return;
      }
      DrainRxfifo(env);
    }

    method Isr(env: Env)
      requires Counted(State())
      modifies this
      ensures State() == AfterIsr(old(State()), env)
    {
      var val := env.status(polls);
      polls := polls + 1;
      var err := val & (S_CLKT | S_ERR);
      if err != 0 {
        Complete(err);
      } else if Has(val, S_DONE) {
        OnDone(val, env);
      } else if Has(val, S_TXW) {
        OnTxw(val, env);
      } else if Has(val, S_RXR) {
        OnRxr(val, env);
      }
    }
  
    /** Lines 261-268: a read message before the last one is not supported. */
    method CheckReads(newMsgs: seq<Msg>) returns (early: bool)
      ensures early <==> EarlyRead(newMsgs)
    {
      var i := 0;
      while i < |newMsgs| - 1
        invariant 0 <= i && (i == 0 || i <= |newMsgs| - 1)
        invariant forall j | 0 <= j < i :: !newMsgs[j].read
      {
        if newMsgs[i].read {
          return true;
        }
        i := i + 1;
      }
      return false;
    }

    /** The wait before line 275: the given number of interrupts come, or fewer if the transfer
        completes before. */
    method Wait(env: Env, interrupts: nat)
      requires Counted(State())
      modifies this
      ensures State() == Run(old(State()), env, interrupts)
    {
      var k := 0;
      while k < interrupts && !completed
        invariant 0 <= k <= interrupts && Counted(State())
        invariant State() == Run(old(State()), env, k)
      {
        Isr(env);
        k := k + 1;
      }
      RunStops(old(State()), env, k, interrupts);
    }

    /** i2c_demo_xfer. An empty list starts nothing on the bus, so no interrupt comes and the wait runs out. */
    method Xfer(newMsgs: seq<Msg>, env: Env, interrupts: nat) returns (ret: int)
      requires newMsgs == [] ==> interrupts == 0
      modifies this
      ensures EarlyRead(newMsgs) ==> ret == -EOPNOTSUPP && State() == old(State())
      ensures ret == -EOPNOTSUPP <==> exists i :: 0 <= i < |newMsgs| - 1 && newMsgs[i].read
      ensures newMsgs == [] ==> ret == -ETIMEDOUT && ops == [Clear] && sent == [] && received == []
      ensures !EarlyRead(newMsgs) && newMsgs != [] ==>
                var s := Run(Begin(old(State()), newMsgs), env, interrupts);
                ret == Result(s) && State() == if s.completed then s else s.(ops := s.ops + [Clear])
      ensures !EarlyRead(newMsgs) && newMsgs != [] ==>
                (ret == -ETIMEDOUT <==> !Run(Begin(old(State()), newMsgs), env, interrupts).completed)
    {
      var early := CheckReads(newMsgs);
      if early {
        return -EOPNOTSUPP;
      }
      ghost var before := State();
      var num := |newMsgs|;
      msgs, cur, numMsgs := newMsgs, 0, num;
      completed := false;
      ops, sent, received := [], [], [];  // the records of a transfer begin with it
      StartTransfer();
      assert newMsgs != [] ==> State() == Begin(before, newMsgs);
      if interrupts > 0 {
        Wait(env, interrupts);
      }
      if !completed {
        ops := ops + [Clear];
        return -ETIMEDOUT;
      }
      if msgErr == 0 {
        return num;
      }
      if msgErr & S_ERR != 0 {
        return -EREMOTEIO;
      }
      return -EIO;
    }
  }

  // ---------- whole transfers ----------

  predicate EarlyRead(msgs: seq<Msg>) {
    exists i | 0 <= i < |msgs| - 1 :: msgs[i].read
  }

  /** The state right after the first message has been programmed. */
  function Begin(s: Dev, msgs: seq<Msg>): (r: Dev)
    requires |msgs| >= 1
    ensures Counted(r) && r.msgs == msgs
  {
    AfterStart(s.(msgs := msgs, cur := 0, numMsgs := |msgs|, completed := false, ops := [], sent := [], received := []))
  }

  /** The state after n interrupts, none of them after completion. */
  function Run(s: Dev, env: Env, n: nat): (r: Dev)
    requires Counted(s)
    ensures Counted(r) && r.msgs == s.msgs
  {
    if n == 0 then s
    else
      var r := Run(s, env, n - 1);
      if r.completed then r else AfterIsr(r, env)
  }

  lemma {:induction false} RunStops(s: Dev, env: Env, k: nat, n: nat)
    requires Counted(s) && k <= n && (k == n || Run(s, env, k).completed)
    ensures Run(s, env, n) == Run(s, env, k)
    decreases n
  {
    if k < n { RunStops(s, env, k, n - 1); }
  }

  /** The value i2c_demo_xfer returns when the wait has ended in s. */
  function Result(s: Dev): int {
    if !s.completed then -ETIMEDOUT
    else if s.msgErr == 0 then |s.msgs|
    else if Has(s.msgErr, S_ERR) then -EREMOTEIO
    else -EIO
  }

  /** What the status word says fits the direction of the current message. */
  predicate Allowed(s: Dev, env: Env)
    requires Fits(s)
  {
    var val := env.status(s.polls);
    && (Has(val, S_TXW) ==> !s.msgs[s.cur].read)
    && (Has(val, S_RXR) || Has(val, S_RXD) ==> s.msgs[s.cur].read)
  }

  /** The status word at the start of each of the first n interrupts is such a one. */
  ghost predicate HardwareOk(s: Dev, env: Env, n: nat)
    requires Counted(s)
  {
    n == 0 || (HardwareOk(s, env, n - 1) && (Run(s, env, n - 1).completed || Allowed(Run(s, env, n - 1), env)))
  }

  /** The programming of the first k messages. */
  function Programs(msgs: seq<Msg>, k: nat): (p: seq<RegOp>)
    requires k <= |msgs|
    ensures |p| == k
  {
    if k == 0 then []
    else
      var m := msgs[k - 1];
      Programs(msgs, k - 1) + [Program(m.addr, |m.buf|, Control(m, k == |msgs|))]
  }

  /** The bytes of the write messages among the first k. */
  function WriteBytes(msgs: seq<Msg>, k: nat): seq<byte>
    requires k <= |msgs|
  {
    if k == 0 then [] else WriteBytes(msgs, k - 1) + if msgs[k - 1].read then [] else msgs[k - 1].buf
  }

  // ---------- what every interrupt keeps ----------

  /** Each message was programmed once, in order; what has crossed is a beginning of what should. */
  ghost predicate Inv(s: Dev, env: Env) {
    && Counted(s) && !EarlyRead(s.msgs)
    && s.ops == Programs(s.msgs, s.cur + 1) + (if s.completed then [Clear] else [])
    && s.sent == WriteBytes(s.msgs, s.cur) + (if s.msgs[s.cur].read then [] else s.msgs[s.cur].buf[..s.off])
    && |s.received| == (if s.msgs[s.cur].read then s.off else 0)
    && forall k | 0 <= k < |s.received| :: s.received[k] == env.fifo(k)
  }

  lemma {:induction false} FillEffect(s: Dev, env: Env)
    requires Fits(s)
    ensures var r := AfterFill(s, env);
            && s.off <= r.off
            && r == s.(polls := r.polls, off := r.off, remaining := r.remaining,
                       sent := s.sent + s.msgs[s.cur].buf[s.off..r.off])
    decreases s.remaining
  {
    if s.remaining > 0 && Has(env.status(s.polls), S_TXD) {
      FillEffect(FillOne(s), env);
      var r := AfterFill(s, env);
      var b := s.msgs[s.cur].buf;
      assert [b[s.off]] + b[s.off + 1..r.off] == b[s.off..r.off];
    }
  }

  lemma {:induction false} DrainEffect(s: Dev, env: Env)
    requires Fits(s) && forall k | 0 <= k < |s.received| :: s.received[k] == env.fifo(k)
    ensures var r := AfterDrain(s, env);
            && r == s.(polls := r.polls, off := r.off, remaining := r.remaining, received := r.received)
            && |r.received| - |s.received| == r.off - s.off
            && forall k | 0 <= k < |r.received| :: r.received[k] == env.fifo(k)
    decreases s.remaining
  {
    if s.remaining > 0 && Has(env.status(s.polls), S_RXD) {
      DrainEffect(DrainOne(s, env), env);
    }
  }

  lemma FillKeeps(s: Dev, env: Env)
    requires Inv(s, env) && !s.completed && !s.msgs[s.cur].read
    ensures Inv(AfterFill(s, env), env) && !AfterFill(s, env).completed
  {
    FillEffect(s, env);
    var f := AfterFill(s, env);
    SentGrows(WriteBytes(s.msgs, s.cur), s.msgs[s.cur].buf, s.off, f.off);
  }

  lemma SentGrows(w: seq<byte>, b: seq<byte>, i: nat, j: nat)
    requires i <= j <= |b|
    ensures w + b[..i] + b[i..j] == w + b[..j]
  {
    assert b[..i] + b[i..j] == b[..j];
  }

  lemma StartKeeps(s: Dev, env: Env)
    requires Inv(s, env) && !s.completed && !s.msgs[s.cur].read && s.numMsgs != 0 && s.remaining == 0
    ensures Inv(AfterStart(s.(cur := s.cur + 1)), env)
  {
    var b, r := s.msgs[s.cur].buf, AfterStart(s.(cur := s.cur + 1));
    assert b[..s.off] == b;
    assert r.sent == WriteBytes(s.msgs, s.cur + 1) && s.msgs[s.cur + 1].buf[..0] == [];
    assert r.ops == Programs(s.msgs, s.cur + 2);
  }

  lemma TxwKeeps(s: Dev, val: bv32, env: Env)
    requires Inv(s, env) && !s.completed && !s.msgs[s.cur].read
    ensures Inv(AfterTxw(s, val, env), env)
  {
    if s.remaining > 0 {
      FillKeeps(s, env);
      var f := AfterFill(s, env);
      if f.numMsgs != 0 && f.remaining == 0 { StartKeeps(f, env); }
    }
  }

  lemma DoneKeeps(s: Dev, val: bv32, env: Env)
    requires Inv(s, env) && !s.completed
    ensures Inv(AfterDone(s, val, env), env)
  {
    DrainEffect(s, env);
  }

  lemma RxrKeeps(s: Dev, val: bv32, env: Env)
    requires Inv(s, env) && !s.completed && s.msgs[s.cur].read
    ensures Inv(AfterRxr(s, val, env), env)
  {
    DrainEffect(s, env);
  }

  lemma IsrKeeps(s: Dev, env: Env)
    requires Inv(s, env) && !s.completed && Allowed(s, env)
    ensures Inv(AfterIsr(s, env), env)
  {
    var s1 := s.(polls := s.polls + 1);
    var val := env.status(s.polls);
    assert Inv(s1, env);
    if Has(val, S_CLKT | S_ERR) {
    } else if Has(val, S_DONE) {
      DoneKeeps(s1, val, env);
    } else if Has(val, S_TXW) {
      TxwKeeps(s1, val, env);
    } else if Has(val, S_RXR) {
      RxrKeeps(s1, val, env);
    }
  }

  lemma BeginInv(s: Dev, msgs: seq<Msg>, env: Env)
    requires |msgs| >= 1 && !EarlyRead(msgs)
    ensures Inv(Begin(s, msgs), env)
  {
    assert Programs(msgs, 1) == [Program(msgs[0].addr, |msgs[0].buf|, Control(msgs[0], 1 == |msgs|))];
  }

  lemma {:induction false} RunInv(s: Dev, env: Env, n: nat)
    requires Inv(s, env) && HardwareOk(s, env, n)
    ensures Inv(Run(s, env, n), env)
  {
    if n > 0 {
      RunInv(s, env, n - 1);
      var r := Run(s, env, n - 1);
      if !r.completed { IsrKeeps(r, env); }
    }
  }

  /** Over every run: the messages are programmed in order, each at most once; the consumed and the
      remaining bytes make up the current message. */
  lemma ProgrammingInOrder(s: Dev, msgs: seq<Msg>, env: Env, n: nat)
    requires |msgs| >= 1 && !EarlyRead(msgs) && HardwareOk(Begin(s, msgs), env, n)
    ensures var r := Run(Begin(s, msgs), env, n);
            && r.cur < |msgs| && r.off + r.remaining == |msgs[r.cur].buf|
            && r.ops == Programs(msgs, r.cur + 1) + (if r.completed then [Clear] else [])
            && Programs(msgs, r.cur + 1) <= Programs(msgs, |msgs|)
  {
    BeginInv(s, msgs, env);
    RunInv(Begin(s, msgs), env, n);
    ProgramsPrefix(msgs, Run(Begin(s, msgs), env, n).cur + 1, |msgs|);
  }

  lemma {:induction false} ProgramsPrefix(msgs: seq<Msg>, j: nat, k: nat)
    requires j <= k <= |msgs|
    ensures Programs(msgs, j) <= Programs(msgs, k)
    decreases k
  {
    if j < k { ProgramsPrefix(msgs, j, k - 1); }
  }

  /** The end-of-transfer interrupt is asked for with the last message and with no other. */
  lemma {:induction false} OnlyLastAsksDone(msgs: seq<Msg>, k: nat, j: nat)
    requires j < k <= |msgs|
    ensures Programs(msgs, k)[j] == Program(msgs[j].addr, |msgs[j].buf|, Control(msgs[j], j == |msgs| - 1))
    ensures Has(Programs(msgs, k)[j].c, C_INTD) <==> j == |msgs| - 1
    decreases k
  {
    if j < k - 1 { OnlyLastAsksDone(msgs, k - 1, j); }
  }

  // ---------- what a reported success means ----------

  predicate Succeeded(s: Dev) { s.completed && s.msgErr == 0 }

  /** Every message was programmed, every byte to be written went out, once and in order, and the read
      message at the end, if there is one, was filled with what came in, in order. */
  ghost predicate AllCrossed(s: Dev, env: Env) {
    && |s.msgs| >= 1
    && s.ops == Programs(s.msgs, |s.msgs|) + [Clear]
    && s.sent == WriteBytes(s.msgs, |s.msgs|)
    && |s.received| == (if s.msgs[|s.msgs| - 1].read then |s.msgs[|s.msgs| - 1].buf| else 0)
    && forall k | 0 <= k < |s.received| :: s.received[k] == env.fifo(k)
  }

  /** Only the last message may be empty. */
  predicate NonEmptyBeforeLast(msgs: seq<Msg>) {
    forall i | 0 <= i < |msgs| - 1 :: msgs[i].buf != []
  }

  /** While messages are waiting the current one is not used up; success is reported only when it is. */
  ghost predicate Busy(s: Dev) {
    (s.numMsgs > 0 ==> s.remaining > 0) && (Succeeded(s) ==> s.remaining == 0)
  }

  lemma LenIsError(val: bv32)
    ensures val | S_LEN != 0
    ensures !Has(val, S_CLKT | S_ERR) ==> !Has(val | S_LEN, S_ERR)
  {
  }

  lemma TxwKeepsBusy(s: Dev, val: bv32, env: Env)
    requires Inv(s, env) && Busy(s) && !s.completed && NonEmptyBeforeLast(s.msgs)
    ensures Busy(AfterTxw(s, val, env))
  {
    LenIsError(val);
    FillEffect(s, env);
  }

  lemma IsrKeepsBusy(s: Dev, env: Env)
    requires Inv(s, env) && Busy(s) && !s.completed && Allowed(s, env) && NonEmptyBeforeLast(s.msgs)
    ensures Busy(AfterIsr(s, env))
  {
    var s1 := s.(polls := s.polls + 1);
    var val := env.status(s.polls);
    LenIsError(val);
    if Has(val, S_CLKT | S_ERR) {
    } else if Has(val, S_DONE) {
      DrainEffect(s1, env);
    } else if Has(val, S_TXW) {
      TxwKeepsBusy(s1, val, env);
    } else if Has(val, S_RXR) {
      DrainEffect(s1, env);
    }
  }

  lemma NextBusy(s: Dev, env: Env)
    requires Inv(s, env) && Busy(s) && NonEmptyBeforeLast(s.msgs) && (s.completed || Allowed(s, env))
    ensures Busy(if s.completed then s else AfterIsr(s, env))
  {
    if !s.completed { IsrKeepsBusy(s, env); }
  }

  lemma {:induction false} RunBusy(s: Dev, env: Env, n: nat) returns (r: Dev)
    requires Inv(s, env) && Busy(s) && NonEmptyBeforeLast(s.msgs) && HardwareOk(s, env, n)
    ensures r == Run(s, env, n) && Inv(r, env) && Busy(r) && r.msgs == s.msgs
    decreases n
  {
    if n == 0 {
      r := s;
    } else {
      var q := RunBusy(s, env, n - 1);
      NextBusy(q, env);
      r := if q.completed then q else AfterIsr(q, env);
      if !q.completed { IsrKeeps(q, env); }
    }
  }

  lemma SuccessMeansCrossed(s: Dev, msgs: seq<Msg>, env: Env, n: nat)
    requires |msgs| >= 1 && !EarlyRead(msgs) && NonEmptyBeforeLast(msgs)
    requires HardwareOk(Begin(s, msgs), env, n) && Succeeded(Run(Begin(s, msgs), env, n))
    ensures AllCrossed(Run(Begin(s, msgs), env, n), env)
  {
    var s0 := Begin(s, msgs);
    BeginInv(s, msgs, env);
    var r := RunBusy(s0, env, n);
    assert msgs[r.cur].buf[..r.off] == msgs[r.cur].buf;
  }

  // With an empty message before the last one, a DONE interrupt at that point reports success.

  /** The status words read while the first k messages are sent without a pause. */
  function Polls(msgs: seq<Msg>, k: nat): nat
    requires k <= |msgs|
  {
    if k == 0 then 0 else Polls(msgs, k - 1) + 1 + |msgs[k - 1].buf|
  }

  lemma {:induction false} PollsMonotone(msgs: seq<Msg>, j: nat, k: nat)
    requires j <= k <= |msgs|
    ensures Polls(msgs, j) <= Polls(msgs, k)
    decreases k
  {
    if j < k { PollsMonotone(msgs, j, k - 1); }
  }

  /** The FIFO takes everything for the first p words; then the hardware says done. */
  ghost predicate Eager(env: Env, p: nat) {
    forall k: nat | k < p :: env.status(k) == S_TXW | S_TXD
  }

  ghost predicate EagerThenDone(env: Env, p: nat) {
    Eager(env, p) && env.status(p) == S_DONE
  }

  lemma EagerWords()
    ensures var val := S_TXW | S_TXD;
            && !Has(val, S_CLKT | S_ERR) && !Has(val, S_RXR) && !Has(val, S_RXD)
            && Has(val, S_TXW) && Has(val, S_TXD) && !Has(val, S_DONE)
    ensures var val := S_DONE;
            && !Has(val, S_CLKT | S_ERR) && !Has(val, S_RXR) && !Has(val, S_RXD)
            && Has(val, S_DONE) && !Has(val, S_TXW)
  {
  }

  lemma {:induction false} EagerFill(s: Dev, env: Env, p: nat)
    requires Eager(env, p) && Fits(s) && s.polls + s.remaining <= p
    ensures var r := AfterFill(s, env); r.remaining == 0 && r.polls == s.polls + s.remaining
    decreases s.remaining
  {
    if s.remaining > 0 {
      EagerWords();
      EagerFill(FillOne(s), env, p);
    }
  }

  lemma EagerTxw(s: Dev, env: Env, p: nat)
    requires Eager(env, p)
    requires Counted(s) && s.numMsgs > 0 && s.remaining > 0 && s.polls + s.remaining <= p
    ensures var r := AfterTxw(s, S_TXW | S_TXD, env);
            && r.cur == s.cur + 1 && r.remaining == |r.msgs[r.cur].buf| && r.completed == s.completed
            && r.polls == s.polls + s.remaining
  {
    EagerFill(s, env, p);
  }

  lemma IsrOnEagerWord(s: Dev, env: Env)
    requires Counted(s) && env.status(s.polls) == S_TXW | S_TXD
    ensures AfterIsr(s, env) == AfterTxw(s.(polls := s.polls + 1), S_TXW | S_TXD, env)
    ensures Allowed(s, env) <==> !s.msgs[s.cur].read
  {
    EagerWords();
  }

  lemma IsrOnDone(s: Dev, env: Env)
    requires Counted(s) && s.remaining == 0 && !s.msgs[s.cur].read && env.status(s.polls) == S_DONE
    ensures AfterIsr(s, env) == Completed(s.(polls := s.polls + 1), 0) && Allowed(s, env)
  {
    EagerWords();
  }

  /** Message j has just been programmed, nothing of it sent. */
  ghost predicate Reached(p0: nat, s: Dev, j: nat) {
    && Counted(s) && s.cur == j && s.remaining == |s.msgs[j].buf| && !s.completed
    && s.polls == p0 + Polls(s.msgs, j)
  }

  lemma EagerIsr(p0: nat, s: Dev, j: nat, i: nat, env: Env, p: nat)
    requires 0 < j <= i < |s.msgs| && Reached(p0, s, j - 1) && !EarlyRead(s.msgs) && s.msgs[j - 1].buf != []
    requires Eager(env, p) && p >= p0 + Polls(s.msgs, i)
    ensures Allowed(s, env) && Reached(p0, AfterIsr(s, env), j)
  {
    PollsMonotone(s.msgs, j, i);
    IsrOnEagerWord(s, env);
    EagerTxw(s.(polls := s.polls + 1), env, p);
  }

  /** r comes after n interrupts, all of them as the hardware may raise them. */
  ghost predicate Follows(s0: Dev, env: Env, n: nat, r: Dev)
    decreases n
  {
    if n == 0 then r == s0 else exists q :: Follows(s0, env, n - 1, q) && NextIsr(q, env, r)
  }

  ghost predicate NextIsr(q: Dev, env: Env, r: Dev) {
    Counted(q) && !q.completed && Allowed(q, env) && r == AfterIsr(q, env)
  }

  lemma {:induction false} FollowsRun(s0: Dev, env: Env, n: nat, r: Dev)
    requires Counted(s0) && Follows(s0, env, n, r)
    ensures HardwareOk(s0, env, n) && r == Run(s0, env, n)
  {
    if n > 0 {
      var q :| Follows(s0, env, n - 1, q) && NextIsr(q, env, r);
      FollowsRun(s0, env, n - 1, q);
    }
  }

  lemma FollowsOn(s0: Dev, env: Env, n: nat, q: Dev, r: Dev)
    requires n > 0 && Follows(s0, env, n - 1, q) && NextIsr(q, env, r)
    ensures Follows(s0, env, n, r)
  {
  }

  lemma EagerNext(s0: Dev, i: nat, j: nat, env: Env, p: nat, q: Dev) returns (r: Dev)
    requires j > 0 && Follows(s0, env, j - 1, q) && Reached(s0.polls, q, j - 1) && q.msgs == s0.msgs
    requires j <= i < |s0.msgs| && !EarlyRead(s0.msgs) && s0.msgs[j - 1].buf != []
    requires Eager(env, p) && p >= s0.polls + Polls(s0.msgs, i)
    ensures Follows(s0, env, j, r) && Reached(s0.polls, r, j) && r.msgs == s0.msgs
  {
    r := AfterIsr(q, env);
    EagerIsr(s0.polls, q, j, i, env, p);
    FollowsOn(s0, env, j, q, r);
  }

  lemma EagerRun(s0: Dev, i: nat, env: Env, p: nat) returns (r: Dev)
    requires Reached(s0.polls, s0, 0) && i < |s0.msgs| && !EarlyRead(s0.msgs)
    requires forall k | 0 <= k < i :: s0.msgs[k].buf != []
    requires Eager(env, p) && p >= s0.polls + Polls(s0.msgs, i)
    ensures Follows(s0, env, i, r) && Reached(s0.polls, r, i) && r.msgs == s0.msgs
  {
    r := s0;
    for j := 0 to i
      invariant Follows(s0, env, j, r) && Reached(s0.polls, r, j) && r.msgs == s0.msgs
    {
      r := EagerNext(s0, i, j + 1, env, p, r);
    }
  }

  lemma FirstEmpty(msgs: seq<Msg>) returns (i: nat)
    requires !NonEmptyBeforeLast(msgs)
    ensures i < |msgs| - 1 && msgs[i].buf == [] && forall k | 0 <= k < i :: msgs[k].buf != []
  {
    i := 0;
    while msgs[i].buf != []
      invariant i < |msgs| - 1 && forall k | 0 <= k < i :: msgs[k].buf != []
      decreases |msgs| - i
    {
      i := i + 1;
    }
  }

  lemma EmptyMessageSkipsRest(s: Dev, msgs: seq<Msg>) returns (env: Env, n: nat)
    requires |msgs| >= 1 && !EarlyRead(msgs) && !NonEmptyBeforeLast(msgs)
    ensures HardwareOk(Begin(s, msgs), env, n) && Succeeded(Run(Begin(s, msgs), env, n))
    ensures !AllCrossed(Run(Begin(s, msgs), env, n), env)
  {
    var s0 := Begin(s, msgs);
    var i := FirstEmpty(msgs);
    var p := s0.polls + Polls(msgs, i);
    env := Env((k: nat) => if k < p then S_TXW | S_TXD else S_DONE, _ => 0);
    n := i + 1;
    BeginInv(s, msgs, env);
    var r := EagerRun(s0, i, env, p);
    var r' := SkipsRest(s0, n, env, r);
    FollowsRun(s0, env, n, r');
  }

  lemma {:induction false} FollowsInv(s0: Dev, env: Env, n: nat, r: Dev)
    requires Inv(s0, env) && Follows(s0, env, n, r)
    ensures Inv(r, env)
  {
    if n > 0 {
      var q :| Follows(s0, env, n - 1, q) && NextIsr(q, env, r);
      FollowsInv(s0, env, n - 1, q);
      IsrKeeps(q, env);
    }
  }

  lemma SkipsRest(s0: Dev, n: nat, env: Env, q: Dev) returns (r: Dev)
    requires n > 0 && Inv(s0, env) && Follows(s0, env, n - 1, q)
    requires Counted(q) && q.numMsgs > 0 && !q.completed && q.remaining == 0 && env.status(q.polls) == S_DONE
    ensures Follows(s0, env, n, r) && Succeeded(r) && !AllCrossed(r, env)
  {
    FollowsInv(s0, env, n - 1, q);
    IsrOnDone(q, env);
    MissesPrograms(q, env);
    r := AfterIsr(q, env);
    FollowsOn(s0, env, n, q, r);
  }

  lemma MissesPrograms(s: Dev, env: Env)
    requires Inv(s, env) && s.numMsgs > 0 && !s.completed
    ensures !AllCrossed(Completed(s.(polls := s.polls + 1), 0), env)
  {
    assert |s.ops + [Clear]| == s.cur + 2 < |s.msgs| + 1;
  }

  /** Success means that everything crossed, for all behaviours of the hardware, exactly when no message
      before the last one is empty. */
  lemma SuccessExactly(s: Dev, msgs: seq<Msg>)
    requires |msgs| >= 1 && !EarlyRead(msgs)
    ensures NonEmptyBeforeLast(msgs) <==>
            forall env: Env, n: nat |
              HardwareOk(Begin(s, msgs), env, n) && Succeeded(Run(Begin(s, msgs), env, n)) ::
              AllCrossed(Run(Begin(s, msgs), env, n), env)
  {
    if NonEmptyBeforeLast(msgs) {
      forall env: Env, n: nat | HardwareOk(Begin(s, msgs), env, n) && Succeeded(Run(Begin(s, msgs), env, n))
        ensures AllCrossed(Run(Begin(s, msgs), env, n), env)
      {
        SuccessMeansCrossed(s, msgs, env, n);
      }
    } else {
      var env, n := EmptyMessageSkipsRest(s, msgs);
    }
  }

  lemma IsrErrorBit(s: Dev, env: Env)
    requires Counted(s) && !s.completed
    ensures var r := AfterIsr(s, env); (r.completed && Has(r.msgErr, S_ERR)) <==> Has(env.status(s.polls), S_ERR)
  {
    var val := env.status(s.polls);
    LenIsError(val);
    ErrBits(val);
    if !Has(val, S_CLKT | S_ERR) {
      assert !Has(val, S_ERR);
    }
  }

  /** The first k interrupts leave the transfer going on, and the next one reads a status word with ERR. */
  predicate MeetsError(s: Dev, env: Env, k: nat)
    requires Counted(s)
  {
    var r := Run(s, env, k);
    !r.completed && Has(env.status(r.polls), S_ERR)
  }

  /** The transfer returns -EREMOTEIO exactly if one of its interrupts reads a status word with ERR. */
  lemma {:induction false} ErrorKind(s: Dev, env: Env, n: nat)
    requires Counted(s) && !s.completed
    ensures Result(Run(s, env, n)) == -EREMOTEIO <==> exists k: nat :: k < n && MeetsError(s, env, k)
    decreases n
  {
    if n > 0 {
      var r := Run(s, env, n - 1);
      ErrorKind(s, env, n - 1);
      if r.completed {
        assert !MeetsError(s, env, n - 1);
      } else {
        IsrErrorBit(r, env);
        assert MeetsError(s, env, n - 1) <==> Has(env.status(r.polls), S_ERR);
        assert Run(s, env, n) == AfterIsr(r, env);
      }
    }
  }

  lemma ErrBits(val: bv32)
    ensures Has(val, S_ERR) ==> Has(val, S_CLKT | S_ERR)
    ensures Has(val & (S_CLKT | S_ERR), S_ERR) <==> Has(val, S_ERR)
    ensures !Has(S_LEN, S_ERR) && !Has(0, S_ERR)
  {
  }

  // ---------- one interrupt, by its status word ----------

  /** The word announces an error: the transfer ends, whatever else the word says. */
  lemma IsrOnError(s: Dev, env: Env)
    requires Counted(s)
    requires Has(env.status(s.polls), S_CLKT) || Has(env.status(s.polls), S_ERR)
    ensures var r := AfterIsr(s, env);
            && r == s.(polls := s.polls + 1, completed := true, msgErr := r.msgErr, ops := s.ops + [Clear])
            && (Has(r.msgErr, S_CLKT) <==> Has(env.status(s.polls), S_CLKT))
            && (Has(r.msgErr, S_ERR) <==> Has(env.status(s.polls), S_ERR))
            && Result(r) == if Has(env.status(s.polls), S_ERR) then -EREMOTEIO else -EIO
  {
    ErrorWord(env.status(s.polls));
  }

  lemma ErrorWord(val: bv32)
    ensures Has(val, S_CLKT | S_ERR) <==> Has(val, S_CLKT) || Has(val, S_ERR)
    ensures var e := val & (S_CLKT | S_ERR);
            (Has(e, S_CLKT) <==> Has(val, S_CLKT)) && (Has(e, S_ERR) <==> Has(val, S_ERR)) && (e != 0 <==> Has(val, S_CLKT | S_ERR))
  {
  }

  predicate NoError(val: bv32) { !Has(val, S_CLKT) && !Has(val, S_ERR) }

  /** DONE in a read message: the bytes in the FIFO are taken, and all is well exactly if they were as
      many as wanted and no more are there. */
  lemma IsrOnReadDone(s: Dev, env: Env)
    requires Counted(s) && s.msgs[s.cur].read
    requires NoError(env.status(s.polls)) && Has(env.status(s.polls), S_DONE)
    ensures var r := AfterIsr(s, env);
            var n := Streak(env, s.polls + 1, S_RXD, s.remaining);
            var last := s.polls + 1 + PollsFor(n, s.remaining);
            var good := n == s.remaining && !Has(env.status(last), S_RXD);
            && r == s.(polls := last + 1, off := s.off + n, remaining := s.remaining - n,
                       received := s.received + FifoBytes(env, |s.received|, n),
                       completed := true, msgErr := if good then 0 else S_LEN, ops := s.ops + [Clear])
            && Result(r) == if good then |s.msgs| else -EIO
  {
    var val := env.status(s.polls);
    var s1 := s.(polls := s.polls + 1);
    ErrorWord(val);
    DrainReceives(s1, env);
    assert AfterIsr(s, env) == AfterDone(s1, val, env);
  }

  /** DONE in a write message: all is well exactly if everything has been sent and nothing was received. */
  lemma IsrOnWriteDone(s: Dev, env: Env)
    requires Counted(s) && !s.msgs[s.cur].read
    requires NoError(env.status(s.polls)) && Has(env.status(s.polls), S_DONE)
    ensures var r := AfterIsr(s, env);
            var good := s.remaining == 0 && !Has(env.status(s.polls), S_RXD);
            && r == s.(polls := s.polls + 1, completed := true, msgErr := if good then 0 else S_LEN, ops := s.ops + [Clear])
            && Result(r) == if good then |s.msgs| else -EIO
  {
    ErrorWord(env.status(s.polls));
  }

  /** The record of a message: its address, its length, its direction, and whether it is the last one. */
  predicate RightRecord(op: RegOp, m: Msg, last: bool) {
    && op.Program? && op.addr == m.addr && op.len == |m.buf|
    && (Has(op.c, C_READ) <==> m.read) && (Has(op.c, C_INTR) <==> m.read) && (Has(op.c, C_INIT) <==> !m.read)
    && Has(op.c, C_ST) && Has(op.c, C_I2CEN)
    && (Has(op.c, C_INTD) <==> last)
    && op.c == if m.read then (if last then 0x8581 else 0x8481) else (if last then 0x8380 else 0x8280)
  }

  lemma ControlRight(m: Msg, last: bool)
    ensures RightRecord(Program(m.addr, |m.buf|, Control(m, last)), m, last)
  {
  }

  /** The word wants bytes, and nothing comes before that. */
  predicate WantsBytes(val: bv32) { NoError(val) && !Has(val, S_DONE) && Has(val, S_TXW) }

  /** TXW with nothing left to send is an error. */
  lemma IsrOnTxwTooMany(s: Dev, env: Env)
    requires Counted(s) && WantsBytes(env.status(s.polls)) && s.remaining == 0
    ensures var r := AfterIsr(s, env);
            && r == s.(polls := s.polls + 1, completed := true, msgErr := r.msgErr, ops := s.ops + [Clear])
            && Result(r) == -EIO
  {
    ErrorWord(env.status(s.polls));
    LenIsError(env.status(s.polls));
  }

  /** TXW: bytes go out, and the next message is started if this one is used up and one is waiting. */
  lemma IsrOnTxw(s: Dev, env: Env)
    requires Counted(s) && WantsBytes(env.status(s.polls)) && s.remaining > 0
    ensures var r := AfterIsr(s, env);
            var s1 := s.(polls := s.polls + 1);
            var n := Streak(env, s1.polls, S_TXD, s.remaining);
            if n < s.remaining || s.numMsgs == 0 then r == Sent(s1, n) else NextStarted(Sent(s1, n), r)
  {
    ErrorWord(env.status(s.polls));
    var s1 := s.(polls := s.polls + 1);
    FillSends(s1, env);
    var f := AfterFill(s1, env);
    if f.numMsgs > 0 && f.remaining == 0 { StartsNext(f); }
  }

  /** r is s with the message after the current one started. */
  ghost predicate NextStarted(s: Dev, r: Dev) {
    && s.cur + 1 < |s.msgs| && s.numMsgs > 0
    && r == s.(cur := s.cur + 1, numMsgs := s.numMsgs - 1, off := 0, remaining := |s.msgs[s.cur + 1].buf|, ops := r.ops)
    && |r.ops| == |s.ops| + 1 && r.ops[..|s.ops|] == s.ops
    && RightRecord(r.ops[|s.ops|], s.msgs[s.cur + 1], s.cur + 2 == |s.msgs|)
  }

  lemma StartsNext(s: Dev)
    requires Counted(s) && s.numMsgs > 0
    ensures NextStarted(s, AfterStart(s.(cur := s.cur + 1)))
  {
    ControlRight(s.msgs[s.cur + 1], s.numMsgs == 1);
  }

  /** RXR: an error if no byte is wanted any more, else the bytes in the FIFO are taken. */
  lemma IsrOnRxr(s: Dev, env: Env)
    requires Counted(s) && NoError(env.status(s.polls))
    requires !Has(env.status(s.polls), S_DONE) && !Has(env.status(s.polls), S_TXW) && Has(env.status(s.polls), S_RXR)
    ensures var r := AfterIsr(s, env);
            var s1 := s.(polls := s.polls + 1);
            if s.remaining == 0 then
              && r == s1.(completed := true, msgErr := r.msgErr, ops := s.ops + [Clear]) && Result(r) == -EIO
            else
              r == Received(s1, env, Streak(env, s1.polls, S_RXD, s.remaining))
  {
    var val := env.status(s.polls);
    ErrorWord(val);
    LenIsError(val);
    DrainReceives(s.(polls := s.polls + 1), env);
  }

  /** Any other word changes nothing. */
  lemma IsrOnOther(s: Dev, env: Env)
    requires Counted(s) && NoError(env.status(s.polls)) && !Has(env.status(s.polls), S_DONE)
    requires !Has(env.status(s.polls), S_TXW) && !Has(env.status(s.polls), S_RXR)
    ensures AfterIsr(s, env) == s.(polls := s.polls + 1)
  {
    ErrorWord(env.status(s.polls));
  }

  /** In every run record j is that of message j, and the only other write is the final Clear. */
  lemma RecordsRight(s: Dev, msgs: seq<Msg>, env: Env, n: nat)
    requires |msgs| >= 1 && !EarlyRead(msgs) && HardwareOk(Begin(s, msgs), env, n)
    ensures var r := Run(Begin(s, msgs), env, n);
            && |r.ops| == r.cur + 1 + (if r.completed then 1 else 0) && r.cur < |msgs|
            && (r.completed ==> r.ops[r.cur + 1] == Clear)
            && forall j | 0 <= j <= r.cur :: RightRecord(r.ops[j], msgs[j], j == |msgs| - 1)
  {
    ProgrammingInOrder(s, msgs, env, n);
    var r := Run(Begin(s, msgs), env, n);
    ProgramsThenClear(r.ops, msgs, r.cur + 1, r.completed);
  }

  lemma ProgramsThenClear(ops: seq<RegOp>, msgs: seq<Msg>, k: nat, done: bool)
    requires k <= |msgs| && ops == Programs(msgs, k) + if done then [Clear] else []
    ensures |ops| == k + (if done then 1 else 0) && (done ==> ops[k] == Clear)
    ensures forall j | 0 <= j < k :: RightRecord(ops[j], msgs[j], j == |msgs| - 1)
  {
    forall j | 0 <= j < k ensures RightRecord(ops[j], msgs[j], j == |msgs| - 1) {
      ProgramsRight(msgs, k, j);
    }
  }

  lemma ProgramsRight(msgs: seq<Msg>, k: nat, j: nat)
    requires j < k <= |msgs|
    ensures RightRecord(Programs(msgs, k)[j], msgs[j], j == |msgs| - 1)
  {
    OnlyLastAsksDone(msgs, k, j);
    ControlRight(msgs[j], j == |msgs| - 1);
  }

  // ---------- transfers that go well ----------

  /** The first words let everything be written, then one says DONE, and then len bytes can be read. */
  ghost predicate GoesWell(env: Env, p: nat, len: nat) {
    && EagerThenDone(env, p)
    && (forall k: nat | p < k <= p + len :: env.status(k) == S_RXD)
    && env.status(p + len + 1) == 0
  }

  lemma RxdWords()
    ensures Has(S_RXD, S_RXD) && !Has(0, S_RXD) && NoError(S_DONE) && Has(S_DONE, S_DONE) && !Has(S_DONE, S_RXD)
  {
  }

  lemma {:induction false} FullStreak(env: Env, from: nat, max: nat)
    requires forall k: nat | from <= k < from + max :: env.status(k) == S_RXD
    ensures Streak(env, from, S_RXD, max) == max
    decreases max
  {
    RxdWords();
    if max > 0 { FullStreak(env, from + 1, max - 1); }
  }

  /** The last message, once started, ends well: a read by one interrupt. */
  lemma LastReadEnds(s: Dev, env: Env, p: nat)
    requires Counted(s) && s.msgs[s.cur].read && s.polls == p && GoesWell(env, p, s.remaining)
    ensures Allowed(s, env) && Result(AfterIsr(s, env)) == |s.msgs|
  {
    RxdWords();
    EagerWords();
    FullStreak(env, p + 1, s.remaining);
    IsrOnReadDone(s, env);
  }

  lemma WriteEnds(s: Dev, env: Env, p: nat)
    requires Counted(s) && !s.msgs[s.cur].read && s.polls == p && s.remaining == 0 && GoesWell(env, p, 0)
    ensures Allowed(s, env) && Result(AfterIsr(s, env)) == |s.msgs|
  {
    RxdWords();
    EagerWords();
    IsrOnWriteDone(s, env);
  }

  /** A write that is not empty takes one interrupt more, which sends it. */
  lemma LastWriteSends(s: Dev, env: Env, p: nat)
    requires Counted(s) && !s.msgs[s.cur].read && s.numMsgs == 0 && s.remaining > 0 && !s.completed
    requires Eager(env, p) && p == s.polls + 1 + s.remaining
    ensures Allowed(s, env)
    ensures var r := AfterIsr(s, env);
            !r.completed && r.remaining == 0 && r.cur == s.cur && r.polls == p
  {
    IsrOnEagerWord(s, env);
    EagerFill(s.(polls := s.polls + 1), env, p);
  }

  function WellEnv(p: nat, len: nat): Env {
    Env((k: nat) => if k < p then S_TXW | S_TXD else if k == p then S_DONE else if k <= p + len then S_RXD else 0, _ => 0)
  }

  lemma WellEnvGoesWell(p: nat, len: nat)
    ensures Eager(WellEnv(p, len), p) && GoesWell(WellEnv(p, len), p, len)
  {
  }

  /** One more interrupt ends the transfer well, or sends the last message. */
  lemma EndsNext(s0: Dev, q: Dev, n: nat, env: Env, p: nat, len: nat) returns (r: Dev)
    requires n > 0 && Follows(s0, env, n - 1, q) && Counted(q)
    requires !q.completed && q.polls == p && GoesWell(env, p, len)
    requires len == (if q.msgs[q.cur].read then q.remaining else 0) && (q.msgs[q.cur].read || q.remaining == 0)
    ensures Follows(s0, env, n, r) && Result(r) == |q.msgs|
  {
    if q.msgs[q.cur].read { LastReadEnds(q, env, p); } else { WriteEnds(q, env, p); }
    r := AfterIsr(q, env);
    FollowsOn(s0, env, n, q, r);
  }

  lemma SendsNext(s0: Dev, q: Dev, n: nat, env: Env, p: nat) returns (r: Dev)
    requires n > 0 && Follows(s0, env, n - 1, q) && Counted(q)
    requires !q.completed && !q.msgs[q.cur].read && q.numMsgs == 0 && q.remaining > 0
    requires Eager(env, p) && p == q.polls + 1 + q.remaining
    ensures Follows(s0, env, n, r) && Counted(r) && r.msgs == q.msgs
    ensures !r.completed && r.remaining == 0 && r.cur == q.cur && r.polls == p
  {
    LastWriteSends(q, env, p);
    r := AfterIsr(q, env);
    FollowsOn(s0, env, n, q, r);
  }

  /** The last message, a write that is not empty, takes two interrupts. */
  lemma LastWriteEnds(s0: Dev, q: Dev, n: nat, env: Env, p: nat) returns (r: Dev)
    requires n > 1 && Follows(s0, env, n - 2, q) && Counted(q)
    requires !q.completed && !q.msgs[q.cur].read && q.numMsgs == 0 && q.remaining > 0
    requires p == q.polls + 1 + q.remaining && GoesWell(env, p, 0)
    ensures Follows(s0, env, n, r) && Result(r) == |q.msgs|
  {
    var q' := SendsNext(s0, q, n - 1, env, p);
    r := EndsNext(s0, q', n, env, p, 0);
  }

  /** All messages but the last one have been sent: the rest of a run for each kind of last message. */
  lemma LastEnds(s0: Dev, q: Dev, i: nat, env: Env, p: nat) returns (n: nat, r: Dev)
    requires Follows(s0, env, i, q) && i == |q.msgs| - 1 && Reached(s0.polls, q, i)
    requires var m := q.msgs[i];
             && p == q.polls + (if m.read || m.buf == [] then 0 else 1 + |m.buf|)
             && GoesWell(env, p, if m.read then |m.buf| else 0)
    ensures Follows(s0, env, n, r) && Result(r) == |q.msgs|
  {
    var m := q.msgs[i];
    if m.read || m.buf == [] {
      n := i + 1;
      r := EndsNext(s0, q, n, env, p, if m.read then |m.buf| else 0);
    } else {
      n := i + 2;
      r := LastWriteEnds(s0, q, n, env, p);
    }
  }

  /** Every list without an empty message before the last can be transferred with success. */
  lemma SuccessPossible(s: Dev, msgs: seq<Msg>) returns (env: Env, n: nat)
    requires |msgs| >= 1 && !EarlyRead(msgs) && NonEmptyBeforeLast(msgs)
    ensures HardwareOk(Begin(s, msgs), env, n) && Result(Run(Begin(s, msgs), env, n)) == |msgs|
  {
    var s0 := Begin(s, msgs);
    var i := |msgs| - 1;
    var m := msgs[i];
    var p, len := s0.polls + Polls(msgs, i) + (if m.read || m.buf == [] then 0 else 1 + |m.buf|), if m.read then |m.buf| else 0;
    env := WellEnv(p, len);
    WellEnvGoesWell(p, len);
    var r := EagerRun(s0, i, env, p);
    n, r := LastEnds(s0, r, i, env, p);
    FollowsRun(s0, env, n, r);
  }

  /** An empty message that is not the last one is never left behind. */
  lemma StaysAtEmpty(s: Dev, env: Env, i: nat)
    requires Counted(s) && i < |s.msgs| - 1 && s.msgs[i].buf == [] && s.cur <= i
    ensures AfterIsr(s, env).cur <= i
  {
    var val := env.status(s.polls);
    if !NoError(val) {
      IsrOnError(s, env);
    } else if Has(val, S_DONE) && s.msgs[s.cur].read {
      IsrOnReadDone(s, env);
    } else if Has(val, S_DONE) {
      IsrOnWriteDone(s, env);
    } else if Has(val, S_TXW) && s.remaining == 0 {
      IsrOnTxwTooMany(s, env);
    } else if Has(val, S_TXW) {
      IsrOnTxw(s, env);
    } else if Has(val, S_RXR) {
      IsrOnRxr(s, env);
    } else {
      IsrOnOther(s, env);
    }
  }

  lemma {:induction false} RunStaysAtEmpty(s: Dev, env: Env, n: nat, i: nat)
    requires Counted(s) && i < |s.msgs| - 1 && s.msgs[i].buf == [] && s.cur <= i
    ensures Run(s, env, n).cur <= i
  {
    if n > 0 {
      RunStaysAtEmpty(s, env, n - 1, i);
      StaysAtEmpty(Run(s, env, n - 1), env, i);
    }
  }

  /** Some behaviour of the hardware takes every message across and is reported as success, exactly if no
      message before the last one is empty. */
  lemma PossibleExactly(s: Dev, msgs: seq<Msg>)
    requires |msgs| >= 1 && !EarlyRead(msgs)
    ensures NonEmptyBeforeLast(msgs) <==>
            exists env: Env, n: nat :: HardwareOk(Begin(s, msgs), env, n)
              && Result(Run(Begin(s, msgs), env, n)) == |msgs| && AllCrossed(Run(Begin(s, msgs), env, n), env)
  {
    if NonEmptyBeforeLast(msgs) {
      var env, n := SuccessPossible(s, msgs);
      SuccessMeansCrossed(s, msgs, env, n);
    } else {
      var i := FirstEmpty(msgs);
      forall env: Env, n: nat | HardwareOk(Begin(s, msgs), env, n)
        ensures !AllCrossed(Run(Begin(s, msgs), env, n), env)
      {
        RunStaysAtEmpty(Begin(s, msgs), env, n, i);
        RecordsRight(s, msgs, env, n);
      }
    }
  }
}
