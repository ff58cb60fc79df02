/** Application/ota/ota_tool/sub_src/veeprom.c on eMMC: a byte-addressed store over a block device that
    is read and written 2048 bytes at a time, one 512-byte sector further on each round. */
module Veeprom {
  import opened Wrappers

  const SECTOR_SIZE := 512
  const BUFFER_SIZE := 2048
  const VEEPROM_MAX_SIZE := 256

  // ---------- the flat array the store stands for ----------

  /** d with the bytes from `at` on replaced by x. */
  function Splice(d: seq<byte>, at: nat, x: seq<byte>): (r: seq<byte>)
    requires at + |x| <= |d|
    ensures |r| == |d|
  {
    seq(|d|, i requires 0 <= i < |d| => if at <= i < at + |x| then x[i - at] else d[i])
  }

  /** What is meant, byte by byte. */
  lemma SpliceBytes(d: seq<byte>, at: nat, x: seq<byte>)
    requires at + |x| <= |d|
    ensures forall i | 0 <= i < |d| :: Splice(d, at, x)[i] == if at <= i < at + |x| then x[i - at] else d[i]
  {
  }

  lemma SpliceIs(r: seq<byte>, d: seq<byte>, at: nat, x: seq<byte>)
    requires |r| == |d| && at + |x| <= |d|
    requires forall i | 0 <= i < |d| :: r[i] == if at <= i < at + |x| then x[i - at] else d[i]
    ensures r == Splice(d, at, x)
  {
    SpliceBytes(d, at, x);
  }

  lemma SpliceNothing(d: seq<byte>, at: nat)
    requires at <= |d|
    ensures Splice(d, at, Zeros(0)) == d
  {
  }

  lemma SpliceRead(d: seq<byte>, at: nat, x: seq<byte>)
    requires at + |x| <= |d|
    ensures Splice(d, at, x)[at..at + |x|] == x
  {
    SpliceBytes(d, at, x);
  }

  lemma ReadsBack(d: seq<byte>, d': seq<byte>, o: seq<byte>, o': seq<byte>, at: nat, x: seq<byte>, n: nat)
    requires n <= |x| && n <= |o| && at + n <= |d|
    requires d' == Splice(d, at, x[..n]) && o' == Splice(o, 0, d'[at..at + n][..n])
    ensures o'[..n] == x[..n]
  {
    SpliceRead(d, at, x[..n]);
    assert d'[at..at + n][..n] == x[..n];
    SpliceRead(o, 0, x[..n]);
  }

  lemma SpliceExtends(d: seq<byte>, at: nat, x: seq<byte>, y: seq<byte>)
    requires at + |x| + |y| <= |d|
    ensures Splice(Splice(d, at, x), at + |x|, y) == Splice(d, at, x + y)
  {
    SpliceBytes(d, at, x);
    SpliceBytes(Splice(d, at, x), at + |x|, y);
    SpliceIs(Splice(Splice(d, at, x), at + |x|, y), d, at, x + y);
  }

  lemma SliceOfSlice(d: seq<byte>, pos: nat, len: nat, inner: nat, n: nat)
    requires pos + len <= |d| && inner + n <= len
    ensures d[pos..pos + len][inner..inner + n] == d[pos + inner..pos + inner + n]
  {
    var l, r := d[pos..pos + len][inner..inner + n], d[pos + inner..pos + inner + n];
    assert |l| == |r| && forall i | 0 <= i < n :: l[i] == r[i];
  }

  /** Writing back a whole window with a patch inside it changes just the patch. */
  lemma SpliceWindow(d: seq<byte>, pos: nat, n: nat, inner: nat, x: seq<byte>)
    requires pos + n <= |d| && inner + |x| <= n
    ensures Splice(d, pos, Splice(d[pos..pos + n], inner, x)) == Splice(d, pos + inner, x)
  {
    var w := Splice(d[pos..pos + n], inner, x);
    SpliceBytes(d[pos..pos + n], inner, x);
    SpliceBytes(d, pos, w);
    SpliceIs(Splice(d, pos, w), d, pos + inner, x);
  }

  lemma StoreMore(d0: seq<byte>, d1: seq<byte>, d2: seq<byte>, x: seq<byte>, at: nat, p: nat, n: nat)
    requires p + n <= |x| && at + p + n <= |d0|
    requires d1 == Splice(d0, at, x[..p]) && d2 == Splice(d1, at + p, x[p..p + n])
    ensures d2 == Splice(d0, at, x[..p + n])
  {
    SpliceExtends(d0, at, x[..p], x[p..p + n]);
    assert x[..p] + x[p..p + n] == x[..p + n];
  }

  lemma ReadMore(b0: seq<byte>, b1: seq<byte>, b2: seq<byte>, d: seq<byte>, at: nat, x: seq<byte>, p: nat, n: nat)
    requires at + |x| <= |d| && x == d[at..at + |x|] && p + n <= |x| <= |b0|
    requires b1 == Splice(b0, 0, x[..p]) && b2 == Splice(b1, p, d[at + p..at + p + n])
    ensures b2 == Splice(b0, 0, x[..p + n])
  {
    SliceOfSlice(d, at, |x|, p, n);
    StoreMore(b0, b1, b2, x, 0, p, n);
  }

  lemma ClearMore(d0: seq<byte>, d1: seq<byte>, d2: seq<byte>, at: nat, p: nat, n: nat)
    requires at + p + n <= |d0|
    requires d1 == Splice(d0, at, Zeros(p)) && d2 == Splice(d1, at + p, Zeros(n))
    ensures d2 == Splice(d0, at, Zeros(p + n))
  {
    SpliceExtends(d0, at, Zeros(p), Zeros(n));
    assert Zeros(p) + Zeros(n) == Zeros(p + n);
  }

  // ---------- histories of changes to the store ----------

  /** What a write or clear put into the store. */
  datatype Op = Op(offset: nat, data: seq<byte>)

  /** What has been put into the store, in the order of the calls. */
  datatype Log = Start | Then(before: Log, op: Op)

  /** The operations lie on a device of n bytes that has the store at base. */
  predicate LogFits(n: nat, base: nat, log: Log) {
    log.Then? ==> LogFits(n, base, log.before) && OpFits(n, base, log.op)
  }

  predicate OpFits(n: nat, base: nat, op: Op) { base + op.offset + |op.data| <= n }

  /** The device after the operations. */
  function Apply(d: seq<byte>, base: nat, log: Log): (r: seq<byte>)
    requires LogFits(|d|, base, log)
    ensures |r| == |d|
  {
    match log
    case Start => d
    case Then(before, op) => Splice(Apply(d, base, before), base + op.offset, op.data)
  }

  /** The operation covers address a of the store. */
  predicate Covers(op: Op, a: nat) { op.offset <= a < op.offset + |op.data| }

  /** The byte the latest operation that covers address a put there. */
  function LastValue(log: Log, a: nat): Option<byte> {
    match log
    case Start => None
    case Then(before, op) => if Covers(op, a) then Some(op.data[a - op.offset]) else LastValue(before, a)
  }

  /** After any history each byte of the store is what was last put there, or what was there at first;
      bytes before the store never change. */
  lemma {:induction false} LastWriteWins(d: seq<byte>, base: nat, log: Log, a: nat)
    requires LogFits(|d|, base, log)
    ensures base + a < |d| ==>
              Apply(d, base, log)[base + a] == if LastValue(log, a).Some? then LastValue(log, a).value else d[base + a]
    ensures a < base && a < |d| ==> Apply(d, base, log)[a] == d[a]
  {
    if log.Then? {
      LastWriteWins(d, base, log.before, a);
      SpliceBytes(Apply(d, base, log.before), base + log.op.offset, log.op.data);
    }
  }

  /** A device is told by its bytes. */
  lemma SameBytes(d: seq<byte>, base: nat, l: Log, m: Log)
    requires LogFits(|d|, base, l) && LogFits(|d|, base, m)
    requires forall a: nat | base + a < |d| :: LastValue(l, a) == LastValue(m, a)
    ensures Apply(d, base, l) == Apply(d, base, m)
  {
    var u, v := Apply(d, base, l), Apply(d, base, m);
    forall i | 0 <= i < |d| ensures u[i] == v[i] {
      var a := if i < base then i else i - base;
      LastWriteWins(d, base, l, a);
      LastWriteWins(d, base, m, a);
    }
  }

  /** At any point of a history, two operations on disjoint ranges can change places. */
  lemma DisjointOpsCommute(d: seq<byte>, base: nat, log: Log, x: Op, y: Op)
    requires LogFits(|d|, base, Then(Then(log, x), y)) && x.offset + |x.data| <= y.offset
    ensures LogFits(|d|, base, Then(Then(log, y), x))
    ensures Apply(d, base, Then(Then(log, x), y)) == Apply(d, base, Then(Then(log, y), x))
  {
    SameBytes(d, base, Then(Then(log, x), y), Then(Then(log, y), x));
  }

  // ---------- the sectors of a request ----------

  /** The / of C on int, for the sector size. */
  function SectorOf(x: int): int {
    if x >= 0 then x / SECTOR_SIZE else -(-x / SECTOR_SIZE)
  }

  /** A request inside the store, with the sector q that its offset lies in. */
  datatype Request = Request(q: nat, offset: nat, size: nat)

  function RequestOf(offset: nat, size: nat): Request { Request(offset / SECTOR_SIZE, offset, size) }

  predicate Starts(r: Request) { r.q * SECTOR_SIZE <= r.offset < (r.q + 1) * SECTOR_SIZE }

  /** The request reaches into the i-th sector from q on; the empty request at 0 counts for sector 0. */
  predicate Reaches(r: Request, i: nat) {
    (r.q + i) * SECTOR_SIZE < r.offset + r.size || (i == 0 && r.offset == 0)
  }

  /** How many bytes of a request the first i rounds deal with: up to the end of their last sector. */
  function Covered(r: Request, i: nat): (p: nat)
    requires Starts(r)
    ensures p <= r.size
  {
    if i == 0 then 0
    else
      var toEnd := (r.q + i) * SECTOR_SIZE - r.offset;
      if toEnd <= r.size then toEnd else r.size
  }

  /** Round i deals with the bytes up to the end of its sector or of the request, and there is no
      underflow in the offset within the sector. */
  lemma RoundCovers(r: Request, i: nat)
    requires Starts(r) && Reaches(r, i)
    ensures var p := Covered(r, i);
            var inner := r.offset + p - (r.q + i) * SECTOR_SIZE;
            && 0 <= inner < SECTOR_SIZE
            && Covered(r, i + 1) == p + if SECTOR_SIZE - inner >= r.size - p then r.size - p else SECTOR_SIZE - inner
  {
  }

  /** The bytes of i rounds are none, all, or all up to the end of a sector. */
  lemma CoveredCutAtSector(r: Request, i: nat)
    requires Starts(r)
    ensures var done := Covered(r, i); done == 0 || done == r.size || (r.offset + done) % SECTOR_SIZE == 0
  {
  }

  /** How many sectors a request inside the store touches. */
  function Rounds(offset: nat, size: nat): int {
    SectorOf(offset + size - 1) - SectorOf(offset) + 1
  }

  /** The rounds are those for the sectors the request reaches into, and deal with all of it. */
  lemma RoundsCoverAll(offset: nat, size: nat)
    ensures var r, n := RequestOf(offset, size), Rounds(offset, size);
            && 0 <= n && Starts(r) && Covered(r, n) == size
            && (n > 0 ==> Reaches(r, n - 1))
  {
  }

  // ---------- the rounds of a request, in the int and unsigned int of the program ----------

  const U32 := 0x1_0000_0000

  /** x as an unsigned int, and as an int. */
  function Wrap(x: int): nat { x % U32 }
  function ToInt(x: int): int { if Wrap(x) < U32 / 2 then Wrap(x) else Wrap(x) - U32 }

  predicate IsInt(x: int) { -U32 / 2 <= x < U32 / 2 }

  /** Both sums the program forms of offset and size are int; else C gives it no meaning. */
  predicate Defined(offset: int, size: int) {
    IsInt(offset) && IsInt(size) && IsInt(offset + size) && IsInt(offset + size - 1)
  }

  /** is_parameter_valid */
  predicate Accepted(start: nat, end: nat, offset: int, size: int) {
    offset + size <= ToInt(Wrap(end - start + 1) * SECTOR_SIZE)
  }

  function SectorLeft(start: nat, offset: int): nat { Wrap(start + SectorOf(offset)) }

  /** sector_count */
  function RoundCount(start: nat, offset: int, size: int): nat {
    Wrap(Wrap(start + SectorOf(offset + size - 1)) - SectorLeft(start, offset) + 1)
  }

  /** The position of the window on the device, where in it the bytes are, and how many. */
  datatype Round = Round(pos: int, inner: int, count: int)

  /** Lines 342 and 353-355: round i when offset and size have become cur and left. */
  function Plan(start: nat, sectorLeft: int, i: nat, cur: int, left: int): Round {
    var inner := OffsetInner(start, sectorLeft, i, cur);
    Round(Position(sectorLeft, i), inner, OperateCount(inner, left))
  }

  function Position(sectorLeft: int, i: nat): nat { Wrap(Wrap(sectorLeft + i) * SECTOR_SIZE) }

  function OffsetInner(start: nat, sectorLeft: int, i: nat, cur: int): nat {
    Wrap(cur - Wrap(Wrap(sectorLeft + i - start) * SECTOR_SIZE))
  }

  function OperateCount(offsetInner: nat, left: int): int {
    var remainInner := Wrap(SECTOR_SIZE - offsetInner);
    ToInt(if remainInner >= Wrap(left) then Wrap(left) else remainInner)
  }

  lemma WrapIs(x: int, r: int, k: int)
    requires 0 <= r < U32 && x == r + k * U32
    ensures Wrap(x) == r
  {
  }

  lemma WrapAdd(x: int, y: int)
    ensures Wrap(Wrap(x) + y) == Wrap(x + y) && Wrap(y - Wrap(x)) == Wrap(y - x)
  {
    var k := x / U32;
    assert Wrap(x) == x - k * U32;
    WrapIs(Wrap(x) + y, Wrap(x + y), (x + y) / U32 - k);
    WrapIs(y - Wrap(x), Wrap(y - x), (y - x) / U32 + k);
  }

  lemma WrapTimes(x: int)
    ensures Wrap(Wrap(x) * SECTOR_SIZE) == Wrap(x * SECTOR_SIZE)
  {
    var k := x / U32;
    assert x == k * U32 + Wrap(x);
    assert x * SECTOR_SIZE == (k * SECTOR_SIZE) * U32 + Wrap(x) * SECTOR_SIZE;
  }

  lemma PositionExact(start: nat, q: int, i: nat)
    ensures Position(Wrap(start + q), i) == Wrap((start + q + i) * SECTOR_SIZE)
  {
    WrapAdd(start + q, i);
    WrapTimes(start + q + i);
  }

  /** The inner wraps cancel out. */
  lemma OffsetInnerExact(start: nat, q: int, i: nat, cur: int)
    ensures OffsetInner(start, Wrap(start + q), i, cur) == Wrap(cur - (q + i) * SECTOR_SIZE)
  {
    WrapAdd(start + q, i - start);
    WrapTimes(q + i);
    WrapAdd((q + i) * SECTOR_SIZE, cur);
  }

  lemma OperateCountExact(inner: nat, left: int)
    requires inner < SECTOR_SIZE && IsInt(left)
    ensures OperateCount(inner, left) == if 0 <= left <= SECTOR_SIZE - inner then left else SECTOR_SIZE - inner
  {
  }

  lemma RoundCountExact(start: nat, offset: int, size: int)
    ensures RoundCount(start, offset, size) == Wrap(SectorOf(offset + size - 1) - SectorOf(offset) + 1)
  {
    var a, b := start + SectorOf(offset + size - 1), start + SectorOf(offset);
    WrapAdd(b, Wrap(a) + 1);
    WrapAdd(a, 1 - b);
  }

  /** offset and size when round i begins, and the round. */
  function Begin(start: nat, offset: int, size: int, i: nat): (int, int) {
    if i == 0 then (offset, size)
    else
      var (cur, left) := Begin(start, offset, size, i - 1);
      var n := Plan(start, SectorLeft(start, offset), i - 1, cur, left).count;
      (cur + n, left - n)
  }

  function RoundAt(start: nat, offset: int, size: int, i: nat): Round {
    Plan(start, SectorLeft(start, offset), i, Begin(start, offset, size, i).0, Begin(start, offset, size, i).1)
  }

  /** Round i works, inside the transfer buffer, on bytes that were asked for, in their place in the store. */
  ghost predicate OnTarget(start: nat, end: nat, offset: int, size: int, i: nat) {
    var (cur, left) := Begin(start, offset, size, i);
    var r := RoundAt(start, offset, size, i);
    && 0 <= r.count <= left
    && r.inner + r.count <= BUFFER_SIZE
    && r.pos + r.inner == start * SECTOR_SIZE + cur
    && 0 <= cur && cur + r.count <= (end - start + 1) * SECTOR_SIZE
  }

  ghost predicate AllOnTarget(start: nat, end: nat, offset: int, size: int) {
    forall i: nat | i < RoundCount(start, offset, size) :: OnTarget(start, end, offset, size, i)
  }

  /** Positions on the device are unsigned int: sectors from this one on have none. */
  const SECTORS := 0x80_0000

  /** The request has no round, or lies in the store below the last sector that has a position. */
  predicate InRange(start: nat, offset: int, size: int) {
    RoundCount(start, offset, size) == 0 || (offset >= 0 && size >= 0 && start + SectorOf(offset + size - 1) < SECTORS)
  }

  lemma PlanAt(start: nat, q: int, i: nat, cur: int, left: int, inner: int)
    requires inner == cur - (q + i) * SECTOR_SIZE && 0 <= inner < SECTOR_SIZE && IsInt(left)
    ensures Plan(start, Wrap(start + q), i, cur, left) ==
            Round(Wrap((start + q + i) * SECTOR_SIZE), inner,
                  if 0 <= left <= SECTOR_SIZE - inner then left else SECTOR_SIZE - inner)
  {
    PositionExact(start, q, i);
    OffsetInnerExact(start, q, i, cur);
    WrapIs(inner, inner, 0);
    OperateCountExact(inner, left);
  }

  /** For a request that is not negative the wrapped arithmetic of a round is exact, but for the position. */
  lemma PlanExact(start: nat, r: Request, i: nat)
    requires Starts(r) && Reaches(r, i) && IsInt(r.size)
    ensures var p := Covered(r, i);
            Plan(start, Wrap(start + r.q), i, r.offset + p, r.size - p) ==
              Round(Wrap((start + r.q + i) * SECTOR_SIZE),
                    r.offset + p - (r.q + i) * SECTOR_SIZE, Covered(r, i + 1) - p)
  {
    RoundCovers(r, i);
    var p := Covered(r, i);
    PlanAt(start, r.q, i, r.offset + p, r.size - p, r.offset + p - (r.q + i) * SECTOR_SIZE);
  }

  lemma RoundsInStore(start: nat, offset: nat, size: nat)
    requires Defined(offset, size)
    ensures 0 <= Rounds(offset, size) == RoundCount(start, offset, size)
  {
    RoundCountExact(start, offset, size);
  }

  lemma {:induction false} BeginExact(start: nat, r: Request, i: nat)
    requires r.q == SectorOf(r.offset) && Starts(r) && IsInt(r.size) && (i > 0 ==> Reaches(r, i - 1))
    ensures Begin(start, r.offset, r.size, i) == (r.offset + Covered(r, i), r.size - Covered(r, i))
  {
    if i > 0 {
      BeginExact(start, r, i - 1);
      PlanExact(start, r, i - 1);
    }
  }

  /** Every round of an accepted request is on target exactly if the request is in range. */
  lemma OnTargetExactly(start: nat, end: nat, offset: int, size: int)
    requires start <= end < U32 && Defined(offset, size) && Accepted(start, end, offset, size)
    ensures AllOnTarget(start, end, offset, size) <==> InRange(start, offset, size)
  {
    if RoundCount(start, offset, size) > 0 {
      if offset < 0 || size < 0 {
        assert !OnTarget(start, end, offset, size, 0);
      } else {
        RoundsInStore(start, offset, size);
        RoundsCoverAll(offset, size);
        forall i: nat | i < RoundCount(start, offset, size)
          ensures OnTarget(start, end, offset, size, i) <==> start + offset / SECTOR_SIZE + i < SECTORS
        {
          OnTargetWhen(start, end, RequestOf(offset, size), i);
        }
        var last := RoundCount(start, offset, size) - 1;
        assert start + offset / SECTOR_SIZE + last == start + SectorOf(offset + size - 1);
        assert OnTarget(start, end, offset, size, last) <==> InRange(start, offset, size);
      }
    }
  }

  lemma OnTargetWhen(start: nat, end: nat, r: Request, i: nat)
    requires start <= end < U32 && Defined(r.offset, r.size) && Accepted(start, end, r.offset, r.size)
    requires r.q == SectorOf(r.offset) && Starts(r) && Reaches(r, i)
    ensures OnTarget(start, end, r.offset, r.size, i) <==> start + r.q + i < SECTORS
  {
    BeginExact(start, r, i);
    PlanExact(start, r, i);
    RoundCovers(r, i);
    AcceptedFits(start, end, r.offset, r.size);
    PositionFits(start + r.q + i);
  }

  lemma AcceptedFits(start: nat, end: nat, offset: int, size: int)
    requires start <= end < U32 && Accepted(start, end, offset, size)
    ensures offset + size <= (end - start + 1) * SECTOR_SIZE
  {
    var bytes := (end - start + 1) * SECTOR_SIZE;
    WrapTimes(end - start + 1);
    assert Wrap(bytes) <= bytes;
  }

  lemma PositionFits(sector: nat)
    ensures Wrap(sector * SECTOR_SIZE) == sector * SECTOR_SIZE <==> sector < SECTORS
  {
  }

  /** How the first round of a request with a negative offset goes wrong: the offset in the window
      underflows past the transfer buffer, or, at the start of a sector, the window is one that lies
      before the store. */
  lemma NegativeOffset(start: nat, offset: int, size: int)
    requires start < SECTORS && Defined(offset, size) && offset < 0
    ensures var r := RoundAt(start, offset, size, 0);
            if SectorOf(offset) * SECTOR_SIZE != offset then r.inner > BUFFER_SIZE
            else r.inner == 0 && (start * SECTOR_SIZE + offset >= 0 ==> r.pos == start * SECTOR_SIZE + offset)
  {
    FirstRound(start, offset, size, SectorOf(offset));
    var d := offset - SectorOf(offset) * SECTOR_SIZE;
    SectorOfNegative(offset);
    WrapIs(d, if d < 0 then U32 + d else d, if d < 0 then -1 else 0);
    if d == 0 && start * SECTOR_SIZE + offset >= 0 {
      WrapIs(start * SECTOR_SIZE + offset, start * SECTOR_SIZE + offset, 0);
    }
  }

  lemma FirstRound(start: nat, offset: int, size: int, q: int)
    requires q == SectorOf(offset)
    ensures RoundAt(start, offset, size, 0).inner == Wrap(offset - q * SECTOR_SIZE)
    ensures RoundAt(start, offset, size, 0).pos == Wrap(start * SECTOR_SIZE + q * SECTOR_SIZE)
  {
    OffsetInnerExact(start, q, 0, offset);
    PositionExact(start, q, 0);
  }

  lemma SectorOfNegative(x: int)
    requires x < 0
    ensures -SECTOR_SIZE < x - SectorOf(x) * SECTOR_SIZE <= 0
  {
  }

  /** A negative size moves a rest of the first sector that nobody asked for. */
  lemma NegativeSize(start: nat, offset: nat, size: int)
    requires start < SECTORS && Defined(offset, size) && size < 0
    ensures RoundAt(start, offset, size, 0).count == SECTOR_SIZE - offset % SECTOR_SIZE
  {
    PlanAt(start, SectorOf(offset), 0, offset, size, offset % SECTOR_SIZE);
  }

  /** is_parameter_valid lets exactly the requests pass that end in the store, for stores below 2 GiB; for
      any larger store its size does not fit in an int and some request is judged wrongly. */
  lemma AcceptedExactly(start: nat, end: nat)
    requires start <= end < U32
    ensures (forall offset, size | Defined(offset, size) ::
               Accepted(start, end, offset, size) <==> offset + size <= (end - start + 1) * SECTOR_SIZE)
            <==> end - start + 1 < SECTORS / 2
  {
    var n := end - start + 1;
    if n < SECTORS / 2 {
      WrapIs(n, n, 0);
      WrapIs(n * SECTOR_SIZE, n * SECTOR_SIZE, 0);
    } else {
      var most := U32 / 2 - 1;
      assert Defined(most, 0) && most + 0 <= n * SECTOR_SIZE;
      SizeIsWholeSectors(n);
      assert !Accepted(start, end, most, 0);
    }
  }

  /** The size is a whole number of sectors, and so not the greatest int. */
  lemma SizeIsWholeSectors(n: int)
    ensures ToInt(Wrap(n) * SECTOR_SIZE) < U32 / 2 - 1
  {
    var x := Wrap(n) * SECTOR_SIZE;
    var k := x / U32;
    assert Wrap(x) == x - k * U32 == (Wrap(n) - k * SECTORS) * SECTOR_SIZE;
  }

  // One accepted request for each kind of failure.

  lemma Underflows()
    ensures Accepted(0, 0, -1, 1) && !InRange(0, -1, 1) && RoundAt(0, -1, 1, 0).inner == 0xFFFF_FFFF
  {
    AcceptedByOne(0, -1, 1);
    RoundCountExact(0, -1, 1);
    FirstRound(0, -1, 1, 0);
    WrapIs(-1, U32 - 1, -1);
  }

  lemma LeavesTheStore()
    ensures Accepted(1, 1, -512, 512) && !InRange(1, -512, 512) && RoundAt(1, -512, 512, 0) == Round(0, 0, 512)
  {
    AcceptedByOne(1, -512, 512);
    RoundCountExact(1, -512, 512);
    PlanAt(1, -1, 0, -512, 512, 0);
  }

  lemma MovesTooMuch()
    ensures Accepted(0, 0, 9, -1) && !InRange(0, 9, -1) && RoundAt(0, 9, -1, 0) == Round(0, 9, 503)
  {
    AcceptedByOne(0, 9, -1);
    RoundCountExact(0, 9, -1);
    PlanAt(0, 0, 0, 9, -1, 9);
  }

  lemma PositionWraps()
    ensures Accepted(SECTORS, SECTORS, 0, 1) && !InRange(SECTORS, 0, 1) && RoundAt(SECTORS, 0, 1, 0) == Round(0, 0, 1)
  {
    AcceptedByOne(SECTORS, 0, 1);
    RoundCountExact(SECTORS, 0, 1);
    PlanAt(SECTORS, 0, 0, 0, 1, 0);
  }

  /** A store of one sector. */
  lemma AcceptedByOne(start: nat, offset: int, size: int)
    ensures Accepted(start, start, offset, size) <==> offset + size <= SECTOR_SIZE
  {
    WrapIs(1, 1, 0);
    WrapIs(SECTOR_SIZE, SECTOR_SIZE, 0);
  }

  // ---------- device calls that fail ----------

  /** The four device calls of a round that can fail. */
  datatype Call = SeekToRead | Read | SeekToWrite | Write

  /** Which device calls fail, by round. */
  type Faults = (nat, Call) -> bool

  predicate ReadSucceeds(fault: Faults, i: nat) { !fault(i, SeekToRead) && !fault(i, Call.Read) }

  predicate RoundSucceeds(fault: Faults, i: nat) {
    ReadSucceeds(fault, i) && !fault(i, SeekToWrite) && !fault(i, Call.Write)
  }

  /** How many of the rounds i..n, counted from 0, are completed: up to the first that fails. */
  function ReadsDone(fault: Faults, i: nat, n: nat): (k: nat)
    requires i <= n
    ensures i <= k <= n && (forall j: nat | i <= j < k :: ReadSucceeds(fault, j)) && (k < n ==> !ReadSucceeds(fault, k))
    decreases n - i
  {
    if i < n && ReadSucceeds(fault, i) then ReadsDone(fault, i + 1, n) else i
  }

  function RoundsDone(fault: Faults, i: nat, n: nat): (k: nat)
    requires i <= n
    ensures i <= k <= n && (forall j: nat | i <= j < k :: RoundSucceeds(fault, j)) && (k < n ==> !RoundSucceeds(fault, k))
    decreases n - i
  {
    if i < n && RoundSucceeds(fault, i) then RoundsDone(fault, i + 1, n) else i
  }

  /** A call that changes the store, with the device calls of it that fail. */
  datatype Change =
    | WriteCall(offset: int, data: seq<byte>, fault: Faults)
    | ClearCall(offset: int, size: int, fault: Faults)
  {
    function Size(): int { if WriteCall? then |data| else size }
  }

  class Veeprom {
    const dev: array<byte>     // the device behind fd
    const buffer: array<byte>  // the transfer buffer
    const startSector: nat
    const endSector: nat

    constructor (dev: array<byte>, startSector: nat, endSector: nat)
      requires startSector <= endSector < SECTORS && dev.Length >= endSector * SECTOR_SIZE + BUFFER_SIZE
      ensures Valid() && this.dev == dev && this.startSector == startSector && this.endSector == endSector
      ensures fresh(buffer)
    {
      this.dev, this.startSector, this.endSector := dev, startSector, endSector;
      buffer := new byte[BUFFER_SIZE](_ => 0);
    }

    predicate Valid() {
      && startSector <= endSector < SECTORS
      && dev.Length >= endSector * SECTOR_SIZE + BUFFER_SIZE
      && buffer.Length == BUFFER_SIZE && buffer != dev
    }

    /** The position of store address 0 on the device. */
    function Base(): nat { startSector * SECTOR_SIZE }

    predicate IsParameterValid(offset: int, size: int) { Accepted(startSector, endSector, offset, size) }

    function Count(offset: int, size: int): nat { RoundCount(startSector, offset, size) }

    /** What the callers must see to: a request that is accepted is in range (OnTargetExactly). */
    predicate MayAsk(offset: int, size: int) {
      Defined(offset, size) && (IsParameterValid(offset, size) ==> InRange(startSector, offset, size))
    }

    /** The request is accepted and names bytes of the store. */
    predicate InStore(offset: int, size: int) { IsParameterValid(offset, size) && offset >= 0 && size >= 0 }

    /** The request ends in the store. */
    predicate Fits(r: Request) {
      IsInt(r.offset + r.size) && r.offset + r.size <= (endSector - startSector + 1) * SECTOR_SIZE
    }

    lemma InStoreFits(offset: nat, size: nat)
      requires Valid() && Defined(offset, size) && InStore(offset, size)
      ensures Fits(RequestOf(offset, size)) && Base() + offset + size <= dev.Length
      ensures Count(offset, size) == Rounds(offset, size) >= 0
      ensures SectorLeft(startSector, offset) == startSector + offset / SECTOR_SIZE
    {
      AcceptedFits(startSector, endSector, offset, size);
      RoundsInStore(startSector, offset, size);
      WrapIs(startSector + offset / SECTOR_SIZE, startSector + offset / SECTOR_SIZE, 0);
    }

    lemma WindowFits(r: Request, i: nat)
      requires Valid() && Fits(r) && Starts(r) && Reaches(r, i)
      ensures var pos := (startSector + r.q + i) * SECTOR_SIZE;
              pos + BUFFER_SIZE <= dev.Length && Wrap(pos) == pos && Wrap(startSector + r.q) == startSector + r.q
    {
      assert (r.q + i) * SECTOR_SIZE <= (endSector - startSector + 1) * SECTOR_SIZE;
      PositionFits(startSector + r.q + i);
      WrapIs(startSector + r.q, startSector + r.q, 0);
    }

    /** x is on the device from position `at` on. */
    predicate Holds(at: nat, x: seq<byte>)
      reads dev
    {
      at + |x| <= dev.Length && x == dev[..][at..at + |x|]
    }

    /** memset, then read(fd, buffer, sizeof(buffer)) at pos. */
    method LoadWindow(pos: nat)
      requires Valid() && pos + BUFFER_SIZE <= dev.Length
      modifies buffer
      ensures buffer[..] == dev[..][pos..pos + BUFFER_SIZE]
    {
      var k := 0;
      while k < BUFFER_SIZE
        invariant 0 <= k <= BUFFER_SIZE
        invariant forall x | 0 <= x < k :: buffer[x] == dev[pos + x]
      {
        buffer[k] := dev[pos + k];
        k := k + 1;
      }
    }

    /** write(fd, buffer, sizeof(buffer)) at pos. */
    method StoreWindow(pos: nat)
      requires Valid() && pos + BUFFER_SIZE <= dev.Length
      modifies dev
      ensures dev[..] == Splice(old(dev[..]), pos, buffer[..])
    {
      var k := 0;
      while k < BUFFER_SIZE
        invariant 0 <= k <= BUFFER_SIZE
        invariant forall x | 0 <= x < dev.Length :: dev[x] == if pos <= x < pos + k then buffer[x - pos] else old(dev[x])
      {
        dev[pos + k] := buffer[k];
        k := k + 1;
      }
      SpliceIs(dev[..], old(dev[..]), pos, buffer[..]);
    }
  
    // One round of each loop: the window at pos, n bytes of it from `inner` on.

    method ReadRound(i: nat, pos: nat, inner: nat, buf: array<byte>, p: nat, n: nat, fault: Faults,
                     ghost b0: seq<byte>, ghost at: nat, ghost x: seq<byte>)
      returns (ok: bool)
      requires Valid() && buf != dev && buf != buffer
      requires pos + BUFFER_SIZE <= dev.Length && inner + n <= BUFFER_SIZE && p + n <= |x| <= buf.Length == |b0|
      requires Holds(at, x) && at + p == pos + inner
      requires buf[..] == Splice(b0, 0, x[..p])
      modifies buf, buffer
      ensures ok <==> ReadSucceeds(fault, i)
      ensures !ok ==> buf[..] == Splice(b0, 0, x[..p])
      ensures ok ==> buf[..] == Splice(b0, 0, x[..p + n])
    {
      if fault(i, SeekToRead) {
        return false;
      }
      if fault(i, Call.Read) {
        return false;
      }
      ghost var was := buf[..];
      LoadWindow(pos);
      Copy(buf, p, buffer, inner, n);
      SliceOfSlice(dev[..], pos, BUFFER_SIZE, inner, n);
      assert buffer[inner..inner + n] == buffer[..][inner..inner + n];
      ReadMore(b0, was, buf[..], dev[..], at, x, p, n);
      return true;
    }

    method WriteRound(i: nat, pos: nat, inner: nat, buf: array<byte>, p: nat, n: nat, fault: Faults,
                      ghost d0: seq<byte>, ghost at: nat, ghost x: seq<byte>)
      returns (ok: bool)
      requires Valid() && buf != dev && buf != buffer
      requires pos + BUFFER_SIZE <= dev.Length && inner + n <= BUFFER_SIZE && p + n <= buf.Length
      requires x == buf[..] && at + p == pos + inner && |d0| == dev.Length && dev[..] == Splice(d0, at, x[..p])
      modifies dev, buffer
      ensures ok <==> RoundSucceeds(fault, i)
      ensures !ok ==> dev[..] == Splice(d0, at, x[..p])
      ensures ok ==> dev[..] == Splice(d0, at, x[..p + n])
    {
      if fault(i, SeekToRead) {
        return false;
      }
      if fault(i, Call.Read) {
        return false;
      }
      ghost var was := dev[..];
      LoadWindow(pos);
      Copy(buffer, inner, buf, p, n);
      if fault(i, SeekToWrite) {
        return false;
      }
      if fault(i, Call.Write) {
        return false;
      }
      SpliceWindow(was, pos, BUFFER_SIZE, inner, x[p..p + n]);
      assert buf[p..p + n] == x[p..p + n];
      StoreWindow(pos);
      StoreMore(d0, was, dev[..], x, at, p, n);
      return true;
    }

    method ClearRound(i: nat, pos: nat, inner: nat, ghost p: nat, n: nat, fault: Faults,
                      ghost d0: seq<byte>, ghost at: nat)
      returns (ok: bool)
      requires Valid() && pos + BUFFER_SIZE <= dev.Length && inner + n <= BUFFER_SIZE
      requires at + p == pos + inner && |d0| == dev.Length && dev[..] == Splice(d0, at, Zeros(p))
      modifies dev, buffer
      ensures ok <==> RoundSucceeds(fault, i)
      ensures !ok ==> dev[..] == Splice(d0, at, Zeros(p))
      ensures ok ==> dev[..] == Splice(d0, at, Zeros(p + n))
    {
      if fault(i, SeekToRead) {
        return false;
      }
      if fault(i, Call.Read) {
        return false;
      }
      ghost var was := dev[..];
      LoadWindow(pos);
      SetZero(buffer, inner, n);
      if fault(i, SeekToWrite) {
        return false;
      }
      if fault(i, Call.Write) {
        return false;
      }
      SpliceWindow(was, pos, BUFFER_SIZE, inner, Zeros(n));
      StoreWindow(pos);
      ClearMore(d0, was, dev[..], at, p, n);
      return true;
    }

    /** Lines 342 and 353-355: where round i works, and on how many bytes. */
    method PlanRound(ghost r: Request, i: nat, off: int, left: int, sectorLeft: nat, ghost p: nat)
      returns (pos: nat, offsetInner: nat, operateCount: nat)
      requires Valid() && Fits(r) && Starts(r) && Reaches(r, i) && sectorLeft == startSector + r.q
      requires p == Covered(r, i) && off == r.offset + p && left == r.size - p
      ensures pos + BUFFER_SIZE <= dev.Length && offsetInner < SECTOR_SIZE && offsetInner + operateCount <= SECTOR_SIZE
      ensures pos + offsetInner == Base() + r.offset + p
      ensures p + operateCount == Covered(r, i + 1)
    {
      WindowFits(r, i);
      RoundCovers(r, i);
      PlanExact(startSector, r, i);
      pos := Position(sectorLeft, i);
      offsetInner := OffsetInner(startSector, sectorLeft, i, off);
      operateCount := OperateCount(offsetInner, left);
    }

    /** Round i of veeprom_read. */
    method ReadStep(ghost r: Request, i: nat, off: int, left: int, sectorLeft: nat,
                    buf: array<byte>, p: nat, fault: Faults, ghost b0: seq<byte>, ghost x: seq<byte>)
      returns (ok: bool, n: nat)
      requires Valid() && Fits(r) && Starts(r) && Reaches(r, i) && sectorLeft == startSector + r.q
      requires p == Covered(r, i) && off == r.offset + p && left == r.size - p
      requires r.size == |x| <= buf.Length == |b0| && buf != dev && buf != buffer
      requires Holds(Base() + r.offset, x) && buf[..] == Splice(b0, 0, x[..p])
      modifies buf, buffer
      ensures ok <==> ReadSucceeds(fault, i)
      ensures p + n == Covered(r, i + 1)
      ensures !ok ==> buf[..] == Splice(b0, 0, x[..p])
      ensures ok ==> buf[..] == Splice(b0, 0, x[..p + n])
    {
      var pos, offsetInner, operateCount := PlanRound(r, i, off, left, sectorLeft, p);
      n := operateCount;
      ok := ReadRound(i, pos, offsetInner, buf, p, operateCount, fault, b0, Base() + r.offset, x);
    }

    /** Round i of veeprom_write. */
    method WriteStep(ghost r: Request, i: nat, off: int, left: int, sectorLeft: nat,
                     buf: array<byte>, p: nat, fault: Faults, ghost d0: seq<byte>, ghost x: seq<byte>)
      returns (ok: bool, n: nat)
      requires Valid() && Fits(r) && Starts(r) && Reaches(r, i) && sectorLeft == startSector + r.q
      requires p == Covered(r, i) && off == r.offset + p && left == r.size - p
      requires Base() + r.offset + r.size <= dev.Length
      requires r.size <= buf.Length && buf != dev && buf != buffer && |d0| == dev.Length
      requires x == buf[..] && dev[..] == Splice(d0, Base() + r.offset, x[..p])
      modifies dev, buffer
      ensures ok <==> RoundSucceeds(fault, i)
      ensures p + n == Covered(r, i + 1)
      ensures !ok ==> dev[..] == Splice(d0, Base() + r.offset, x[..p])
      ensures ok ==> dev[..] == Splice(d0, Base() + r.offset, x[..p + n])
    {
      var pos, offsetInner, operateCount := PlanRound(r, i, off, left, sectorLeft, p);
      n := operateCount;
      ok := WriteRound(i, pos, offsetInner, buf, p, operateCount, fault, d0, Base() + r.offset, x);
    }

    /** Round i of veeprom_clear. */
    method ClearStep(ghost r: Request, i: nat, off: int, left: int, sectorLeft: nat,
                     ghost p: nat, fault: Faults, ghost d0: seq<byte>)
      returns (ok: bool, n: nat)
      requires Valid() && Fits(r) && Starts(r) && Reaches(r, i) && sectorLeft == startSector + r.q
      requires p == Covered(r, i) && off == r.offset + p && left == r.size - p
      requires Base() + r.offset + r.size <= dev.Length
      requires |d0| == dev.Length && dev[..] == Splice(d0, Base() + r.offset, Zeros(p))
      modifies dev, buffer
      ensures ok <==> RoundSucceeds(fault, i)
      ensures p + n == Covered(r, i + 1)
      ensures !ok ==> dev[..] == Splice(d0, Base() + r.offset, Zeros(p))
      ensures ok ==> dev[..] == Splice(d0, Base() + r.offset, Zeros(p + n))
    {
      var pos, offsetInner, operateCount := PlanRound(r, i, off, left, sectorLeft, p);
      n := operateCount;
      ok := ClearRound(i, pos, offsetInner, p, operateCount, fault, d0, Base() + r.offset);
    }

    /** How many bytes of a request the rounds before the first failing one deal with. */
    function ReadBytes(offset: nat, size: nat, fault: Faults): (done: nat)
      ensures done <= size
    {
      Covered(RequestOf(offset, size), ReadsDone(fault, 0, Count(offset, size)))
    }

    function DoneBytes(offset: nat, size: nat, fault: Faults): (done: nat)
      ensures done <= size
    {
      Covered(RequestOf(offset, size), RoundsDone(fault, 0, Count(offset, size)))
    }

    /** The request is accepted and no device call of it fails. */
    predicate ReadWorks(offset: int, size: int, fault: Faults) {
      IsParameterValid(offset, size) && ReadsDone(fault, 0, Count(offset, size)) == Count(offset, size)
    }

    predicate Works(offset: int, size: int, fault: Faults) {
      IsParameterValid(offset, size) && RoundsDone(fault, 0, Count(offset, size)) == Count(offset, size)
    }

    /** A request succeeds exactly if it is accepted and none of the device calls of its rounds fails. */
    lemma WorksExactly(offset: int, size: int, fault: Faults)
      ensures ReadWorks(offset, size, fault) <==>
              IsParameterValid(offset, size)
              && forall i: nat | i < Count(offset, size) :: !fault(i, SeekToRead) && !fault(i, Call.Read)
      ensures Works(offset, size, fault) <==>
              IsParameterValid(offset, size)
              && forall i: nat, c: Call | i < Count(offset, size) :: !fault(i, c)
    {
      var n := Count(offset, size);
      var k, j := ReadsDone(fault, 0, n), RoundsDone(fault, 0, n);
      forall i: nat | i < k ensures !fault(i, SeekToRead) && !fault(i, Call.Read) {
        assert ReadSucceeds(fault, i);
      }
      forall i: nat, c: Call | i < j ensures !fault(i, c) {
        assert RoundSucceeds(fault, i);
        match c case SeekToRead => case Read => case SeekToWrite => case Write =>
      }
      assert k < n ==> fault(k, SeekToRead) || fault(k, Call.Read);
      assert j < n ==> exists c: Call :: fault(j, c);
    }

    /** A request without failing calls is dealt with whole. */
    lemma AllBytes(offset: nat, size: nat, fault: Faults)
      requires Valid() && Defined(offset, size) && IsParameterValid(offset, size)
      ensures ReadWorks(offset, size, fault) ==> ReadBytes(offset, size, fault) == size
      ensures Works(offset, size, fault) ==> DoneBytes(offset, size, fault) == size
    {
      InStoreFits(offset, size);
      RoundsCoverAll(offset, size);
    }

    /** What the store holds for a request, nothing if it is refused or has no bytes in the store. */
    function Stored(offset: int, size: int): (s: seq<byte>)
      requires Valid() && Defined(offset, size)
      reads dev
      ensures |s| == if InStore(offset, size) then size else 0
    {
      if InStore(offset, size) then
        InStoreFits(offset, size);
        dev[..][Base() + offset..Base() + offset + size]
      else []
    }

    /** What a loop over the rounds needs to know: the request is in the store if there are any. */
    predicate MayLoop(r: Request, offset: int, size: int, sectorLeft: int, sectorCount: int) {
      && sectorCount >= 0 && Starts(r)
      && (sectorCount > 0 ==>
            && r.offset == offset && r.size == size && Fits(r)
            && sectorLeft == startSector + r.q && Reaches(r, sectorCount - 1))
    }

    /** The request, or the empty one at 0 if it names no bytes of the store. */
    function InnerRequest(offset: int, size: int): Request {
      if offset >= 0 && size >= 0 then RequestOf(offset, size) else Request(0, 0, 0)
    }

    lemma LoopStarts(offset: int, size: int)
      requires Valid() && MayAsk(offset, size) && IsParameterValid(offset, size)
      ensures MayLoop(InnerRequest(offset, size), offset, size, SectorLeft(startSector, offset), Count(offset, size))
      ensures Base() + InnerRequest(offset, size).offset + InnerRequest(offset, size).size <= dev.Length
    {
      if offset >= 0 && size >= 0 {
        InStoreFits(offset, size);
        RoundsCoverAll(offset, size);
      }
    }

    /** Lines 338-362. */
    method ReadLoop(ghost r: Request, offset: int, buf: array<byte>, size: int, fault: Faults,
                    sectorLeft: int, sectorCount: int, ghost x: seq<byte>)
      returns (ret: int)
      requires Valid() && MayLoop(r, offset, size, sectorLeft, sectorCount) && buf != dev && buf != buffer
      requires Holds(Base() + r.offset, x) && |x| == r.size <= buf.Length
      modifies buf, buffer
      ensures ret == if ReadsDone(fault, 0, sectorCount) == sectorCount then 0 else -1
      ensures buf[..] == Splice(old(buf[..]), 0, x[..Covered(r, ReadsDone(fault, 0, sectorCount))])
    {
      ghost var b0 := buf[..];
      var off, left, p: nat := offset, size, 0;
      var i: nat := 0;
      while i < sectorCount
        invariant 0 <= i <= sectorCount && p == Covered(r, i) && off == offset + p && left == size - p
        invariant ReadsDone(fault, 0, sectorCount) == ReadsDone(fault, i, sectorCount)
        invariant buf[..] == Splice(b0, 0, x[..p])
      {
        var ok, n := ReadStep(r, i, off, left, sectorLeft, buf, p, fault, b0, x);
        if !ok {
          return -1;
        }
        left, off, p := left - n, off + n, p + n;
        i := i + 1;
      }
      return 0;
    }

    /** Lines 406-446. */
    method WriteLoop(ghost r: Request, offset: int, buf: array<byte>, size: int, fault: Faults,
                     sectorLeft: int, sectorCount: int)
      returns (ret: int)
      requires Valid() && MayLoop(r, offset, size, sectorLeft, sectorCount) && buf != dev && buf != buffer
      requires Base() + r.offset + r.size <= dev.Length && r.size <= buf.Length
      modifies dev, buffer
      ensures ret == if RoundsDone(fault, 0, sectorCount) == sectorCount then 0 else -1
      ensures dev[..] == Splice(old(dev[..]), Base() + r.offset, buf[..][..Covered(r, RoundsDone(fault, 0, sectorCount))])
    {
      ghost var d, x := dev[..], buf[..];
      var off, left, p: nat := offset, size, 0;
      var i: nat := 0;
      while i < sectorCount
        invariant 0 <= i <= sectorCount && p == Covered(r, i) && off == offset + p && left == size - p
        invariant RoundsDone(fault, 0, sectorCount) == RoundsDone(fault, i, sectorCount)
        invariant dev[..] == Splice(d, Base() + r.offset, x[..p])
      {
        var ok, n := WriteStep(r, i, off, left, sectorLeft, buf, p, fault, d, x);
        if !ok {
          return -1;
        }
        left, off, p := left - n, off + n, p + n;
        i := i + 1;
      }
      return 0;
    }

    /** Lines 479-511. */
    method ClearLoop(ghost r: Request, offset: int, size: int, fault: Faults, sectorLeft: int, sectorCount: int)
      returns (ret: int)
      requires Valid() && MayLoop(r, offset, size, sectorLeft, sectorCount) && Base() + r.offset + r.size <= dev.Length
      modifies dev, buffer
      ensures ret == if RoundsDone(fault, 0, sectorCount) == sectorCount then 0 else -1
      ensures dev[..] == Splice(old(dev[..]), Base() + r.offset, Zeros(Covered(r, RoundsDone(fault, 0, sectorCount))))
    {
      ghost var d := dev[..];
      var off, left := offset, size;
      ghost var p: nat := 0;
      var i: nat := 0;
      while i < sectorCount
        invariant 0 <= i <= sectorCount && p == Covered(r, i) && off == offset + p && left == size - p
        invariant RoundsDone(fault, 0, sectorCount) == RoundsDone(fault, i, sectorCount)
        invariant dev[..] == Splice(d, Base() + r.offset, Zeros(p))
      {
        var ok, n := ClearStep(r, i, off, left, sectorLeft, p, fault, d);
        if !ok {
          return -1;
        }
        left, off, p := left - n, off + n, p + n;
        i := i + 1;
      }
      return 0;
    }

    /** veeprom_read. When a device call fails, the bytes of the completed rounds have been delivered. */
    method Read(offset: int, buf: array<byte>, size: int, fault: Faults) returns (ret: int)
      requires Valid() && MayAsk(offset, size) && size <= buf.Length && buf != dev && buf != buffer
      modifies buf, buffer
      ensures ret == if ReadWorks(offset, size, fault) then 0 else -1
      ensures if InStore(offset, size)
              then && buf[..] == Splice(old(buf[..]), 0, Stored(offset, size)[..ReadBytes(offset, size, fault)])
                   && (ret == 0 ==> ReadBytes(offset, size, fault) == size)
              else buf[..] == old(buf[..])
    {
      if !IsParameterValid(offset, size) {
        return -1;
      }
      var sectorLeft, sectorCount := Sectors(offset, size);
      ghost var r := InnerRequest(offset, size);
      LoopStarts(offset, size);
      if InStore(offset, size) { AllBytes(offset, size, fault); }
      ret := ReadLoop(r, offset, buf, size, fault, sectorLeft, sectorCount, Stored(offset, size));
    }

    /** Lines 332-334. */
    method Sectors(offset: int, size: int) returns (sectorLeft: int, sectorCount: int)
      ensures sectorLeft == SectorLeft(startSector, offset) && sectorCount == Count(offset, size)
    {
      sectorLeft := Wrap(startSector + SectorOf(offset));
      var sectorRight: int := Wrap(startSector + SectorOf(offset + size - 1));
      sectorCount := Wrap(sectorRight - sectorLeft + 1);
    }

    /** veeprom_write: the device changes in the addressed bytes only. When a device call fails, it
        holds the part of the new data that the rounds before wrote. */
    method Write(offset: int, buf: array<byte>, size: int, fault: Faults) returns (ret: int)
      requires Valid() && MayAsk(offset, size) && size <= buf.Length && buf != dev && buf != buffer
      modifies dev, buffer
      ensures ret == if Works(offset, size, fault) then 0 else -1
      ensures if InStore(offset, size)
              then && Base() + offset + size <= dev.Length
                   && dev[..] == Splice(old(dev[..]), Base() + offset, buf[..][..DoneBytes(offset, size, fault)])
                   && (ret == 0 ==> DoneBytes(offset, size, fault) == size)
              else dev[..] == old(dev[..])
    {
      if !IsParameterValid(offset, size) {
        return -1;
      }
      var sectorLeft, sectorCount := Sectors(offset, size);
      ghost var r := InnerRequest(offset, size);
      LoopStarts(offset, size);
      if InStore(offset, size) { AllBytes(offset, size, fault); }
      ret := WriteLoop(r, offset, buf, size, fault, sectorLeft, sectorCount);
    }

    /** veeprom_clear: the same rounds, with zeros. */
    method Clear(offset: int, size: int, fault: Faults) returns (ret: int)
      requires Valid() && MayAsk(offset, size)
      modifies dev, buffer
      ensures ret == if Works(offset, size, fault) then 0 else -1
      ensures if InStore(offset, size)
              then && Base() + offset + size <= dev.Length
                   && dev[..] == Splice(old(dev[..]), Base() + offset, Zeros(DoneBytes(offset, size, fault)))
                   && (ret == 0 ==> DoneBytes(offset, size, fault) == size)
              else dev[..] == old(dev[..])
    {
      if !IsParameterValid(offset, size) {
        return -1;
      }
      var sectorLeft, sectorCount := Sectors(offset, size);
      ghost var r := InnerRequest(offset, size);
      LoopStarts(offset, size);
      if InStore(offset, size) { AllBytes(offset, size, fault); }
      ret := ClearLoop(r, offset, size, fault, sectorLeft, sectorCount);
    }

    /** veeprom_format: the first 256 bytes become zero, or nothing changes. */
    method Format(fault: Faults) returns (ret: int)
      requires Valid()
      modifies dev, buffer
      ensures ret == if IsParameterValid(0, VEEPROM_MAX_SIZE) && RoundSucceeds(fault, 0) then 0 else -1
      ensures Base() + VEEPROM_MAX_SIZE <= dev.Length
      ensures dev[..] == if ret == 0 then Splice(old(dev[..]), Base(), Zeros(VEEPROM_MAX_SIZE)) else old(dev[..])
    {
      FormatIsOneRound();
      ret := Clear(0, 256, fault);
    }

    lemma FormatIsOneRound()
      requires Valid()
      ensures Defined(0, 256) && InRange(startSector, 0, 256) && Count(0, 256) == 1
    {
    }

    // Several calls.

    /** What was written is read back. */
    method WriteThenRead(offset: int, buf: array<byte>, size: int, out: array<byte>, f: Faults, g: Faults)
      returns (written: int, read: int)
      requires Valid() && MayAsk(offset, size) && size <= buf.Length && size <= out.Length
      requires buf != dev && buf != buffer && out != dev && out != buffer && out != buf
      modifies dev, buffer, out
      ensures size >= 0 && offset >= 0 && written == 0 && read == 0 ==> out[..size] == old(buf[..size])
    {
      ghost var d, o, x := dev[..], out[..], buf[..];
      written := Write(offset, buf, size, f);
      read := Read(offset, out, size, g);
      if size >= 0 && offset >= 0 && written == 0 && read == 0 {
        ReadsBack(d, dev[..], o, out[..], Base() + offset, x, size);
      }
    }

    /** What a call leaves of a change: nothing if it is refused, else the rounds before the first failure. */
    function Effect(c: Change): Op {
      if !InStore(c.offset, c.Size()) then Op(0, Zeros(0))
      else
        var done := DoneBytes(c.offset, c.Size(), c.fault);
        Op(c.offset, if c.WriteCall? then c.data[..done] else Zeros(done))
    }

    /** One call of veeprom_write or veeprom_clear. */
    method Carry(c: Change) returns (ret: int)
      requires Valid() && MayAsk(c.offset, c.Size())
      modifies dev, buffer
      ensures ret == if Works(c.offset, c.Size(), c.fault) then 0 else -1
      ensures OpFits(dev.Length, Base(), Effect(c))
      ensures dev[..] == Splice(old(dev[..]), Base() + Effect(c).offset, Effect(c).data)
    {
      if !InStore(c.offset, c.Size()) { SpliceNothing(dev[..], Base()); }
      match c
      case WriteCall(offset, data, fault) =>
        var buf := new byte[|data|](i requires 0 <= i < |data| => data[i]);
        assert buf[..] == data;
        ret := Write(offset, buf, |data|, fault);
      case ClearCall(offset, size, fault) =>
        ret := Clear(offset, size, fault);
    }

    function LogOf(cs: seq<Change>): Log {
      if cs == [] then Start else Then(LogOf(cs[..|cs| - 1]), Effect(cs[|cs| - 1]))
    }

    predicate AllMayBeAsked(cs: seq<Change>) {
      cs == [] || (AllMayBeAsked(cs[..|cs| - 1]) && MayAsk(cs[|cs| - 1].offset, cs[|cs| - 1].Size()))
    }

    /** Any sequence of calls, refused and failing ones among them, leaves on the device what Apply says:
        each byte of the store is the one last put there. */
    method History(cs: seq<Change>)
      requires Valid() && AllMayBeAsked(cs)
      modifies dev, buffer
      ensures LogFits(dev.Length, Base(), LogOf(cs)) && dev[..] == Apply(old(dev[..]), Base(), LogOf(cs))
      decreases |cs|
    {
      if cs != [] {
        var m := |cs| - 1;
        History(cs[..m]);
        var _ := Carry(cs[m]);
      }
    }
  }

  /** memcpy(dst + to, src + from, n) */
  method Copy(dst: array<byte>, to: nat, src: array<byte>, from: nat, n: nat)
    requires dst != src && to + n <= dst.Length && from + n <= src.Length
    modifies dst
    ensures dst[..] == Splice(old(dst[..]), to, src[from..from + n])
  {
    var k := 0;
    while k < n
      invariant 0 <= k <= n
      invariant forall x | 0 <= x < dst.Length :: dst[x] == if to <= x < to + k then src[from + (x - to)] else old(dst[x])
    {
      dst[to + k] := src[from + k];
      k := k + 1;
    }
    SpliceIs(dst[..], old(dst[..]), to, src[from..from + n]);
  }

  /** memset(dst + to, 0, n) */
  method SetZero(dst: array<byte>, to: nat, n: nat)
    requires to + n <= dst.Length
    modifies dst
    ensures dst[..] == Splice(old(dst[..]), to, Zeros(n))
  {
    var k := 0;
    while k < n
      invariant 0 <= k <= n
      invariant forall x | 0 <= x < dst.Length :: dst[x] == if to <= x < to + k then 0 else old(dst[x])
    {
      dst[to + k] := 0;
      k := k + 1;
    }
    SpliceIs(dst[..], old(dst[..]), to, Zeros(n));
  }

  // ---------- the fields kept in the store (veeprom.h lines 14-51): offset and size ----------

  const FIELDS: seq<(nat, nat)> := [
    (0, 2), (2, 6), (8, 1), (9, 8), (17, 4), (21, 4), (25, 4), (29, 8), (37, 1), (38, 1), (39, 1),
    (40, 16), (56, 10), (66, 64), (130, 1), (131, 1), (132, 4), (220, 32)]

  function Field(d: seq<byte>, base: nat, f: (nat, nat)): seq<byte>
    requires base + f.0 + f.1 <= |d|
  {
    d[base + f.0..base + f.0 + f.1]
  }

  lemma FieldsApart(i: nat, j: nat)
    requires i < j < |FIELDS|
    ensures FIELDS[i].0 + FIELDS[i].1 <= FIELDS[j].0
    ensures FIELDS[j].0 + FIELDS[j].1 <= VEEPROM_MAX_SIZE - 4
    decreases j - i
  {
    if i + 1 < j { FieldsApart(i + 1, j); }
  }

  /** The operation stays inside field i. */
  predicate WithinField(op: Op, i: nat)
    requires i < |FIELDS|
  {
    FIELDS[i].0 <= op.offset && op.offset + |op.data| <= FIELDS[i].0 + FIELDS[i].1
  }

  ghost predicate WithinOther(op: Op, j: nat) {
    exists i: nat :: i < |FIELDS| && i != j && WithinField(op, i)
  }

  lemma FieldNotCovered(op: Op, j: nat, a: nat)
    requires WithinOther(op, j) && j < |FIELDS| && FIELDS[j].0 <= a < FIELDS[j].0 + FIELDS[j].1
    ensures !Covers(op, a)
  {
    var i: nat :| i < |FIELDS| && i != j && WithinField(op, i);
    if i < j { FieldsApart(i, j); } else { FieldsApart(j, i); }
  }

  ghost predicate LogWithinOthers(log: Log, j: nat) {
    log.Then? ==> LogWithinOthers(log.before, j) && WithinOther(log.op, j)
  }

  lemma {:induction false} FieldNeverCovered(log: Log, j: nat, a: nat)
    requires LogWithinOthers(log, j)
    requires j < |FIELDS| && FIELDS[j].0 <= a < FIELDS[j].0 + FIELDS[j].1
    ensures LastValue(log, a) == None
  {
    if log.Then? {
      FieldNeverCovered(log.before, j, a);
      FieldNotCovered(log.op, j, a);
    }
  }

  /** A history that writes and clears only inside other fields leaves field j as it was. */
  lemma FieldsIndependent(d: seq<byte>, base: nat, log: Log, j: nat)
    requires LogFits(|d|, base, log) && j < |FIELDS| && base + VEEPROM_MAX_SIZE <= |d|
    requires LogWithinOthers(log, j)
    ensures base + FIELDS[j].0 + FIELDS[j].1 <= |d|
    ensures Field(Apply(d, base, log), base, FIELDS[j]) == Field(d, base, FIELDS[j])
  {
    FieldInside(j);
    var lo, hi := base + FIELDS[j].0, base + FIELDS[j].0 + FIELDS[j].1;
    forall i | lo <= i < hi ensures Apply(d, base, log)[i] == d[i] {
      LastWriteWins(d, base, log, i - base);
      FieldNeverCovered(log, j, i - base);
    }
    SameStretch(Apply(d, base, log), d, lo, hi);
  }

  lemma SameStretch(d: seq<byte>, e: seq<byte>, lo: nat, hi: nat)
    requires |d| == |e| && lo <= hi <= |d| && forall i | lo <= i < hi :: d[i] == e[i]
    ensures d[lo..hi] == e[lo..hi]
  {
  }

  lemma FieldInside(j: nat)
    requires j < |FIELDS|
    ensures FIELDS[j].0 + FIELDS[j].1 <= VEEPROM_MAX_SIZE
  {
    if j > 0 { FieldsApart(0, j); }
  }
}
