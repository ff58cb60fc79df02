/** Application/ipc/mutex_cond/mutex_cond.c: any number of producers and consumers over one buffer,
    two mutexes and a condition variable. Every statement of a thread is one step; a sleeping thread
    may also wake for no reason. */
module MutexCond {
  import opened Wrappers

  const MAXSIZE := 102400

  type Tid = nat

  /** Where a thread stands: P... in produce (lines 74-93), C... in consume (lines 105-128). */
  datatype PC =
    | PLock | PTest | PResetPut | PResetVal | PStore | PIncVal | PIncPut | PUnlock
    | PLockC | PTestReady | PSignal | PPost | PUnlockC
    | CLockC | CTest | CWait | CAsleep | CRelock | CTake | CUnlockC
    | CLockP | CCount | CTestCnt | CLeave | CDone | CTestBuf | CPrint | CClear | CUnlockP

  /** What the threads share: the two mutexes (their owners), the fields of producer and consumer, cnt,
      the lines printed, and how often a value was stored, nready raised and nready lowered. */
  datatype Shared = Shared(
    pm: Option<Tid>, cm: Option<Tid>,
    buf: seq<int>, nput: int, nval: int,
    nready: int, cnt: int,
    printed: seq<(int, int)>,
    puts: nat, posts: nat, takes: nat)

  datatype State = State(sh: Shared, pcs: map<Tid, PC>)

  function Init(producers: set<Tid>, consumers: set<Tid>): State {
    State(Shared(None, None, seq(MAXSIZE, _ => 0), 0, 0, 0, 0, [], 0, 0, 0),
          map t | t in producers + consumers :: if t in producers then PLock else CLockC)
  }

  /** One statement of thread t, for nitems == n: the new shared state and where t goes on. None when
      t is blocked or finished, or is about to index past the buffer. */
  function Local(n: int, sh: Shared, t: Tid, pc: PC): Option<(Shared, PC)> {
    match pc
    case PLock => if sh.pm == None then Some((sh.(pm := Some(t)), PTest)) else None
    case PTest => Some((sh, if sh.nput >= n then PResetPut else PStore))
    case PResetPut => Some((sh.(nput := 0), PResetVal))
    case PResetVal => Some((sh.(nval := 0), PStore))
    case PStore =>
      if 0 <= sh.nput < |sh.buf|
      then Some((sh.(buf := sh.buf[sh.nput := sh.nval], puts := sh.puts + 1), PIncVal))
      else None
    case PIncVal => Some((sh.(nval := sh.nval + 1), PIncPut))
    case PIncPut => Some((sh.(nput := sh.nput + 1), PUnlock))
    case PUnlock => Some((sh.(pm := None), PLockC))
    case PLockC => if sh.cm == None then Some((sh.(cm := Some(t)), PTestReady)) else None
    case PTestReady => Some((sh, if sh.nready == 0 then PSignal else PPost))
    case PSignal => Some((sh, PPost))
    case PPost => Some((sh.(nready := sh.nready + 1, posts := sh.posts + 1), PUnlockC))
    case PUnlockC => Some((sh.(cm := None), PLock))
    case CLockC => if sh.cm == None then Some((sh.(cm := Some(t)), CTest)) else None
    case CTest => Some((sh, if sh.nready == 0 then CWait else CTake))
    case CWait => Some((sh.(cm := None), CAsleep))
    case CAsleep => None
    case CRelock => if sh.cm == None then Some((sh.(cm := Some(t)), CTest)) else None
    case CTake => Some((sh.(nready := sh.nready - 1, takes := sh.takes + 1), CUnlockC))
    case CUnlockC => Some((sh.(cm := None), CLockP))
    case CLockP => if sh.pm == None then Some((sh.(pm := Some(t)), CCount)) else None
    case CCount => Some((sh.(cnt := sh.cnt + 1), CTestCnt))
    case CTestCnt => Some((sh, if sh.cnt >= n then CLeave else CTestBuf))
    case CLeave => Some((sh.(pm := None), CDone))
    case CDone => None
    case CTestBuf =>
      if 0 <= sh.cnt < |sh.buf| then Some((sh, if sh.buf[sh.cnt] != 0 then CPrint else CUnlockP)) else None
    case CPrint =>
      if 0 <= sh.cnt < |sh.buf|
      then Some((sh.(printed := sh.printed + [(sh.cnt, sh.buf[sh.cnt])]), CClear))
      else None
    case CClear =>
      if 0 <= sh.cnt < |sh.buf| then Some((sh.(buf := sh.buf[sh.cnt := 0]), CUnlockP)) else None
    case CUnlockP => Some((sh.(pm := None), CLockC))
  }

  /** A step of the whole program: thread t goes on; thread t signals and w wakes; t wakes unprovoked. */
  datatype Act = Go(t: Tid) | Signal(t: Tid, w: Tid) | Spurious(t: Tid)

  ghost predicate SomeoneAsleep(s: State) {
    exists w :: w in s.pcs && s.pcs[w] == CAsleep
  }

  /** pthread_cond_signal wakes some sleeper when there is one; further ones may wake spuriously. */
  ghost function Next(n: int, s: State, act: Act): Option<State> {
    match act
    case Go(t) =>
      if t in s.pcs && (s.pcs[t] == PSignal ==> !SomeoneAsleep(s)) then
        match Local(n, s.sh, t, s.pcs[t]) {
          case None => None
          case Some((sh, pc)) => Some(State(sh, s.pcs[t := pc]))
        }
      else None
    case Signal(t, w) =>
      if t in s.pcs && s.pcs[t] == PSignal && w in s.pcs && s.pcs[w] == CAsleep
      then Some(State(s.sh, s.pcs[t := PPost][w := CRelock]))
      else None
    case Spurious(t) =>
      if t in s.pcs && s.pcs[t] == CAsleep then Some(s.(pcs := s.pcs[t := CRelock])) else None
  }

  ghost function Exec(n: int, s: State, acts: seq<Act>): Option<State> {
    if acts == [] then Some(s)
    else match Exec(n, s, acts[..|acts| - 1])
         case None => None
         case Some(t) => Next(n, t, acts[|acts| - 1])
  }

  ghost predicate Reachable(n: int, producers: set<Tid>, consumers: set<Tid>, s: State) {
    exists acts :: Exec(n, Init(producers, consumers), acts) == Some(s)
  }

  // ---------- who holds the mutexes ----------

  predicate HoldsP(pc: PC) {
    || pc.PTest? || pc.PResetPut? || pc.PResetVal? || pc.PStore? || pc.PIncVal? || pc.PIncPut? || pc.PUnlock?
    || pc.CCount? || pc.CTestCnt? || pc.CLeave? || pc.CTestBuf? || pc.CPrint? || pc.CClear? || pc.CUnlockP?
  }

  predicate HoldsC(pc: PC) {
    || pc.PTestReady? || pc.PSignal? || pc.PPost? || pc.PUnlockC?
    || pc.CTest? || pc.CWait? || pc.CTake? || pc.CUnlockC?
  }

  ghost predicate Owners(s: State) {
    && (s.sh.pm.Some? ==> s.sh.pm.value in s.pcs)
    && (s.sh.cm.Some? ==> s.sh.cm.value in s.pcs)
    && (forall t | t in s.pcs :: HoldsP(s.pcs[t]) <==> s.sh.pm == Some(t))
    && (forall t | t in s.pcs :: HoldsC(s.pcs[t]) <==> s.sh.cm == Some(t))
  }

  /** m is a mutex before and m' after a statement of t; in and in' say whether t is in its section. */
  ghost predicate Handover(m: Option<Tid>, m': Option<Tid>, t: Tid, inside: bool, inside': bool) {
    && (inside' <==> m' == Some(t))
    && (m' == m || (m == None && m' == Some(t)) || (m == Some(t) && m' == None))
  }

  /** A statement takes or gives up producer.mutex exactly as its thread moves in or out of the section. */
  lemma ProducerMutexHandover(n: int, sh: Shared, t: Tid, pc: PC)
    requires HoldsP(pc) <==> sh.pm == Some(t)
    requires Local(n, sh, t, pc).Some?
    ensures var (sh', pc') := Local(n, sh, t, pc).value; Handover(sh.pm, sh'.pm, t, HoldsP(pc), HoldsP(pc'))
  {
  }

  lemma ConsumerMutexHandover(n: int, sh: Shared, t: Tid, pc: PC)
    requires HoldsC(pc) <==> sh.cm == Some(t)
    requires Local(n, sh, t, pc).Some?
    ensures var (sh', pc') := Local(n, sh, t, pc).value; Handover(sh.cm, sh'.cm, t, HoldsC(pc), HoldsC(pc'))
  {
  }

  lemma OwnersAfter(s: State, t: Tid, sh': Shared, pc': PC)
    requires Owners(s) && t in s.pcs
    requires Handover(s.sh.pm, sh'.pm, t, HoldsP(s.pcs[t]), HoldsP(pc'))
    requires Handover(s.sh.cm, sh'.cm, t, HoldsC(s.pcs[t]), HoldsC(pc'))
    ensures Owners(State(sh', s.pcs[t := pc']))
  {
  }

  lemma OwnersKept(n: int, s: State, act: Act)
    requires Owners(s) && Next(n, s, act).Some?
    ensures Owners(Next(n, s, act).value)
  {
    match act
    case Go(t) =>
      ProducerMutexHandover(n, s.sh, t, s.pcs[t]);
      ConsumerMutexHandover(n, s.sh, t, s.pcs[t]);
      var (sh', pc') := Local(n, s.sh, t, s.pcs[t]).value;
      OwnersAfter(s, t, sh', pc');
    case Signal(t, w) =>
      OwnersAfter(s, t, s.sh, PPost);
      OwnersAfter(State(s.sh, s.pcs[t := PPost]), w, s.sh, CRelock);
    case Spurious(t) =>
      OwnersAfter(s, t, s.sh, CRelock);
  }

  /** What the owner of a mutex is about to do, None when the mutex is free. */
  function At(m: Option<Tid>, pcs: map<Tid, PC>): Option<PC> {
    if m.Some? && m.value in pcs then Some(pcs[m.value]) else None
  }

  // ---------- what producer.mutex protects ----------

  predicate Stored(own: Option<PC>) { own == Some(PIncVal) || own == Some(PIncPut) }

  /** nput, nval and puts when the owner of producer.mutex is about to do own. */
  ghost predicate Counters(n: int, sh: Shared, own: Option<PC>) {
    && sh.nput >= 0
    && (if own == Some(PResetVal) then sh.nput == 0 && sh.puts >= n
        else if own == Some(PIncPut) then sh.nval == sh.nput + 1
        else sh.nput == sh.nval)
    && (sh.nput < n || sh.nput == 0 || (sh.nput <= (if n < 1 then 1 else n) && own != Some(PStore) && !Stored(own)))
    && (own == Some(PResetPut) ==> sh.nput >= n)
    // the first lap is still being written, or every index has been
    && (sh.puts >= n || sh.puts == sh.nput + if Stored(own) then 1 else 0)
  }

  /** The first index whose turn to be printed has not come. */
  function FirstOpen(sh: Shared, own: Option<PC>): int {
    if own == Some(CTestCnt) || own == Some(CTestBuf) || own == Some(CPrint) then sh.cnt else sh.cnt + 1
  }

  /** The cells of the buffer and cnt. */
  ghost predicate Cells(n: int, sh: Shared, own: Option<PC>) {
    && |sh.buf| == MAXSIZE && sh.cnt >= 0
    // a cell holds its own index or nothing; before its turn it holds it exactly if it was written
    && (forall k | 0 <= k < MAXSIZE :: sh.buf[k] == 0 || sh.buf[k] == k)
    && (forall k | FirstOpen(sh, own) <= k < n && k < MAXSIZE :: sh.buf[k] == if sh.puts > k then k else 0)
    && (own == Some(CTestCnt) ==> 0 < sh.cnt)
    && (own == Some(CTestBuf) || own == Some(CPrint) || own == Some(CClear) ==> 0 < sh.cnt < n)
    && (own == Some(CPrint) ==> sh.cnt < MAXSIZE && sh.buf[sh.cnt] == sh.cnt)
    && (own == Some(CLeave) ==> sh.cnt >= n)
    // whoever is about to look past the buffer never gets further
    && (n > MAXSIZE ==> sh.cnt < MAXSIZE || (sh.cnt == MAXSIZE && (own == Some(CTestCnt) || own == Some(CTestBuf))))
  }

  /** The lines printed so far. */
  ghost predicate Lines(n: int, sh: Shared, own: Option<PC>) {
    && (forall i | 0 <= i < |sh.printed| ::
          sh.printed[i].0 == sh.printed[i].1 && 0 < sh.printed[i].0 < FirstOpen(sh, own) && sh.printed[i].0 < n)
    && (forall i, j | 0 <= i < j < |sh.printed| :: sh.printed[i].0 < sh.printed[j].0)
  }

  /** What producer.mutex protects, when its owner is about to do own (None: the mutex is free). */
  ghost predicate Data(n: int, sh: Shared, own: Option<PC>) {
    Counters(n, sh, own) && Cells(n, sh, own) && Lines(n, sh, own)
  }

  predicate TouchesData(pc: PC) { HoldsP(pc) || pc == PLock || pc == CLockP }

  function Own(pc: PC): Option<PC> { if HoldsP(pc) then Some(pc) else None }

  lemma CountersKept(n: int, sh: Shared, t: Tid, pc: PC)
    requires Counters(n, sh, Own(pc)) && TouchesData(pc) && Local(n, sh, t, pc).Some?
    ensures var (sh', pc') := Local(n, sh, t, pc).value; Counters(n, sh', Own(pc'))
  {
  }

  lemma StoreKeepsCells(n: int, sh: Shared, t: Tid)
    requires Counters(n, sh, Some(PStore)) && Cells(n, sh, Some(PStore)) && Local(n, sh, t, PStore).Some?
    ensures Cells(n, Local(n, sh, t, PStore).value.0, Some(PIncVal))
  {
  }

  predicate InConsume(pc: PC) {
    || pc.CLockP? || pc.CCount? || pc.CTestCnt? || pc.CLeave? || pc.CTestBuf? || pc.CPrint? || pc.CClear? || pc.CUnlockP?
  }

  /** Every other statement of a producer leaves the cells alone. */
  lemma ProducerKeepsCells(n: int, sh: Shared, t: Tid, pc: PC)
    requires TouchesData(pc) && !InConsume(pc) && pc != PStore
    requires Cells(n, sh, Own(pc)) && Local(n, sh, t, pc).Some?
    ensures var (sh', pc') := Local(n, sh, t, pc).value; Cells(n, sh', Own(pc'))
  {
  }

  /** A consumer clears only the cell whose turn has passed. */
  lemma ConsumerKeepsCells(n: int, sh: Shared, t: Tid, pc: PC)
    requires InConsume(pc) && Cells(n, sh, Own(pc)) && Local(n, sh, t, pc).Some?
    ensures var (sh', pc') := Local(n, sh, t, pc).value; Cells(n, sh', Own(pc'))
  {
  }

  lemma ProducerKeepsLines(n: int, sh: Shared, t: Tid, pc: PC)
    requires TouchesData(pc) && !InConsume(pc) && Lines(n, sh, Own(pc)) && Local(n, sh, t, pc).Some?
    ensures var (sh', pc') := Local(n, sh, t, pc).value; Lines(n, sh', Own(pc'))
  {
  }

  lemma ConsumerKeepsLines(n: int, sh: Shared, t: Tid, pc: PC)
    requires InConsume(pc) && Cells(n, sh, Own(pc)) && Lines(n, sh, Own(pc)) && Local(n, sh, t, pc).Some?
    ensures var (sh', pc') := Local(n, sh, t, pc).value; Lines(n, sh', Own(pc'))
  {
  }

  lemma DataKept(n: int, sh: Shared, t: Tid, pc: PC)
    requires Data(n, sh, Own(pc)) && TouchesData(pc) && Local(n, sh, t, pc).Some?
    ensures var (sh', pc') := Local(n, sh, t, pc).value; Data(n, sh', Own(pc'))
  {
    CountersKept(n, sh, t, pc);
    if pc == PStore {
      StoreKeepsCells(n, sh, t);
    } else if InConsume(pc) {
      ConsumerKeepsCells(n, sh, t, pc);
    } else {
      ProducerKeepsCells(n, sh, t, pc);
    }
    if InConsume(pc) { ConsumerKeepsLines(n, sh, t, pc); } else { ProducerKeepsLines(n, sh, t, pc); }
  }

  /** A step outside the section of producer.mutex leaves all it protects alone. */
  lemma OutsideSection(n: int, sh: Shared, t: Tid, pc: PC, own: Option<PC>)
    requires !TouchesData(pc) && Local(n, sh, t, pc).Some? && Data(n, sh, own)
    ensures var (sh', pc') := Local(n, sh, t, pc).value; !HoldsP(pc') && sh'.pm == sh.pm && Data(n, sh', own)
  {
    OutsideTouches(n, sh, t, pc);
    DataElsewhere(n, sh, Local(n, sh, t, pc).value.0, own);
  }

  lemma OutsideTouches(n: int, sh: Shared, t: Tid, pc: PC)
    requires !TouchesData(pc) && Local(n, sh, t, pc).Some?
    ensures var (sh', pc') := Local(n, sh, t, pc).value;
            !HoldsP(pc') && sh' == sh.(cm := sh'.cm, nready := sh'.nready, posts := sh'.posts, takes := sh'.takes)
  {
  }

  lemma DataElsewhere(n: int, sh: Shared, sh': Shared, own: Option<PC>)
    requires Data(n, sh, own)
    requires sh' == sh.(cm := sh'.cm, nready := sh'.nready, posts := sh'.posts, takes := sh'.takes)
    ensures Data(n, sh', own)
  {
  }

  // ---------- what consumer.mutex protects ----------

  ghost predicate Ready(sh: Shared, own: Option<PC>) {
    && sh.nready == sh.posts - sh.takes
    && sh.nready >= 0
    && (own == Some(CTake) ==> sh.nready > 0)
    && (own == Some(CWait) ==> sh.nready == 0)
  }

  function OwnC(pc: PC): Option<PC> { if HoldsC(pc) then Some(pc) else None }

  predicate TouchesReady(pc: PC) { HoldsC(pc) || pc == PLockC || pc == CLockC || pc == CRelock }

  lemma ReadyKept(n: int, sh: Shared, t: Tid, pc: PC, own: Option<PC>)
    requires Ready(sh, own) && Local(n, sh, t, pc).Some?
    requires TouchesReady(pc) ==> own == OwnC(pc)
    ensures var (sh', pc') := Local(n, sh, t, pc).value;
            Ready(sh', if TouchesReady(pc) then OwnC(pc') else own)
  {
  }

  lemma OutsideReady(n: int, sh: Shared, t: Tid, pc: PC)
    requires !TouchesReady(pc) && Local(n, sh, t, pc).Some?
    ensures var (sh', pc') := Local(n, sh, t, pc).value; !HoldsC(pc') && sh'.cm == sh.cm
  {
  }

  // ---------- items on their way ----------

  /** Producers that have stored an item but not announced it, consumers that have taken one but not counted it. */
  predicate Carrying(pc: PC) {
    pc.PIncVal? || pc.PIncPut? || pc.PUnlock? || pc.PLockC? || pc.PTestReady? || pc.PSignal? || pc.PPost?
  }

  predicate Fetching(pc: PC) { pc.CUnlockC? || pc.CLockP? || pc.CCount? }

  function Carriers(pcs: map<Tid, PC>): set<Tid> { set t | t in pcs && Carrying(pcs[t]) }
  function Fetchers(pcs: map<Tid, PC>): set<Tid> { set t | t in pcs && Fetching(pcs[t]) }

  ghost predicate Flow(s: State) {
    && s.sh.puts == s.sh.posts + |Carriers(s.pcs)|
    && s.sh.takes == s.sh.cnt + |Fetchers(s.pcs)|
  }

  lemma CarriersAfter(pcs: map<Tid, PC>, t: Tid, pc: PC)
    requires t in pcs
    ensures |Carriers(pcs[t := pc])| ==
            |Carriers(pcs)| - (if Carrying(pcs[t]) then 1 else 0) + if Carrying(pc) then 1 else 0
  {
    assert Carriers(pcs[t := pc]) == if Carrying(pc) then Carriers(pcs) + {t} else Carriers(pcs) - {t};
  }

  lemma FetchersAfter(pcs: map<Tid, PC>, t: Tid, pc: PC)
    requires t in pcs
    ensures |Fetchers(pcs[t := pc])| ==
            |Fetchers(pcs)| - (if Fetching(pcs[t]) then 1 else 0) + if Fetching(pc) then 1 else 0
  {
    assert Fetchers(pcs[t := pc]) == if Fetching(pc) then Fetchers(pcs) + {t} else Fetchers(pcs) - {t};
  }

  lemma LocalFlow(n: int, sh: Shared, t: Tid, pc: PC)
    requires Local(n, sh, t, pc).Some?
    ensures var (sh', pc') := Local(n, sh, t, pc).value;
            && (sh'.puts - sh'.posts) - (sh.puts - sh.posts)
               == (if Carrying(pc') then 1 else 0) - (if Carrying(pc) then 1 else 0)
            && (sh'.takes - sh'.cnt) - (sh.takes - sh.cnt)
               == (if Fetching(pc') then 1 else 0) - (if Fetching(pc) then 1 else 0)
  {
  }

  lemma FlowKept(n: int, s: State, act: Act)
    requires Flow(s) && Next(n, s, act).Some?
    ensures Flow(Next(n, s, act).value)
  {
    match act
    case Go(t) =>
      LocalFlow(n, s.sh, t, s.pcs[t]);
      var (sh', pc') := Local(n, s.sh, t, s.pcs[t]).value;
      CarriersAfter(s.pcs, t, pc');
      FetchersAfter(s.pcs, t, pc');
    case Signal(t, w) =>
      CarriersAfter(s.pcs, t, PPost);
      FetchersAfter(s.pcs, t, PPost);
      CarriersAfter(s.pcs[t := PPost], w, CRelock);
      FetchersAfter(s.pcs[t := PPost], w, CRelock);
    case Spurious(t) =>
      CarriersAfter(s.pcs, t, CRelock);
      FetchersAfter(s.pcs, t, CRelock);
  }

  // ---------- every reachable state ----------

  ghost predicate Inv(n: int, s: State) {
    && Owners(s)
    && Data(n, s.sh, At(s.sh.pm, s.pcs))
    && Ready(s.sh, At(s.sh.cm, s.pcs))
    && Flow(s)
  }

  lemma DataKeptByAll(n: int, s: State, t: Tid)
    requires Owners(s) && Data(n, s.sh, At(s.sh.pm, s.pcs)) && Next(n, s, Go(t)).Some?
    ensures var s' := Next(n, s, Go(t)).value; Data(n, s'.sh, At(s'.sh.pm, s'.pcs))
  {
    var pc := s.pcs[t];
    var (sh', pc') := Local(n, s.sh, t, pc).value;
    OwnersKept(n, s, Go(t));
    if TouchesData(pc) {
      assert At(s.sh.pm, s.pcs) == Own(pc);
      DataKept(n, s.sh, t, pc);
      assert At(sh'.pm, s.pcs[t := pc']) == Own(pc');
    } else {
      OutsideSection(n, s.sh, t, pc, At(s.sh.pm, s.pcs));
      assert At(sh'.pm, s.pcs[t := pc']) == At(s.sh.pm, s.pcs);
    }
  }

  lemma ReadyKeptByAll(n: int, s: State, t: Tid)
    requires Owners(s) && Ready(s.sh, At(s.sh.cm, s.pcs)) && Next(n, s, Go(t)).Some?
    ensures var s' := Next(n, s, Go(t)).value; Ready(s'.sh, At(s'.sh.cm, s'.pcs))
  {
    var pc := s.pcs[t];
    var (sh', pc') := Local(n, s.sh, t, pc).value;
    OwnersKept(n, s, Go(t));
    ReadyKept(n, s.sh, t, pc, At(s.sh.cm, s.pcs));
    if TouchesReady(pc) {
      assert At(sh'.cm, s.pcs[t := pc']) == OwnC(pc');
    } else {
      OutsideReady(n, s.sh, t, pc);
      assert At(sh'.cm, s.pcs[t := pc']) == At(s.sh.cm, s.pcs);
    }
  }

  lemma InvKept(n: int, s: State, act: Act)
    requires Inv(n, s) && Next(n, s, act).Some?
    ensures Inv(n, Next(n, s, act).value)
  {
    OwnersKept(n, s, act);
    FlowKept(n, s, act);
    if act.Go? {
      DataKeptByAll(n, s, act.t);
      ReadyKeptByAll(n, s, act.t);
    } else {
      WakingKeepsOwners(n, s, act);
    }
  }

  /** Signals and spurious wakeups touch nothing that is shared. */
  lemma WakingKeepsOwners(n: int, s: State, act: Act)
    requires Owners(s) && Ready(s.sh, At(s.sh.cm, s.pcs)) && Next(n, s, act).Some? && !act.Go?
    ensures var s' := Next(n, s, act).value;
            s'.sh == s.sh && At(s.sh.pm, s'.pcs) == At(s.sh.pm, s.pcs) && Ready(s.sh, At(s.sh.cm, s'.pcs))
  {
  }

  lemma InitInv(n: int, producers: set<Tid>, consumers: set<Tid>)
    ensures Inv(n, Init(producers, consumers))
  {
    var s := Init(producers, consumers);
    assert Carriers(s.pcs) == {} && Fetchers(s.pcs) == {};
  }

  lemma {:induction false} ExecInv(n: int, producers: set<Tid>, consumers: set<Tid>, acts: seq<Act>)
    requires Exec(n, Init(producers, consumers), acts).Some?
    ensures Inv(n, Exec(n, Init(producers, consumers), acts).value)
  {
    if acts == [] {
      InitInv(n, producers, consumers);
    } else {
      var m := |acts| - 1;
      ExecInv(n, producers, consumers, acts[..m]);
      InvKept(n, Exec(n, Init(producers, consumers), acts[..m]).value, acts[m]);
    }
  }

  lemma ReachableInv(n: int, producers: set<Tid>, consumers: set<Tid>, s: State)
    requires Reachable(n, producers, consumers, s)
    ensures Inv(n, s)
  {
    var acts :| Exec(n, Init(producers, consumers), acts) == Some(s);
    ExecInv(n, producers, consumers, acts);
  }

  // ---------- main results ----------

  /** Whenever producer.mutex is free, nput equals nval and every cell is empty or holds its index. */
  lemma BufferWhenFree(n: int, producers: set<Tid>, consumers: set<Tid>, s: State)
    requires Reachable(n, producers, consumers, s) && s.sh.pm == None
    ensures s.sh.nput == s.sh.nval
    ensures |s.sh.buf| == MAXSIZE && forall k | 0 <= k < MAXSIZE :: s.sh.buf[k] == 0 || s.sh.buf[k] == k
  {
    ReachableInv(n, producers, consumers, s);
  }

  /** Every line shows an index with its own value; indices only go up, so none is printed twice. */
  lemma LinesInOrder(n: int, producers: set<Tid>, consumers: set<Tid>, s: State)
    requires Reachable(n, producers, consumers, s)
    ensures forall i | 0 <= i < |s.sh.printed| :: s.sh.printed[i].0 == s.sh.printed[i].1 && 0 < s.sh.printed[i].0 < n
    ensures forall i, j | 0 <= i < j < |s.sh.printed| :: s.sh.printed[i].0 < s.sh.printed[j].0
  {
    ReachableInv(n, producers, consumers, s);
  }

  /** A consumer whose turn is index cnt prints it exactly if more than cnt values were stored by then;
      otherwise the index is passed over for good. */
  lemma PrintedExactlyIfStored(n: int, producers: set<Tid>, consumers: set<Tid>, s: State, t: Tid)
    requires Reachable(n, producers, consumers, s)
    requires t in s.pcs && s.pcs[t] == CTestBuf && Next(n, s, Go(t)).Some?
    ensures Next(n, s, Go(t)).value.pcs[t] == if s.sh.puts > s.sh.cnt then CPrint else CUnlockP
  {
    ReachableInv(n, producers, consumers, s);
  }

  /** Nothing is lost or made up on the way from store to count. */
  lemma ItemsConserved(n: int, producers: set<Tid>, consumers: set<Tid>, s: State)
    requires Reachable(n, producers, consumers, s)
    ensures s.sh.nready == s.sh.posts - s.sh.takes >= 0
    ensures s.sh.puts == s.sh.cnt + |Fetchers(s.pcs)| + s.sh.nready + |Carriers(s.pcs)|
    ensures 0 <= s.sh.cnt <= s.sh.takes <= s.sh.posts <= s.sh.puts
  {
    ReachableInv(n, producers, consumers, s);
  }

  /** nready is lowered only when it is positive, however the sleepers were woken. */
  lemma TakeFindsItem(n: int, producers: set<Tid>, consumers: set<Tid>, s: State, t: Tid)
    requires Reachable(n, producers, consumers, s) && t in s.pcs && s.pcs[t] == CTake
    ensures s.sh.nready > 0
  {
    ReachableInv(n, producers, consumers, s);
  }

  lemma MutualExclusion(n: int, producers: set<Tid>, consumers: set<Tid>, s: State, t: Tid, u: Tid)
    requires Reachable(n, producers, consumers, s) && t in s.pcs && u in s.pcs
    requires (HoldsP(s.pcs[t]) && HoldsP(s.pcs[u])) || (HoldsC(s.pcs[t]) && HoldsC(s.pcs[u]))
    ensures t == u
  {
    ReachableInv(n, producers, consumers, s);
  }

  // ---------- undisturbed turns of one thread, for building runs ----------

  lemma ReachableNext(n: int, producers: set<Tid>, consumers: set<Tid>, s: State, act: Act)
    requires Reachable(n, producers, consumers, s) && Next(n, s, act).Some?
    ensures Reachable(n, producers, consumers, Next(n, s, act).value)
  {
    var acts :| Exec(n, Init(producers, consumers), acts) == Some(s);
    assert (acts + [act])[..|acts|] == acts;
    assert Exec(n, Init(producers, consumers), acts + [act]) == Next(n, s, act);
  }

  predicate Busy(pc: PC) {
    || pc.PTest? || pc.PResetPut? || pc.PResetVal? || pc.PStore? || pc.PIncVal? || pc.PIncPut? || pc.PUnlock?
    || pc.PLockC? || pc.PTestReady? || pc.PSignal? || pc.PPost? || pc.PUnlockC?
  }

  function StepsLeft(pc: PC): nat {
    match pc
    case PTest => 12 case PResetPut => 11 case PResetVal => 10 case PStore => 9 case PIncVal => 8
    case PIncPut => 7 case PUnlock => 6 case PLockC => 5 case PTestReady => 4 case PSignal => 3
    case PPost => 2 case PUnlockC => 1
    case CTest => 11 case CTake => 10 case CUnlockC => 9 case CLockP => 8 case CCount => 7 case CTestCnt => 6
    case CTestBuf => 5 case CPrint => 4 case CClear => 3 case CUnlockP => 2 case CLeave => 1
    case _ => 0
  }

  /** The other threads while p has its turn: the one to be signalled, if any, is woken on the way. */
  function Others(s0: State, woken: Option<Tid>, pc: PC): map<Tid, PC> {
    if woken.Some? && s0.sh.nready == 0 && (pc.PPost? || pc.PUnlockC? || pc.PLock?) then s0.pcs[woken.value := CRelock]
    else s0.pcs
  }

  /** The shared state in the middle of a turn of p that began in sh0, with pc to be done next. */
  ghost predicate SharedInTurn(n: int, sh0: Shared, sh: Shared, p: Tid, pc: PC) {
    && sh.pm == (if HoldsP(pc) then Some(p) else None)
    && sh.cm == (if HoldsC(pc) then Some(p) else None)
    && sh.cnt == sh0.cnt
    && sh.nready == sh0.nready + (if pc.PUnlockC? || pc.PLock? then 1 else 0)
    && (sh0.nput < n ==>
         && !pc.PResetPut? && !pc.PResetVal?
         && sh.nput == sh0.nput + if StepsLeft(pc) <= 6 then 1 else 0)
    && (pc.PTest? ==> sh.nput == sh0.nput)
    && (pc.PStore? && sh0.nput >= n ==> sh.nput == 0)
    && (pc.PSignal? ==> sh.nready == 0)
  }

  ghost predicate InTurn(n: int, s0: State, s: State, p: Tid, woken: Option<Tid>, pc: PC) {
    s.pcs == Others(s0, woken, pc)[p := pc] && SharedInTurn(n, s0.sh, s.sh, p, pc)
  }

  ghost predicate MayTakeTurn(n: int, s: State, p: Tid, woken: Option<Tid>) {
    && p in s.pcs && s.pcs[p] == PLock && s.sh.pm == None && s.sh.cm == None
    && (s.sh.nput < n ==> s.sh.nput < MAXSIZE)
    && (s.sh.nready == 0 ==> if woken.Some? then woken.value in s.pcs && s.pcs[woken.value] == CAsleep else !SomeoneAsleep(s))
  }

  lemma StoringInTurn(n: int, sh0: Shared, sh: Shared, p: Tid, pc: PC)
    requires Busy(pc) && HoldsP(pc) && SharedInTurn(n, sh0, sh, p, pc)
    requires |sh.buf| == MAXSIZE && Counters(n, sh, Some(pc))
    requires sh0.nput < n ==> sh0.nput < MAXSIZE
    ensures Local(n, sh, p, pc).Some?
    ensures var (sh', pc') := Local(n, sh, p, pc).value;
            && SharedInTurn(n, sh0, sh', p, pc')
            && (Busy(pc') || pc'.PLock?) && StepsLeft(pc') < StepsLeft(pc)
            && (pc'.PPost? && !pc.PSignal? ==> sh0.nready != 0)
  {
  }

  lemma PostingInTurn(n: int, sh0: Shared, sh: Shared, p: Tid, pc: PC)
    requires Busy(pc) && !HoldsP(pc) && SharedInTurn(n, sh0, sh, p, pc)
    ensures Local(n, sh, p, pc).Some?
    ensures var (sh', pc') := Local(n, sh, p, pc).value;
            && SharedInTurn(n, sh0, sh', p, pc')
            && (Busy(pc') || pc'.PLock?) && StepsLeft(pc') < StepsLeft(pc)
            && (pc'.PPost? && !pc.PSignal? ==> sh0.nready != 0)
  {
  }

  lemma LocalInTurn(n: int, sh0: Shared, sh: Shared, p: Tid, pc: PC)
    requires Busy(pc) && SharedInTurn(n, sh0, sh, p, pc)
    requires |sh.buf| == MAXSIZE && (HoldsP(pc) ==> Counters(n, sh, Some(pc)))
    requires sh0.nput < n ==> sh0.nput < MAXSIZE
    ensures Local(n, sh, p, pc).Some?
    ensures var (sh', pc') := Local(n, sh, p, pc).value;
            && SharedInTurn(n, sh0, sh', p, pc')
            && (Busy(pc') || pc'.PLock?) && StepsLeft(pc') < StepsLeft(pc)
            && (pc'.PPost? && !pc.PSignal? ==> sh0.nready != 0)
  {
    if HoldsP(pc) { StoringInTurn(n, sh0, sh, p, pc); } else { PostingInTurn(n, sh0, sh, p, pc); }
  }

  /** What the invariant says to the owner of producer.mutex. */
  lemma CountersAt(n: int, producers: set<Tid>, consumers: set<Tid>, s: State, t: Tid, pc: PC)
    requires Reachable(n, producers, consumers, s) && t in s.pcs && s.pcs[t] == pc
    ensures |s.sh.buf| == MAXSIZE && (HoldsP(pc) ==> Counters(n, s.sh, Some(pc)))
  {
    ReachableInv(n, producers, consumers, s);
  }

  lemma TurnStep(n: int, producers: set<Tid>, consumers: set<Tid>, s0: State, s: State, p: Tid, woken: Option<Tid>, pc: PC)
    returns (s': State, pc': PC)
    requires MayTakeTurn(n, s0, p, woken) && Busy(pc)
    requires Reachable(n, producers, consumers, s) && InTurn(n, s0, s, p, woken, pc)
    ensures Reachable(n, producers, consumers, s') && InTurn(n, s0, s', p, woken, pc')
    ensures (Busy(pc') || pc'.PLock?) && StepsLeft(pc') < StepsLeft(pc)
  {
    CountersAt(n, producers, consumers, s, p, pc);
    LocalInTurn(n, s0.sh, s.sh, p, pc);
    var act := if pc.PSignal? && woken.Some? then Signal(p, woken.value) else Go(p);
    pc' := Local(n, s.sh, p, pc).value.1;
    PcsInTurn(s0, s, p, woken, pc, pc');
    assert Next(n, s, act).Some?;
    s' := Next(n, s, act).value;
    ReachableNext(n, producers, consumers, s, act);
  }

  lemma PcsInTurn(s0: State, s: State, p: Tid, woken: Option<Tid>, pc: PC, pc': PC)
    requires p in s0.pcs && s0.pcs[p] == PLock && Busy(pc) && s.pcs == Others(s0, woken, pc)[p := pc]
    requires woken.Some? && s0.sh.nready == 0 ==> woken.value in s0.pcs && s0.pcs[woken.value] == CAsleep
    requires woken.None? && s0.sh.nready == 0 ==> !SomeoneAsleep(s0)
    requires pc.PSignal? ==> pc'.PPost? && s0.sh.nready == 0
    requires pc'.PPost? && !pc.PSignal? ==> s0.sh.nready != 0
    requires pc.PPost? ==> pc'.PUnlockC?
    requires pc.PUnlockC? ==> pc'.PLock?
    requires !pc.PPost? && !pc.PUnlockC? ==> !pc'.PUnlockC? && !pc'.PLock?
    ensures Others(s0, woken, pc')[p := pc'] ==
            if pc.PSignal? && woken.Some? then s.pcs[p := pc'][woken.value := CRelock] else s.pcs[p := pc']
    ensures pc.PSignal? && woken.None? ==> !SomeoneAsleep(s)
    ensures pc.PSignal? && woken.Some? ==> woken.value in s.pcs && s.pcs[woken.value] == CAsleep
  {
  }

  /** p alone stores and announces one value, waking a sleeper if nothing was ready. */
  lemma ProducerTurn(n: int, producers: set<Tid>, consumers: set<Tid>, s: State, p: Tid, woken: Option<Tid>)
    returns (s': State)
    requires Reachable(n, producers, consumers, s) && MayTakeTurn(n, s, p, woken)
    ensures Reachable(n, producers, consumers, s') && InTurn(n, s, s', p, woken, PLock)
  {
    ReachableNext(n, producers, consumers, s, Go(p));
    s' := Next(n, s, Go(p)).value;
    var pc := PTest;
    while pc != PLock
      invariant Reachable(n, producers, consumers, s') && InTurn(n, s, s', p, woken, pc)
      invariant Busy(pc) || pc.PLock?
      decreases StepsLeft(pc)
    {
      s', pc := TurnStep(n, producers, consumers, s, s', p, woken, pc);
    }
  }

  // ---------- when the buffer is overrun ----------

  /** Some thread is about to index past the end of the buffer. */
  ghost predicate Overrun(s: State) {
    exists t | t in s.pcs ::
      || (s.pcs[t] == PStore && s.sh.nput >= MAXSIZE)
      || (s.pcs[t] in {CTestBuf, CPrint, CClear} && s.sh.cnt >= MAXSIZE)
  }

  /** p alone fills the buffer. */
  lemma FilledAlone(n: int, producers: set<Tid>, consumers: set<Tid>, p: Tid) returns (s: State)
    requires p in producers && n > MAXSIZE
    ensures Reachable(n, producers, consumers, s) && p in s.pcs && s.pcs[p] == PLock
    ensures s.sh.pm == None && s.sh.nput == MAXSIZE
  {
    s := Init(producers, consumers);
    ghost var pcs := s.pcs;
    assert Exec(n, s, []) == Some(s);
    while s.sh.nput < MAXSIZE
      invariant Reachable(n, producers, consumers, s) && s.pcs == pcs
      invariant s.sh.pm == None && s.sh.cm == None && s.sh.nput <= MAXSIZE
      decreases MAXSIZE - s.sh.nput
    {
      s := ProducerTurn(n, producers, consumers, s, p, None);
    }
  }

  /** The buffer is never overrun, in any interleaving, exactly when nitems is at most MAXSIZE. */
  lemma OverrunExactly(n: int, producers: set<Tid>, consumers: set<Tid>)
    requires producers != {}
    ensures n <= MAXSIZE <==> forall s | Reachable(n, producers, consumers, s) :: !Overrun(s)
  {
    if n <= MAXSIZE {
      forall s | Reachable(n, producers, consumers, s) ensures !Overrun(s) {
        ReachableInv(n, producers, consumers, s);
      }
    } else {
      var p :| p in producers;
      var s := FilledAlone(n, producers, consumers, p);
      ReachableNext(n, producers, consumers, s, Go(p));
      var s1 := Next(n, s, Go(p)).value;
      ReachableNext(n, producers, consumers, s1, Go(p));
      var s2 := Next(n, s1, Go(p)).value;
      assert s2.pcs[p] == PStore && p in s2.pcs;
      assert Overrun(s2);
    }
  }

  // ---------- a sleeper may be left behind ----------

  predicate InProduce(pc: PC) { pc.PLock? || Busy(pc) }

  /** Consumer c sleeps although items are ready, nobody is left who would take them, and no producer is
      about to signal. */
  ghost predicate Abandoned(s: State, c: Tid) {
    && c in s.pcs && s.pcs[c] == CAsleep && s.sh.nready > 0
    && (forall t | t in s.pcs :: (InProduce(s.pcs[t]) && !s.pcs[t].PSignal?) || s.pcs[t].CAsleep? || s.pcs[t].CDone?)
  }

  /** Then it sleeps for ever, unless it wakes for no reason: producers signal only when nothing is ready. */
  lemma AbandonedForGood(n: int, s: State, act: Act, c: Tid)
    requires Abandoned(s, c) && Next(n, s, act).Some? && !act.Spurious?
    ensures Abandoned(Next(n, s, act).value, c)
  {
  }

  lemma {:induction false} AbandonedForEver(n: int, s: State, acts: seq<Act>, c: Tid)
    requires Abandoned(s, c) && Exec(n, s, acts).Some? && forall i | 0 <= i < |acts| :: !acts[i].Spurious?
    ensures Abandoned(Exec(n, s, acts).value, c)
  {
    if acts != [] {
      var m := |acts| - 1;
      AbandonedForEver(n, s, acts[..m], c);
      AbandonedForGood(n, Exec(n, s, acts[..m]).value, acts[m], c);
    }
  }

  // A turn of a consumer that finds an item.

  predicate Fetch(pc: PC) {
    || pc.CTest? || pc.CTake? || pc.CUnlockC? || pc.CLockP? || pc.CCount? || pc.CTestCnt?
    || pc.CTestBuf? || pc.CPrint? || pc.CClear? || pc.CUnlockP? || pc.CLeave?
  }

  ghost predicate SharedInFetch(n: int, sh0: Shared, sh: Shared, a: Tid, pc: PC) {
    && sh.pm == (if HoldsP(pc) then Some(a) else None)
    && sh.cm == (if HoldsC(pc) then Some(a) else None)
    && sh.nready == sh0.nready - (if pc.CTest? || pc.CTake? then 0 else 1)
    && sh.cnt == sh0.cnt + (if StepsLeft(pc) <= 6 then 1 else 0)
    && (pc.CLeave? || pc.CDone? ==> sh.cnt >= n)
    && (pc.CTestBuf? || pc.CPrint? || pc.CClear? || pc.CUnlockP? || pc.CLockC? ==> sh.cnt < n)
  }

  predicate EarlyFetch(pc: PC) { pc.CTest? || pc.CTake? || pc.CUnlockC? || pc.CLockP? || pc.CCount? }

  lemma EarlyInFetch(n: int, sh0: Shared, sh: Shared, a: Tid, pc: PC)
    requires EarlyFetch(pc) && SharedInFetch(n, sh0, sh, a, pc) && sh0.nready > 0
    ensures Local(n, sh, a, pc).Some?
    ensures var (sh', pc') := Local(n, sh, a, pc).value;
            SharedInFetch(n, sh0, sh', a, pc') && (EarlyFetch(pc') || pc'.CTestCnt?) && StepsLeft(pc') < StepsLeft(pc)
  {
  }

  lemma LateInFetch(n: int, sh0: Shared, sh: Shared, a: Tid, pc: PC)
    requires Fetch(pc) && !EarlyFetch(pc) && SharedInFetch(n, sh0, sh, a, pc)
    requires 0 <= sh.cnt && n <= |sh.buf|
    ensures Local(n, sh, a, pc).Some?
    ensures var (sh', pc') := Local(n, sh, a, pc).value;
            && SharedInFetch(n, sh0, sh', a, pc')
            && (Fetch(pc') || pc'.CLockC? || pc'.CDone?) && StepsLeft(pc') < StepsLeft(pc)
  {
  }

  ghost predicate InFetch(n: int, s0: State, s: State, a: Tid, pc: PC) {
    s.pcs == s0.pcs[a := pc] && SharedInFetch(n, s0.sh, s.sh, a, pc)
  }

  ghost predicate MayFetch(n: int, s: State, a: Tid) {
    && a in s.pcs && (s.pcs[a] == CRelock || s.pcs[a] == CLockC) && s.sh.pm == None && s.sh.cm == None
    && s.sh.nready > 0
  }

  lemma FetchStep(n: int, producers: set<Tid>, consumers: set<Tid>, s0: State, s: State, a: Tid, pc: PC)
    returns (s': State, pc': PC)
    requires MayFetch(n, s0, a) && s0.sh.cnt >= 0 && Fetch(pc) && (EarlyFetch(pc) || n <= MAXSIZE)
    requires Reachable(n, producers, consumers, s) && InFetch(n, s0, s, a, pc)
    ensures Reachable(n, producers, consumers, s') && InFetch(n, s0, s', a, pc')
    ensures (Fetch(pc') || pc'.CLockC? || pc'.CDone?) && StepsLeft(pc') < StepsLeft(pc)
    ensures EarlyFetch(pc) ==> EarlyFetch(pc') || pc'.CTestCnt?
  {
    CountersAt(n, producers, consumers, s, a, pc);
    if EarlyFetch(pc) { EarlyInFetch(n, s0.sh, s.sh, a, pc); } else { LateInFetch(n, s0.sh, s.sh, a, pc); }
    ReachableNext(n, producers, consumers, s, Go(a));
    s' := Next(n, s, Go(a)).value;
    pc' := Local(n, s.sh, a, pc).value.1;
  }

  lemma FetchStarts(n: int, s: State, a: Tid)
    requires MayFetch(n, s, a)
    ensures Next(n, s, Go(a)).Some? && InFetch(n, s, Next(n, s, Go(a)).value, a, CTest)
  {
  }

  /** a alone takes an item, counts it, and either comes round or, with nitems counted, is done. */
  lemma ConsumerTurn(n: int, producers: set<Tid>, consumers: set<Tid>, s: State, a: Tid)
    returns (s': State, pc: PC)
    requires Reachable(n, producers, consumers, s) && MayFetch(n, s, a) && n <= MAXSIZE
    ensures Reachable(n, producers, consumers, s') && InFetch(n, s, s', a, pc)
    ensures pc == if s.sh.cnt + 1 >= n then CDone else CLockC
  {
    ItemsConserved(n, producers, consumers, s);
    FetchStarts(n, s, a);
    ReachableNext(n, producers, consumers, s, Go(a));
    s' := Next(n, s, Go(a)).value;
    pc := CTest;
    while Fetch(pc)
      invariant Reachable(n, producers, consumers, s') && InFetch(n, s, s', a, pc)
      invariant Fetch(pc) || pc.CLockC? || pc.CDone?
      decreases StepsLeft(pc)
    {
      s', pc := FetchStep(n, producers, consumers, s, s', a, pc);
    }
  }

  /** The program with the consumers in asleep asleep, before anything else has happened. */
  function WithAsleep(producers: set<Tid>, consumers: set<Tid>, asleep: set<Tid>): State {
    var s := Init(producers, consumers);
    s.(pcs := map t | t in s.pcs :: if t in asleep then CAsleep else s.pcs[t])
  }

  lemma GoesTo(n: int, producers: set<Tid>, consumers: set<Tid>, s: State, t: Tid, sh: Shared, pc: PC, s': State)
    requires Reachable(n, producers, consumers, s) && t in s.pcs && !s.pcs[t].PSignal?
    requires Local(n, s.sh, t, s.pcs[t]) == Some((sh, pc)) && s' == State(sh, s.pcs[t := pc])
    ensures Reachable(n, producers, consumers, s')
  {
    ReachableNext(n, producers, consumers, s, Go(t));
  }

  lemma FallsAsleep(n: int, producers: set<Tid>, consumers: set<Tid>, s: State, x: Tid)
    requires Reachable(n, producers, consumers, s) && x in s.pcs && s.pcs[x] == CLockC
    requires s.sh.cm == None && s.sh.nready == 0
    ensures Reachable(n, producers, consumers, s.(pcs := s.pcs[x := CAsleep]))
  {
    var held := s.sh.(cm := Some(x));
    var s1, s2 := State(held, s.pcs[x := CTest]), State(held, s.pcs[x := CWait]);
    GoesTo(n, producers, consumers, s, x, held, CTest, s1);
    assert s1.pcs[x := CWait] == s2.pcs;
    GoesTo(n, producers, consumers, s1, x, held, CWait, s2);
    assert s2.pcs[x := CAsleep] == s.pcs[x := CAsleep] && held.(cm := None) == s.sh;
    GoesTo(n, producers, consumers, s2, x, s.sh, CAsleep, s.(pcs := s.pcs[x := CAsleep]));
  }

  lemma {:induction false} AllFallAsleep(n: int, producers: set<Tid>, consumers: set<Tid>, asleep: set<Tid>)
    requires producers !! consumers && asleep <= consumers
    ensures Reachable(n, producers, consumers, WithAsleep(producers, consumers, asleep))
    decreases asleep
  {
    if asleep == {} {
      assert WithAsleep(producers, consumers, asleep).pcs == Init(producers, consumers).pcs;
      assert Exec(n, Init(producers, consumers), []) == Some(Init(producers, consumers));
    } else {
      var x :| x in asleep;
      AllFallAsleep(n, producers, consumers, asleep - {x});
      var s := WithAsleep(producers, consumers, asleep - {x});
      FallsAsleep(n, producers, consumers, s, x);
      assert s.pcs[x := CAsleep] == WithAsleep(producers, consumers, asleep).pcs;
    }
  }

  /** Everybody but a is as in base, a is at pc, and one item is ready. */
  ghost predicate OneAwake(base: map<Tid, PC>, s: State, a: Tid, pc: PC) {
    s.pcs == base[a := pc] && s.sh.nready == 1 && s.sh.pm == None && s.sh.cm == None
  }

  /** p stores another value, a takes one. */
  lemma Exchange(n: int, producers: set<Tid>, consumers: set<Tid>, base: map<Tid, PC>, s: State, p: Tid, a: Tid, pc: PC)
    returns (s': State, pc': PC)
    requires Reachable(n, producers, consumers, s) && OneAwake(base, s, a, pc) && (pc == CRelock || pc == CLockC)
    requires n <= MAXSIZE && p in base && base[p] == PLock && a in base && p != a
    ensures Reachable(n, producers, consumers, s') && OneAwake(base, s', a, pc')
    ensures s'.sh.cnt == s.sh.cnt + 1 && pc' == if s.sh.cnt + 1 >= n then CDone else CLockC
  {
    var s1 := ProducerTurn(n, producers, consumers, s, p, None);
    assert s1.pcs == s.pcs;
    s', pc' := ConsumerTurn(n, producers, consumers, s1, a);
    assert s'.pcs == base[a := pc'];
  }

  /** a is woken and takes item by item until nitems are counted and it returns; b was never signalled. */
  lemma Abandon(n: int, producers: set<Tid>, consumers: set<Tid>, p: Tid, a: Tid, b: Tid) returns (s: State)
    requires producers !! consumers && p in producers && a in consumers && b in consumers && a != b && n <= MAXSIZE
    ensures Reachable(n, producers, consumers, s) && Abandoned(s, b)
  {
    AllFallAsleep(n, producers, consumers, consumers);
    var s0 := WithAsleep(producers, consumers, consumers);
    s := ProducerTurn(n, producers, consumers, s0, p, Some(a));
    var pc := CRelock;
    assert s.pcs == s0.pcs[a := CRelock];
    while pc != CDone
      invariant Reachable(n, producers, consumers, s) && OneAwake(s0.pcs, s, a, pc)
      invariant pc == CRelock || pc == CLockC || pc == CDone
      invariant pc == CLockC ==> s.sh.cnt < n
      decreases if pc == CDone then 0 else if pc == CLockC then 1 else 2, n - s.sh.cnt
    {
      s, pc := Exchange(n, producers, consumers, s0.pcs, s, p, a, pc);
    }
  }

  // Nobody is left behind while every consumer is still at work.

  predicate Awake(pc: PC) { !InProduce(pc) && !pc.CAsleep? && !pc.CDone? }

  ghost predicate SomeoneAwake(s: State) { exists a :: a in s.pcs && Awake(s.pcs[a]) }
  ghost predicate SomeoneDone(s: State) { exists d :: d in s.pcs && s.pcs[d] == CDone }
  ghost predicate SomeonePosting(s: State) { exists t :: t in s.pcs && s.pcs[t] == PPost }

  /** Before the first consumer returns, items ready or about to be and a sleeper imply one that is awake. */
  ghost predicate Watched(s: State) {
    (s.sh.nready > 0 || SomeonePosting(s)) && SomeoneAsleep(s) ==> SomeoneAwake(s) || SomeoneDone(s)
  }

  ghost predicate Roles(n: int, producers: set<Tid>, consumers: set<Tid>, s: State) {
    && s.pcs.Keys == producers + consumers
    && (forall t | t in s.pcs :: InProduce(s.pcs[t]) <==> t in producers)
    && (producers == {} ==> s.sh.posts == 0)
    && (SomeoneDone(s) ==> s.sh.cnt >= n)
  }

  lemma LocalKeepsRole(n: int, sh: Shared, t: Tid, pc: PC)
    requires Local(n, sh, t, pc).Some? && (pc.CLeave? ==> sh.cnt >= n)
    ensures var (sh', pc') := Local(n, sh, t, pc).value;
            && (InProduce(pc') <==> InProduce(pc)) && (InProduce(pc) || sh'.posts == sh.posts)
            && sh'.cnt >= sh.cnt && (pc'.CDone? ==> sh'.cnt >= n)
  {
  }

  lemma RolesAfter(n: int, producers: set<Tid>, consumers: set<Tid>, s: State, t: Tid, sh': Shared, pc': PC)
    requires Roles(n, producers, consumers, s) && t in s.pcs
    requires InProduce(pc') <==> InProduce(s.pcs[t])
    requires InProduce(s.pcs[t]) || sh'.posts == s.sh.posts
    requires sh'.cnt >= s.sh.cnt && (pc'.CDone? ==> sh'.cnt >= n)
    ensures Roles(n, producers, consumers, State(sh', s.pcs[t := pc']))
  {
    var s' := State(sh', s.pcs[t := pc']);
    assert s'.pcs.Keys == s.pcs.Keys;
    if SomeoneDone(s') && !pc'.CDone? {
      var d :| d in s'.pcs && s'.pcs[d] == CDone;
      assert s.pcs[d] == CDone;
    }
  }

  lemma RolesKept(n: int, producers: set<Tid>, consumers: set<Tid>, s: State, act: Act)
    requires Roles(n, producers, consumers, s) && Inv(n, s) && Next(n, s, act).Some?
    ensures Roles(n, producers, consumers, Next(n, s, act).value)
  {
    match act
    case Go(t) =>
      LocalKeepsRole(n, s.sh, t, s.pcs[t]);
      var (sh', pc') := Local(n, s.sh, t, s.pcs[t]).value;
      RolesAfter(n, producers, consumers, s, t, sh', pc');
    case Signal(t, w) =>
      RolesAfter(n, producers, consumers, s, t, s.sh, PPost);
      RolesAfter(n, producers, consumers, State(s.sh, s.pcs[t := PPost]), w, s.sh, CRelock);
    case Spurious(t) =>
      RolesAfter(n, producers, consumers, s, t, s.sh, CRelock);
  }

  lemma LocalKeepsWatch(n: int, sh: Shared, t: Tid, pc: PC)
    requires Local(n, sh, t, pc).Some?
    ensures var (sh', pc') := Local(n, sh, t, pc).value;
            && (Awake(pc) ==> Awake(pc') || pc'.CDone? || pc.CWait?)
            && (pc'.CAsleep? ==> pc.CWait? && sh'.nready == sh.nready)
            && (sh'.nready > 0 ==> sh.nready > 0 || pc.PPost?)
            && (pc'.PPost? ==> sh.nready != 0 || pc.PSignal?)
            && (pc.CDone? ==> pc'.CDone?)
  {
  }

  /** A consumer falls asleep only when nothing is ready and, holding consumer.mutex, nobody is posting. */
  lemma QuietWhenFallingAsleep(n: int, s: State, t: Tid)
    requires Inv(n, s) && t in s.pcs && s.pcs[t] == CWait
    ensures s.sh.nready == 0 && !SomeonePosting(s)
  {
  }

  lemma StaysWatched(s: State, t: Tid, s': State)
    requires Watched(s) && t in s.pcs && s'.pcs.Keys == s.pcs.Keys
    requires forall u | u in s.pcs && u != t :: s'.pcs[u] == s.pcs[u]
    requires Awake(s.pcs[t]) ==> Awake(s'.pcs[t]) || s'.pcs[t] == CDone
    requires s.pcs[t] == CDone ==> s'.pcs[t] == CDone
    requires s'.pcs[t] != CAsleep
    requires s'.sh.nready > 0 ==> s.sh.nready > 0 || s.pcs[t] == PPost
    requires s'.pcs[t] == PPost ==> s.sh.nready > 0 || !SomeoneAsleep(s)
    ensures Watched(s')
  {
    if SomeoneAsleep(s') && (s'.sh.nready > 0 || SomeonePosting(s')) {
      var w :| w in s'.pcs && s'.pcs[w] == CAsleep;
      assert s.pcs[w] == CAsleep;
      if SomeoneAwake(s) {
        var a :| a in s.pcs && Awake(s.pcs[a]);
        assert Awake(s'.pcs[a]) || s'.pcs[a] == CDone;
      } else {
        var d :| d in s.pcs && s.pcs[d] == CDone;
        assert s'.pcs[d] == CDone;
      }
    }
  }

  lemma WatchKept(n: int, s: State, act: Act)
    requires Watched(s) && Inv(n, s) && Next(n, s, act).Some?
    ensures Watched(Next(n, s, act).value)
  {
    var s' := Next(n, s, act).value;
    match act
    case Go(t) =>
      LocalKeepsWatch(n, s.sh, t, s.pcs[t]);
      if s.pcs[t] == CWait {
        QuietWhenFallingAsleep(n, s, t);
        assert !SomeonePosting(s');
      } else {
        StaysWatched(s, t, s');
      }
    case Signal(t, w) =>
      assert Awake(s'.pcs[w]);
    case Spurious(t) =>
      assert Awake(s'.pcs[t]);
  }

  lemma {:induction false} ExecWatched(n: int, producers: set<Tid>, consumers: set<Tid>, acts: seq<Act>)
    requires producers !! consumers && Exec(n, Init(producers, consumers), acts).Some?
    ensures var s := Exec(n, Init(producers, consumers), acts).value; Watched(s) && Roles(n, producers, consumers, s)
  {
    if acts != [] {
      var m := |acts| - 1;
      var s := Exec(n, Init(producers, consumers), acts[..m]).value;
      ExecWatched(n, producers, consumers, acts[..m]);
      ExecInv(n, producers, consumers, acts[..m]);
      WatchKept(n, s, acts[m]);
      RolesKept(n, producers, consumers, s, acts[m]);
    }
  }

  /** While a sleeper has items to take, another consumer is up, or one has returned, nitems being counted. */
  lemma NobodyLeftWhileAllWork(n: int, producers: set<Tid>, consumers: set<Tid>, s: State, c: Tid)
    requires producers !! consumers && Reachable(n, producers, consumers, s)
    requires c in s.pcs && s.pcs[c] == CAsleep && s.sh.nready > 0
    ensures SomeoneAwake(s) || (SomeoneDone(s) && s.sh.cnt >= n)
  {
    var acts :| Exec(n, Init(producers, consumers), acts) == Some(s);
    ExecWatched(n, producers, consumers, acts);
  }

  /** A sleeper can be left behind exactly if somebody produces, another consumer can return before it,
      and the program gets that far without looking past the buffer. */
  lemma AbandonedExactly(n: int, producers: set<Tid>, consumers: set<Tid>)
    requires producers !! consumers
    ensures (exists s, c :: Reachable(n, producers, consumers, s) && Abandoned(s, c))
            <==> producers != {} && |consumers| >= 2 && n <= MAXSIZE
  {
    if producers != {} && |consumers| >= 2 && n <= MAXSIZE {
      var p :| p in producers;
      var a :| a in consumers;
      assert |consumers - {a}| >= 1;
      var b :| b in consumers - {a};
      var s := Abandon(n, producers, consumers, p, a, b);
    }
    forall s, c | Reachable(n, producers, consumers, s) && Abandoned(s, c)
      ensures producers != {} && |consumers| >= 2 && n <= MAXSIZE
    {
      AbandonedNeeds(n, producers, consumers, s, c);
    }
  }

  lemma AbandonedNeeds(n: int, producers: set<Tid>, consumers: set<Tid>, s: State, c: Tid)
    requires producers !! consumers && Reachable(n, producers, consumers, s) && Abandoned(s, c)
    ensures producers != {} && |consumers| >= 2 && n <= MAXSIZE
  {
    var acts :| Exec(n, Init(producers, consumers), acts) == Some(s);
    ExecWatched(n, producers, consumers, acts);
    ExecInv(n, producers, consumers, acts);
    NobodyLeftWhileAllWork(n, producers, consumers, s, c);
    var d :| d in s.pcs && s.pcs[d] == CDone;
    TwoIn(consumers, c, d);
  }

  lemma TwoIn(ts: set<Tid>, c: Tid, d: Tid)
    requires c in ts && d in ts && c != d
    ensures |ts| >= 2
  {
    assert |ts| == |ts - {c}| + 1 && d in ts - {c};
  }

  // ---------- the program as a whole never gets stuck ----------

  /** A thread inside a section can always go on, short of looking past the buffer. */
  lemma OwnersGoOn(n: int, sh: Shared, t: Tid, pc: PC)
    requires |sh.buf| == MAXSIZE && n <= MAXSIZE && !pc.PSignal?
    requires HoldsP(pc) || (HoldsC(pc) && sh.cm == Some(t))
    requires HoldsP(pc) ==> Counters(n, sh, Some(pc)) && Cells(n, sh, Some(pc))
    ensures Local(n, sh, t, pc).Some?
  {
  }

  lemma SignallerGoesOn(n: int, s: State, t: Tid) returns (act: Act)
    requires t in s.pcs && s.pcs[t].PSignal?
    ensures Next(n, s, act).Some? && !act.Spurious?
  {
    if SomeoneAsleep(s) {
      var w :| w in s.pcs && s.pcs[w] == CAsleep;
      act := Signal(t, w);
    } else {
      act := Go(t);
    }
  }

  /** Producers run for ever: with one of them and nitems within the buffer, some thread can always go on. */
  lemma SomeoneGoesOn(n: int, producers: set<Tid>, consumers: set<Tid>, s: State) returns (act: Act)
    requires producers !! consumers && producers != {} && n <= MAXSIZE
    requires Reachable(n, producers, consumers, s)
    ensures Next(n, s, act).Some? && !act.Spurious?
  {
    var acts :| Exec(n, Init(producers, consumers), acts) == Some(s);
    ExecWatched(n, producers, consumers, acts);
    ExecInv(n, producers, consumers, acts);
    var p :| p in producers;
    var t := if s.sh.pm.Some? then s.sh.pm.value else if s.sh.cm.Some? then s.sh.cm.value else p;
    if s.pcs[t].PSignal? {
      act := SignallerGoesOn(n, s, t);
    } else {
      if HoldsP(s.pcs[t]) || HoldsC(s.pcs[t]) { OwnersGoOn(n, s.sh, t, s.pcs[t]); }
      act := Go(t);
    }
  }

  // ---------- indices that are never printed ----------

  /** Thread t finds nothing in the cell whose turn it is. */
  ghost predicate FindsNothing(s: State, t: Tid) {
    t in s.pcs && s.pcs[t] == CTestBuf && 0 <= s.sh.cnt < |s.sh.buf| && s.sh.buf[s.sh.cnt] == 0
  }

  /** The turn of index k is over and no line shows it. */
  ghost predicate Skipped(s: State, k: int) {
    FirstOpen(s.sh, At(s.sh.pm, s.pcs)) > k && forall i | 0 <= i < |s.sh.printed| :: s.sh.printed[i].0 != k
  }

  lemma LocalKeepsSkipped(n: int, sh: Shared, t: Tid, pc: PC, k: int)
    requires TouchesData(pc) && FirstOpen(sh, Own(pc)) > k && Local(n, sh, t, pc).Some?
    requires forall i | 0 <= i < |sh.printed| :: sh.printed[i].0 != k
    ensures var (sh', pc') := Local(n, sh, t, pc).value;
            FirstOpen(sh', Own(pc')) > k && forall i | 0 <= i < |sh'.printed| :: sh'.printed[i].0 != k
  {
  }

  lemma SkippedKept(n: int, s: State, act: Act, k: int)
    requires Owners(s) && Skipped(s, k) && Next(n, s, act).Some?
    ensures Owners(Next(n, s, act).value) && Skipped(Next(n, s, act).value, k)
  {
    OwnersKept(n, s, act);
    if act.Go? {
      var t, pc := act.t, s.pcs[act.t];
      var (sh', pc') := Local(n, s.sh, t, pc).value;
      if TouchesData(pc) {
        assert At(s.sh.pm, s.pcs) == Own(pc);
        LocalKeepsSkipped(n, s.sh, t, pc, k);
        assert At(sh'.pm, s.pcs[t := pc']) == Own(pc');
      } else {
        OutsideTouches(n, s.sh, t, pc);
        assert At(sh'.pm, s.pcs[t := pc']) == At(s.sh.pm, s.pcs);
      }
    }
  }

  /** An index whose cell is found empty at its turn is skipped. */
  lemma EmptyCellSkipped(n: int, producers: set<Tid>, consumers: set<Tid>, s: State, t: Tid)
    requires Reachable(n, producers, consumers, s) && FindsNothing(s, t)
    ensures Next(n, s, Go(t)).Some? && Skipped(Next(n, s, Go(t)).value, s.sh.cnt)
  {
    ReachableInv(n, producers, consumers, s);
  }

  /** A skipped index is printed in no continuation. */
  lemma {:induction false} SkippedForEver(n: int, s: State, acts: seq<Act>, k: int)
    requires Owners(s) && Skipped(s, k) && Exec(n, s, acts).Some?
    ensures Owners(Exec(n, s, acts).value) && Skipped(Exec(n, s, acts).value, k)
    decreases |acts|
  {
    if acts != [] {
      var m := |acts| - 1;
      SkippedForEver(n, s, acts[..m], k);
      SkippedKept(n, Exec(n, s, acts[..m]).value, acts[m], k);
    }
  }

  lemma PassesCount(n: int, s0: State, s: State, a: Tid)
    requires a in s0.pcs && InFetch(n, s0, s, a, CTestCnt) && s0.sh.cnt + 1 < n
    ensures Next(n, s, Go(a)).Some? && InFetch(n, s0, Next(n, s, Go(a)).value, a, CTestBuf)
  {
  }

  /** a alone takes an item and comes to look for the next index. */
  lemma LooksForNext(n: int, producers: set<Tid>, consumers: set<Tid>, s: State, a: Tid) returns (s': State)
    requires Reachable(n, producers, consumers, s) && MayFetch(n, s, a) && s.sh.cnt + 1 < n
    ensures Reachable(n, producers, consumers, s') && InFetch(n, s, s', a, CTestBuf)
  {
    ItemsConserved(n, producers, consumers, s);
    FetchStarts(n, s, a);
    ReachableNext(n, producers, consumers, s, Go(a));
    s' := Next(n, s, Go(a)).value;
    var pc := CTest;
    while EarlyFetch(pc)
      invariant Reachable(n, producers, consumers, s') && InFetch(n, s, s', a, pc)
      invariant EarlyFetch(pc) || pc.CTestCnt?
      decreases StepsLeft(pc)
    {
      s', pc := FetchStep(n, producers, consumers, s, s', a, pc);
    }
    PassesCount(n, s, s', a);
    ReachableNext(n, producers, consumers, s', Go(a));
    s' := Next(n, s', Go(a)).value;
  }

  /** p stores one value, and the consumer that takes it looks for index 1 at once. */
  lemma FirstIndexSkipped(n: int, producers: set<Tid>, consumers: set<Tid>, p: Tid, a: Tid) returns (s: State)
    requires producers !! consumers && p in producers && a in consumers && n >= 2
    ensures Reachable(n, producers, consumers, s) && FindsNothing(s, a)
  {
    var s0 := Init(producers, consumers);
    assert Exec(n, s0, []) == Some(s0);
    var s1 := ProducerTurn(n, producers, consumers, s0, p, None);
    assert s1.pcs == s0.pcs;
    s := LooksForNext(n, producers, consumers, s1, a);
    assert Fetchers(s.pcs) == {} && Carriers(s.pcs) == {};
    ItemsConserved(n, producers, consumers, s);
    CellAtTest(n, producers, consumers, s, a);
  }

  lemma CellAtTest(n: int, producers: set<Tid>, consumers: set<Tid>, s: State, t: Tid)
    requires Reachable(n, producers, consumers, s) && t in s.pcs && s.pcs[t] == CTestBuf
    ensures |s.sh.buf| == MAXSIZE && 0 < s.sh.cnt < n
    ensures s.sh.cnt < MAXSIZE ==> s.sh.buf[s.sh.cnt] == if s.sh.puts > s.sh.cnt then s.sh.cnt else 0
  {
    ReachableInv(n, producers, consumers, s);
  }

  /** Some run skips an index exactly if somebody produces, somebody consumes and there is an index to print. */
  lemma SkippedExactly(n: int, producers: set<Tid>, consumers: set<Tid>)
    requires producers !! consumers
    ensures (exists s, t :: Reachable(n, producers, consumers, s) && FindsNothing(s, t))
            <==> producers != {} && consumers != {} && n >= 2
  {
    if producers != {} && consumers != {} && n >= 2 {
      var p :| p in producers;
      var a :| a in consumers;
      var s := FirstIndexSkipped(n, producers, consumers, p, a);
    }
    forall s, t | Reachable(n, producers, consumers, s) && FindsNothing(s, t)
      ensures producers != {} && consumers != {} && n >= 2
    {
      var acts :| Exec(n, Init(producers, consumers), acts) == Some(s);
      ExecWatched(n, producers, consumers, acts);
      CellAtTest(n, producers, consumers, s, t);
      ItemsConserved(n, producers, consumers, s);
      assert t in consumers;
    }
  }

  // ---------- every index is printed or skipped ----------

  lemma LineStatements(n: int, sh: Shared, t: Tid)
    requires 0 <= sh.cnt < |sh.buf|
    ensures Local(n, sh, t, CTestBuf) == Some((sh, if sh.buf[sh.cnt] != 0 then CPrint else CUnlockP))
    ensures Local(n, sh, t, CPrint) == Some((sh.(printed := sh.printed + [(sh.cnt, sh.buf[sh.cnt])]), CClear))
    ensures Local(n, sh, t, CClear) == Some((sh.(buf := sh.buf[sh.cnt := 0]), CUnlockP))
    ensures Local(n, sh, t, CUnlockP) == Some((sh.(pm := None), CLockC))
  {
  }

  /** The turn of an index, up to giving up the mutex: if it was stored its line appears and its cell is
      cleared, otherwise nothing happens. */
  lemma TurnOfIndex(n: int, producers: set<Tid>, consumers: set<Tid>, s: State, t: Tid)
    requires Reachable(n, producers, consumers, s) && t in s.pcs && s.pcs[t] == CTestBuf && s.sh.cnt < MAXSIZE
    ensures 0 <= s.sh.cnt < |s.sh.buf|
    ensures var shown := s.sh.(printed := s.sh.printed + [(s.sh.cnt, s.sh.cnt)]);
            var cleared := shown.(buf := s.sh.buf[s.sh.cnt := 0]);
            if s.sh.puts > s.sh.cnt then
              && Local(n, s.sh, t, CTestBuf) == Some((s.sh, CPrint)) && Local(n, s.sh, t, CPrint) == Some((shown, CClear))
              && Local(n, shown, t, CClear) == Some((cleared, CUnlockP))
              && Local(n, cleared, t, CUnlockP) == Some((cleared.(pm := None), CLockC))
            else
              && Local(n, s.sh, t, CTestBuf) == Some((s.sh, CUnlockP))
              && Local(n, s.sh, t, CUnlockP) == Some((s.sh.(pm := None), CLockC))
  {
    CellAtTest(n, producers, consumers, s, t);
    var shown := s.sh.(printed := s.sh.printed + [(s.sh.cnt, s.sh.cnt)]);
    LineStatements(n, s.sh, t);
    LineStatements(n, shown, t);
    LineStatements(n, shown.(buf := s.sh.buf[s.sh.cnt := 0]), t);
  }

  /** How a statement of the owner of producer.mutex changes the lines and the first index to come. */
  lemma LineStep(n: int, sh: Shared, t: Tid, pc: PC)
    requires TouchesData(pc) && Local(n, sh, t, pc).Some?
    ensures var (sh', pc') := Local(n, sh, t, pc).value;
            var over := pc == CPrint || (pc == CTestBuf && sh.buf[sh.cnt] == 0) || (pc == CTestCnt && sh.cnt >= n);
            && sh'.printed == sh.printed + (if pc == CPrint then [(sh.cnt, sh.buf[sh.cnt])] else [])
            && FirstOpen(sh', Own(pc')) == FirstOpen(sh, Own(pc)) + (if over then 1 else 0)
            && (over ==> FirstOpen(sh, Own(pc)) == sh.cnt)
  {
  }

  function Open(s: State): int { FirstOpen(s.sh, At(s.sh.pm, s.pcs)) }

  ghost predicate Printed(s: State, k: int) {
    exists i | 0 <= i < |s.sh.printed| :: s.sh.printed[i].0 == k
  }

  /** Step act finds the cell of index k empty at its turn. */
  ghost predicate Misses(s: State, act: Act, k: int) { act.Go? && FindsNothing(s, act.t) && s.sh.cnt == k }

  /** Some step of the run from s does. */
  ghost predicate Missed(n: int, s: State, acts: seq<Act>, k: int) {
    acts != [] &&
    var m := |acts| - 1;
    Missed(n, s, acts[..m], k) || (Exec(n, s, acts[..m]).Some? && Misses(Exec(n, s, acts[..m]).value, acts[m], k))
  }

  /** Before its turn an index is neither printed nor missed; afterwards it is one of them. */
  ghost predicate Settled(n: int, s: State, k: int, printed: bool, missed: bool) {
    if Open(s) <= k then !printed && !missed else printed != missed
  }

  lemma PrintedOneMore(lines: seq<(int, int)>, line: (int, int), k: int)
    ensures (exists i | 0 <= i < |lines + [line]| :: (lines + [line])[i].0 == k)
            <==> (exists i | 0 <= i < |lines| :: lines[i].0 == k) || line.0 == k
  {
    if line.0 == k { assert (lines + [line])[|lines|].0 == k; }
    forall i | 0 <= i < |lines| && lines[i].0 == k ensures (lines + [line])[i].0 == k {}
  }

  /** The index whose turn ends with this statement, if there is one, is cnt. */
  predicate EndsTurn(n: int, sh: Shared, pc: PC) {
    || pc == CPrint
    || (pc == CTestBuf && 0 <= sh.cnt < |sh.buf| && sh.buf[sh.cnt] == 0)
    || (pc == CTestCnt && sh.cnt >= n)
  }

  lemma OwnerStep(n: int, s: State, t: Tid)
    requires Owners(s) && Next(n, s, Go(t)).Some? && TouchesData(s.pcs[t])
    ensures var s' := Next(n, s, Go(t)).value;
            var pc := s.pcs[t];
            && Open(s') == Open(s) + (if EndsTurn(n, s.sh, pc) then 1 else 0)
            && (EndsTurn(n, s.sh, pc) ==> Open(s) == s.sh.cnt)
            && (pc == CPrint ==> 0 <= s.sh.cnt < |s.sh.buf|)
            && s'.sh.printed == s.sh.printed + if pc == CPrint then [(s.sh.cnt, s.sh.buf[s.sh.cnt])] else []
  {
    var (sh', pc') := Local(n, s.sh, t, s.pcs[t]).value;
    OwnersKept(n, s, Go(t));
    assert At(s.sh.pm, s.pcs) == Own(s.pcs[t]);
    assert At(sh'.pm, s.pcs[t := pc']) == Own(pc');
    LineStep(n, s.sh, t, s.pcs[t]);
  }

  lemma OwnerSettles(n: int, s: State, t: Tid, k: int, missed: bool, s': State)
    requires Owners(s) && Next(n, s, Go(t)) == Some(s') && TouchesData(s.pcs[t]) && 0 < k < n
    requires Settled(n, s, k, Printed(s, k), missed)
    ensures Settled(n, s', k, Printed(s', k), missed || Misses(s, Go(t), k))
  {
    OwnerStep(n, s, t);
    if s.pcs[t] == CPrint {
      PrintedOneMore(s.sh.printed, (s.sh.cnt, s.sh.buf[s.sh.cnt]), k);
    } else {
      assert s'.sh.printed == s.sh.printed;
    }
  }

  lemma OthersSettle(n: int, s: State, act: Act, k: int)
    requires Inv(n, s) && Next(n, s, act).Some? && (act.Go? ==> !TouchesData(s.pcs[act.t]))
    ensures Open(Next(n, s, act).value) == Open(s) && Next(n, s, act).value.sh.printed == s.sh.printed
    ensures !Misses(s, act, k)
  {
    if act.Go? {
      OutsideTouches(n, s.sh, act.t, s.pcs[act.t]);
      OwnersKept(n, s, act);
      var (sh', pc') := Local(n, s.sh, act.t, s.pcs[act.t]).value;
      assert At(sh'.pm, s.pcs[act.t := pc']) == At(s.sh.pm, s.pcs);
    } else {
      WakingKeepsOwners(n, s, act);
    }
  }

  lemma {:induction false} ExecSettles(n: int, producers: set<Tid>, consumers: set<Tid>, acts: seq<Act>, k: int)
    requires 0 < k < n && Exec(n, Init(producers, consumers), acts).Some?
    ensures var s := Exec(n, Init(producers, consumers), acts).value;
            Settled(n, s, k, Printed(s, k), Missed(n, Init(producers, consumers), acts, k))
  {
    if acts != [] {
      var m := |acts| - 1;
      var init := Init(producers, consumers);
      var s := Exec(n, init, acts[..m]).value;
      ExecSettles(n, producers, consumers, acts[..m], k);
      ExecInv(n, producers, consumers, acts[..m]);
      if acts[m].Go? && TouchesData(s.pcs[acts[m].t]) {
        OwnerSettles(n, s, acts[m].t, k, Missed(n, init, acts[..m], k), Next(n, s, acts[m]).value);
      } else {
        OthersSettle(n, s, acts[m], k);
      }
    }
  }

  /** In every run each index from 1 to nitems-1 whose turn is over has been printed, with its own value,
      or its cell was found empty at its turn, and never both. */
  lemma PrintedOrSkipped(n: int, producers: set<Tid>, consumers: set<Tid>, acts: seq<Act>, k: int)
    requires 0 < k < n && Exec(n, Init(producers, consumers), acts).Some?
    ensures var s := Exec(n, Init(producers, consumers), acts).value;
            var missed := Missed(n, Init(producers, consumers), acts, k);
            && (Open(s) > k ==> ((k, k) in s.sh.printed) != missed)
            && (Open(s) <= k ==> (k, k) !in s.sh.printed && !missed)
  {
    ExecSettles(n, producers, consumers, acts, k);
    ExecInv(n, producers, consumers, acts);
    var s := Exec(n, Init(producers, consumers), acts).value;
    if Printed(s, k) {
      var i :| 0 <= i < |s.sh.printed| && s.sh.printed[i].0 == k;
      assert s.sh.printed[i] == (k, k);
    }
  }
}
