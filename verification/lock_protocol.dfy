/**
 * Row locks as a state machine. A lock call is atomic up to the point where it would wait;
 * waking up with the lock, giving up after the timeout, and releasing everything at the end
 * of the transaction are steps of their own.
 */
module LockProtocol {
  import opened Bytes
  import opened Options
  import opened HeapModel

  datatype Mode = Shared | Exclusive

  datatype Request = Request(tx: nat, mode: Mode, granted: bool)

  type Queue = seq<Request>
  type LockTable = map<RID, Queue>

  datatype Phase = Growing | Shrinking | Committed | Aborted

  /** The fields of a transaction that locking reads and writes. */
  datatype TxInfo = TxInfo(phase: Phase, shared: set<RID>, exclusive: set<RID>)

  datatype Reply = Refused | Granted | MustWait

  // ---- one queue ----

  function QueueOf(table: LockTable, rid: RID): Queue {
    if rid in table then table[rid] else []
  }

  predicate CanGrant(q: Queue, tx: nat, mode: Mode) {
    forall i :: 0 <= i < |q| && q[i].granted && q[i].tx != tx ==> mode.Shared? && q[i].mode.Shared?
  }

  /** The queue without the requests of `tx`. */
  function Without(q: Queue, tx: nat): (r: Queue)
    ensures forall e :: e in r <==> e in q && e.tx != tx
  {
    if q == [] then [] else
      var rest := Without(q[..|q| - 1], tx);
      assert q == q[..|q| - 1] + [q[|q| - 1]];
      if q[|q| - 1].tx == tx then rest else rest + [q[|q| - 1]]
  }

  /** The queue with the request of `tx` marked as granted. */
  function Mark(q: Queue, tx: nat): (r: Queue)
    ensures |r| == |q|
  {
    seq(|q|, i requires 0 <= i < |q| => if q[i].tx == tx then q[i].(granted := true) else q[i])
  }

  // ---- the steps, on the lock table and the transaction that takes them ----

  datatype Outcome = Outcome(table: LockTable, info: TxInfo, reply: Reply)

  function Grant(table: LockTable, info: TxInfo, tx: nat, rid: RID, mode: Mode): Outcome {
    Outcome(table[rid := Mark(QueueOf(table, rid), tx)],
            if mode.Shared? then info.(shared := info.shared + {rid}) else info.(exclusive := info.exclusive + {rid}),
            Granted)
  }

  /** Append a request and take the lock at once if nothing granted stands against it. */
  function Ask(table: LockTable, info: TxInfo, tx: nat, rid: RID, mode: Mode): Outcome {
    var table' := table[rid := QueueOf(table, rid) + [Request(tx, mode, false)]];
    if CanGrant(table'[rid], tx, mode) then Grant(table', info, tx, rid, mode) else Outcome(table', info, MustWait)
  }

  /** lock_shared, up to the wait. */
  function LockShared(table: LockTable, info: TxInfo, tx: nat, rid: RID): Outcome {
    if !info.phase.Growing? then Outcome(table, info, Refused)
    else if rid in info.shared || rid in info.exclusive then Outcome(table, info, Granted)
    else Ask(table, info, tx, rid, Shared)
  }

  /** lock_exclusive, up to the wait; an upgrade gives up its shared lock first. */
  function LockExclusive(table: LockTable, info: TxInfo, tx: nat, rid: RID): Outcome {
    if !info.phase.Growing? then Outcome(table, info, Refused)
    else if rid in info.exclusive then Outcome(table, info, Granted)
    else if rid in info.shared then
      Ask(table[rid := Without(QueueOf(table, rid), tx)], info.(shared := info.shared - {rid}), tx, rid, Exclusive)
    else Ask(table, info, tx, rid, Exclusive)
  }

  function Lock(table: LockTable, info: TxInfo, tx: nat, rid: RID, mode: Mode): Outcome {
    if mode.Shared? then LockShared(table, info, tx, rid) else LockExclusive(table, info, tx, rid)
  }

  /** The wait is over without the lock. */
  function GiveUp(table: LockTable, info: TxInfo, tx: nat, rid: RID): Outcome {
    Outcome(table[rid := Without(QueueOf(table, rid), tx)], info.(phase := Aborted), Refused)
  }

  /** Drop every request of `tx` on the RIDs it holds. */
  function Release(table: LockTable, info: TxInfo, tx: nat): LockTable {
    map rid | rid in table :: if rid in info.exclusive + info.shared then Without(table[rid], tx) else table[rid]
  }

  // ---- the system ----

  datatype Wait = Idle | Waits(rid: RID, mode: Mode)

  /** Lock table, live transactions, what each is waiting for, and the next transaction id. */
  datatype State = State(table: LockTable, txs: map<nat, TxInfo>, waits: map<nat, Wait>, next: nat)

  datatype Step =
    | Begin
    | Call(tx: nat, rid: RID, mode: Mode)
    | Wake(tx: nat)
    | TimeOut(tx: nat)
    | Use(tx: nat, rid: RID, write: bool, value: Option<seq<byte>>)
    | EnterShrinking(tx: nat)
    | UnlockAll(tx: nat)

  const INIT: State := State(map[], map[], map[], 0)

  predicate Running(s: State, tx: nat) {
    tx in s.txs && tx in s.waits && s.waits[tx].Idle?
  }

  predicate Waiting(s: State, tx: nat) {
    tx in s.txs && tx in s.waits && s.waits[tx].Waits?
  }

  predicate MayUse(info: TxInfo, rid: RID, write: bool) {
    rid in info.exclusive || (!write && rid in info.shared)
  }

  predicate Enabled(s: State, step: Step) {
    match step
    case Begin => true
    case Call(tx, rid, mode) => Running(s, tx)
    case Wake(tx) => Waiting(s, tx) && CanGrant(QueueOf(s.table, s.waits[tx].rid), tx, s.waits[tx].mode)
    case TimeOut(tx) => Waiting(s, tx) && !CanGrant(QueueOf(s.table, s.waits[tx].rid), tx, s.waits[tx].mode)
    case Use(tx, rid, write, _) => Running(s, tx) && MayUse(s.txs[tx], rid, write)
    case EnterShrinking(tx) => Running(s, tx)
    case UnlockAll(tx) => Running(s, tx) && s.txs[tx].phase.Shrinking?
  }

  function Become(s: State, tx: nat, o: Outcome, wait: Wait): State {
    s.(table := o.table, txs := s.txs[tx := o.info], waits := s.waits[tx := wait])
  }

  function Next(s: State, step: Step): State
    requires Enabled(s, step)
  {
    match step
    case Begin =>
      s.(txs := s.txs[s.next := TxInfo(Growing, {}, {})], waits := s.waits[s.next := Idle], next := s.next + 1)
    case Call(tx, rid, mode) =>
      var o := Lock(s.table, s.txs[tx], tx, rid, mode);
      Become(s, tx, o, if o.reply.MustWait? then Waits(rid, mode) else Idle)
    case Wake(tx) =>
      Become(s, tx, Grant(s.table, s.txs[tx], tx, s.waits[tx].rid, s.waits[tx].mode), Idle)
    case TimeOut(tx) =>
      Become(s, tx, GiveUp(s.table, s.txs[tx], tx, s.waits[tx].rid), Idle)
    case Use(tx, rid, write, _) => s
    case EnterShrinking(tx) => s.(txs := s.txs[tx := s.txs[tx].(phase := Shrinking)])
    case UnlockAll(tx) =>
      s.(table := Release(s.table, s.txs[tx], tx), txs := s.txs - {tx}, waits := s.waits - {tx})
  }

  // ---- what every reachable state satisfies ----

  /** At most one request per transaction. */
  ghost predicate OneEach(q: Queue) {
    forall i, j :: 0 <= i < j < |q| ==> q[i].tx != q[j].tx
  }

  /** An exclusive grant excludes every other grant. */
  ghost predicate Excludes(q: Queue) {
    forall a, b | a in q && b in q && a.granted && b.granted && a.mode.Exclusive? :: a == b
  }

  /** The request a transaction has on a RID: what its lock sets and its wait say, no more and no less. */
  ghost predicate Backed(s: State, rid: RID, r: Request) {
    && r.tx in s.txs && r.tx in s.waits
    && (r.granted ==> rid in (if r.mode.Shared? then s.txs[r.tx].shared else s.txs[r.tx].exclusive))
    && (!r.granted ==> s.waits[r.tx] == Waits(rid, r.mode))
  }

  ghost predicate TxConsistent(s: State, tx: nat)
    requires tx in s.txs && tx in s.waits
  {
    var info := s.txs[tx];
    && info.shared !! info.exclusive
    && (forall rid | rid in info.shared :: Request(tx, Shared, true) in QueueOf(s.table, rid))
    && (forall rid | rid in info.exclusive :: Request(tx, Exclusive, true) in QueueOf(s.table, rid))
    && (s.waits[tx].Waits? ==>
          && info.phase.Growing?
          && s.waits[tx].rid !in info.shared && s.waits[tx].rid !in info.exclusive
          && Request(tx, s.waits[tx].mode, false) in QueueOf(s.table, s.waits[tx].rid))
  }

  ghost predicate QueueConsistent(s: State, rid: RID) {
    var q := QueueOf(s.table, rid);
    OneEach(q) && Excludes(q) && forall r | r in q :: Backed(s, rid, r)
  }

  ghost predicate Inv(s: State) {
    && s.txs.Keys == s.waits.Keys
    && (forall tx | tx in s.txs :: tx < s.next && TxConsistent(s, tx))
    && (forall rid: RID :: QueueConsistent(s, rid))
  }

  // ---- queue operations ----

  lemma {:induction false} WithoutKeeps(q: Queue, tx: nat)
    requires OneEach(q)
    ensures OneEach(Without(q, tx))
    ensures Excludes(q) ==> Excludes(Without(q, tx))
  {
    if q != [] {
      var init := q[..|q| - 1];
      assert q == init + [q[|q| - 1]];
      WithoutKeeps(init, tx);
      forall e | e in Without(init, tx) ensures e.tx != q[|q| - 1].tx {
        var k :| 0 <= k < |init| && init[k] == e;
      }
    }
  }

  lemma MarkMembers(q: Queue, r: Request)
    requires OneEach(q) && r in q
    ensures OneEach(Mark(q, r.tx))
    ensures forall e :: e in Mark(q, r.tx) <==> (e in q && e.tx != r.tx) || e == r.(granted := true)
  {
    var m := Mark(q, r.tx);
    var k :| 0 <= k < |q| && q[k] == r;
    forall e ensures e in m <==> (e in q && e.tx != r.tx) || e == r.(granted := true) {
      if e in m {
        var i :| 0 <= i < |m| && m[i] == e;
        assert i == k || q[i].tx != r.tx;
      }
      if e in q && e.tx != r.tx {
        var i :| 0 <= i < |q| && q[i] == e;
        assert m[i] == e;
      }
      assert m[k] == r.(granted := true);
    }
  }

  /** Granting a request that nothing granted stands against keeps exclusive locks exclusive. */
  lemma GrantExcludes(q: Queue, r: Request)
    requires OneEach(q) && Excludes(q) && r in q && CanGrant(q, r.tx, r.mode)
    ensures Excludes(Mark(q, r.tx))
  {
    MarkMembers(q, r);
    forall e | e in q && e.granted && e.tx != r.tx ensures r.mode.Shared? && e.mode.Shared? {
      var i :| 0 <= i < |q| && q[i] == e;
    }
  }

  // ---- every step keeps the invariant ----

  /** What changes when transaction `tx` deals with the queue of one RID. */
  function Local(s: State, tx: nat, rid: RID, q: Queue, info: TxInfo, wait: Wait): State {
    s.(table := s.table[rid := q], txs := s.txs[tx := info], waits := s.waits[tx := wait])
  }

  ghost predicate LocalChange(s: State, tx: nat, rid: RID, q: Queue, info: TxInfo, wait: Wait)
    requires tx in s.txs && tx in s.waits
  {
    && (s.waits[tx].Waits? ==> s.waits[tx].rid == rid)
    && OneEach(q) && Excludes(q)
    && (forall e: Request | e.tx != tx :: e in q <==> e in QueueOf(s.table, rid))
    && (forall r: RID | r != rid ::
        (r in info.shared <==> r in s.txs[tx].shared) && (r in info.exclusive <==> r in s.txs[tx].exclusive))
    && (forall e | e in q && e.tx == tx :: Backed(Local(s, tx, rid, q, info, wait), rid, e))
    && info.shared !! info.exclusive
    && (rid in info.shared ==> Request(tx, Shared, true) in q)
    && (rid in info.exclusive ==> Request(tx, Exclusive, true) in q)
    && (wait.Waits? ==>
          && wait.rid == rid && info.phase.Growing? && rid !in info.shared && rid !in info.exclusive
          && Request(tx, wait.mode, false) in q)
  }

  lemma LocalKeepsInv(s: State, tx: nat, rid: RID, q: Queue, info: TxInfo, wait: Wait)
    requires Inv(s) && tx in s.txs && LocalChange(s, tx, rid, q, info, wait)
    ensures Inv(Local(s, tx, rid, q, info, wait))
  {
    var s' := Local(s, tx, rid, q, info, wait);
    forall t | t in s'.txs ensures t < s'.next && TxConsistent(s', t) {
      LocalKeepsTx(s, tx, rid, q, info, wait, t);
    }
    forall r: RID ensures QueueConsistent(s', r) {
      LocalKeepsQueue(s, tx, rid, q, info, wait, r);
    }
    hide TxConsistent, QueueConsistent, LocalChange;
  }

  lemma LocalKeepsTx(s: State, tx: nat, rid: RID, q: Queue, info: TxInfo, wait: Wait, t: nat)
    requires Inv(s) && tx in s.txs && LocalChange(s, tx, rid, q, info, wait) && t in s.txs
    ensures TxConsistent(Local(s, tx, rid, q, info, wait), t)
  {
    assert TxConsistent(s, t);
    hide QueueConsistent, OneEach, Excludes;
  }

  lemma LocalKeepsQueue(s: State, tx: nat, rid: RID, q: Queue, info: TxInfo, wait: Wait, r: RID)
    requires Inv(s) && tx in s.txs && LocalChange(s, tx, rid, q, info, wait)
    ensures QueueConsistent(Local(s, tx, rid, q, info, wait), r)
  {
    hide OneEach, Excludes, TxConsistent;
    assert QueueConsistent(s, r);
  }

  /** Appending a request to a queue that holds none of `tx`, and granting it if that is possible. */
  lemma AskKeepsInv(s: State, tx: nat, rid: RID, q: Queue, info: TxInfo, mode: Mode, table: LockTable)
    requires Inv(s) && Running(s, tx) && info.phase.Growing?
    requires OneEach(q) && Excludes(q) && forall e :: e in q <==> e in QueueOf(s.table, rid) && e.tx != tx
    requires info.exclusive == s.txs[tx].exclusive && info.shared == s.txs[tx].shared - {rid} && rid !in info.exclusive
    requires QueueOf(table, rid) == q && table[rid := q] == s.table[rid := q]
    ensures var o := Ask(table, info, tx, rid, mode);
            Inv(Become(s, tx, o, if o.reply.MustWait? then Waits(rid, mode) else Idle))
  {
    hide OneEach, Excludes, QueueConsistent, Mark;
    var r := Request(tx, mode, false);
    var q1, o := q + [r], Ask(table, info, tx, rid, mode);
    SameTable(table, s.table, rid, q, q1);
    AppendedOnce(q, r);
    if o.reply.MustWait? {
      assert TxConsistent(s, tx);
      assert LocalChange(s, tx, rid, q1, info, Waits(rid, mode));
      hide LocalChange, Inv;
      LocalKeepsInv(s, tx, rid, q1, info, Waits(rid, mode));
    } else {
      hide Inv;
      GrantedKeepsInv(s, tx, rid, q1, info, r);
      assert o.table == s.table[rid := Mark(q1, tx)];
    }
  }

  lemma SameTable(t: LockTable, t': LockTable, rid: RID, q: Queue, q': Queue)
    requires t[rid := q] == t'[rid := q]
    ensures t[rid := q'] == t'[rid := q']
  {
    assert t[rid := q'] == t[rid := q][rid := q'];
    assert t'[rid := q'] == t'[rid := q][rid := q'];
  }

  lemma AppendedOnce(q: Queue, r: Request)
    requires OneEach(q) && Excludes(q) && !r.granted && forall e | e in q :: e.tx != r.tx
    ensures OneEach(q + [r]) && Excludes(q + [r])
    ensures forall e :: e in q + [r] <==> e in q || e == r
  {
    assert forall i :: 0 <= i < |q| ==> q[i] in q;
  }

  lemma GrantedKeepsInv(s: State, tx: nat, rid: RID, q: Queue, info: TxInfo, r: Request)
    requires Inv(s) && tx in s.txs && (s.waits[tx].Waits? ==> s.waits[tx].rid == rid)
    requires OneEach(q) && Excludes(q) && r in q && r.tx == tx && CanGrant(q, tx, r.mode)
    requires forall e: Request | e.tx != tx :: e in q <==> e in QueueOf(s.table, rid)
    requires info.exclusive == s.txs[tx].exclusive && info.shared == s.txs[tx].shared - {rid} && rid !in info.exclusive
    ensures var o := Grant(s.table[rid := q], info, tx, rid, r.mode);
            Inv(Become(s, tx, o, Idle))
  {
    var o := Grant(s.table[rid := q], info, tx, rid, r.mode);
    var m := Mark(q, tx);
    MarkMembers(q, r);
    GrantExcludes(q, r);
    assert o.table == s.table[rid := m];
    assert TxConsistent(s, tx);
    assert LocalChange(s, tx, rid, m, o.info, Idle);
    LocalKeepsInv(s, tx, rid, m, o.info, Idle);
  }

  lemma CallKeepsInv(s: State, tx: nat, rid: RID, mode: Mode)
    requires Inv(s) && Running(s, tx)
    ensures Inv(Next(s, Call(tx, rid, mode)))
  {
    hide Without, Mark, CanGrant, OneEach, Excludes;
    var info, q, o := s.txs[tx], QueueOf(s.table, rid), Lock(s.table, s.txs[tx], tx, rid, mode);
    assert TxConsistent(s, tx) && QueueConsistent(s, rid);
    if o.table == s.table && o.info == info && !o.reply.MustWait? {
      assert Next(s, Call(tx, rid, mode)) == s;
    } else if rid in info.shared {
      WithoutKeeps(q, tx);
      AskKeepsInv(s, tx, rid, Without(q, tx), info.(shared := info.shared - {rid}), Exclusive,
                  s.table[rid := Without(q, tx)]);
    } else {
      assert forall e | e in q :: Backed(s, rid, e);
      assert info.shared - {rid} == info.shared;
      AskKeepsInv(s, tx, rid, q, info, mode, s.table);
    }
  }

  lemma WaitEndKeepsInv(s: State, tx: nat)
    requires Inv(s) && Waiting(s, tx)
    ensures Enabled(s, Wake(tx)) ==> Inv(Next(s, Wake(tx)))
    ensures Enabled(s, TimeOut(tx)) ==> Inv(Next(s, TimeOut(tx)))
  {
    hide OneEach, Excludes;
    var info, rid, mode := s.txs[tx], s.waits[tx].rid, s.waits[tx].mode;
    var q := QueueOf(s.table, rid);
    assert TxConsistent(s, tx) && QueueConsistent(s, rid);
    assert rid in s.table && s.table[rid := q] == s.table;
    if Enabled(s, Wake(tx)) {
      assert info.shared - {rid} == info.shared;
      GrantedKeepsInv(s, tx, rid, q, info, Request(tx, mode, false));
    } else {
      WithoutKeeps(q, tx);
      LocalKeepsInv(s, tx, rid, Without(q, tx), info.(phase := Aborted), Idle);
    }
  }

  lemma UnlockKeepsInv(s: State, tx: nat)
    requires Inv(s) && Enabled(s, UnlockAll(tx))
    ensures Inv(Next(s, UnlockAll(tx)))
  {
    var s' := Next(s, UnlockAll(tx));
    forall rid: RID ensures QueueConsistent(s', rid) {
      ReleaseKeepsQueue(s, tx, rid);
    }
    forall t | t in s'.txs ensures t < s'.next && TxConsistent(s', t) {
      ReleaseKeepsTx(s, tx, t);
    }
    hide TxConsistent, QueueConsistent;
  }

  /** After unlock_all no queue has a request of `tx`, and the others' requests stay. */
  lemma Released(s: State, tx: nat, rid: RID)
    requires Inv(s) && Enabled(s, UnlockAll(tx))
    ensures QueueOf(Release(s.table, s.txs[tx], tx), rid) == Without(QueueOf(s.table, rid), tx)
  {
    var q := QueueOf(s.table, rid);
    assert TxConsistent(s, tx) && QueueConsistent(s, rid);
    hide TxConsistent, OneEach, Excludes;
    assert forall e | e in q :: Backed(s, rid, e);
    if rid in s.table && rid !in s.txs[tx].exclusive + s.txs[tx].shared {
      assert forall e | e in q :: e.tx != tx;
      WithoutNone(q, tx);
    }
  }

  lemma {:induction false} WithoutNone(q: Queue, tx: nat)
    requires forall e | e in q :: e.tx != tx
    ensures Without(q, tx) == q
  {
    if q != [] {
      assert q == q[..|q| - 1] + [q[|q| - 1]] && q[|q| - 1] in q;
      WithoutNone(q[..|q| - 1], tx);
    }
  }

  lemma ReleaseKeepsQueue(s: State, tx: nat, rid: RID)
    requires Inv(s) && Enabled(s, UnlockAll(tx))
    ensures QueueConsistent(Next(s, UnlockAll(tx)), rid)
  {
    hide TxConsistent, Release;
    assert QueueConsistent(s, rid);
    Released(s, tx, rid);
    WithoutKeeps(QueueOf(s.table, rid), tx);
    hide OneEach, Excludes;
    assert forall e | e in QueueOf(s.table, rid) :: Backed(s, rid, e);
  }

  lemma ReleaseKeepsTx(s: State, tx: nat, t: nat)
    requires Inv(s) && Enabled(s, UnlockAll(tx)) && t in s.txs && t != tx
    ensures t < s.next && TxConsistent(Next(s, UnlockAll(tx)), t)
  {
    hide QueueConsistent, Release;
    assert TxConsistent(s, t);
    forall rid: RID ensures QueueOf(Release(s.table, s.txs[tx], tx), rid) == Without(QueueOf(s.table, rid), tx) {
      Released(s, tx, rid);
    }
  }

  lemma QuietKeepsInv(s: State, step: Step)
    requires Inv(s) && Enabled(s, step) && (step.Begin? || step.Use? || step.EnterShrinking?)
    ensures Inv(Next(s, step))
  {
    hide OneEach, Excludes;
    var s' := Next(s, step);
    forall t | t in s'.txs ensures t < s'.next && TxConsistent(s', t) {
      assert t in s.txs ==> TxConsistent(s, t);
    }
    forall rid: RID ensures QueueConsistent(s', rid) {
      assert QueueConsistent(s, rid);
      assert forall e | e in QueueOf(s.table, rid) :: Backed(s, rid, e);
    }
  }

  lemma StepKeepsInv(s: State, step: Step)
    requires Inv(s) && Enabled(s, step)
    ensures Inv(Next(s, step))
  {
    match step
    case Begin => QuietKeepsInv(s, step);
    case Call(tx, rid, mode) => CallKeepsInv(s, tx, rid, mode);
    case Wake(tx) => WaitEndKeepsInv(s, tx);
    case TimeOut(tx) => WaitEndKeepsInv(s, tx);
    case Use(_, _, _, _) => QuietKeepsInv(s, step);
    case EnterShrinking(_) => QuietKeepsInv(s, step);
    case UnlockAll(tx) => UnlockKeepsInv(s, tx);
  }

  // ---- runs ----

  ghost predicate Run(steps: seq<Step>, states: seq<State>) {
    && |states| == |steps| + 1 && states[0] == INIT
    && forall i: nat | i < |steps| :: StepAt(steps, states, i)
  }

  ghost predicate StepAt(steps: seq<Step>, states: seq<State>, i: nat)
    requires i < |steps| && |states| == |steps| + 1
  {
    Enabled(states[i], steps[i]) && states[i + 1] == Next(states[i], steps[i])
  }

  lemma RunStarts()
    ensures Run([], [INIT])
  {
  }

  lemma RunExtended(steps: seq<Step>, states: seq<State>, step: Step, s: State)
    requires Run(steps, states) && Enabled(states[|steps|], step) && s == Next(states[|steps|], step)
    ensures Run(steps + [step], states + [s])
  {
    hide Enabled, Next;
    var steps', states' := steps + [step], states + [s];
    forall i: nat | i < |steps'| ensures StepAt(steps', states', i) {
      assert i < |steps| ==> StepAt(steps, states, i);
    }
  }

  lemma {:induction false} ReachableInv(steps: seq<Step>, states: seq<State>, i: nat)
    requires Run(steps, states) && i < |states|
    ensures Inv(states[i])
  {
    if i > 0 {
      ReachableInv(steps, states, i - 1);
      assert StepAt(steps, states, i - 1);
      StepKeepsInv(states[i - 1], steps[i - 1]);
    }
  }

  /** In every reachable state an exclusive lock on a RID excludes every other transaction's lock on it. */
  lemma ExclusiveExcludes(steps: seq<Step>, states: seq<State>, i: nat, a: nat, b: nat, rid: RID)
    requires Run(steps, states) && i < |states|
    requires a in states[i].txs && b in states[i].txs && a != b && rid in states[i].txs[a].exclusive
    ensures rid !in states[i].txs[b].exclusive && rid !in states[i].txs[b].shared
  {
    ReachableInv(steps, states, i);
    assert TxConsistent(states[i], a) && TxConsistent(states[i], b) && QueueConsistent(states[i], rid);
  }

  /** Another live transaction has an exclusive lock on the RID, or any lock if an exclusive one is wanted. */
  ghost predicate HeldAgainst(s: State, tx: nat, rid: RID, mode: Mode) {
    exists t | t in s.txs :: t != tx && (rid in s.txs[t].exclusive || (mode.Exclusive? && rid in s.txs[t].shared))
  }

  /**
   * In every reachable state a waiting transaction can take its lock exactly when no other one
   * holds a lock against it, and can time out exactly when one does.
   */
  lemma WakesWhenFree(steps: seq<Step>, states: seq<State>, i: nat, tx: nat)
    requires Run(steps, states) && i < |states| && Waiting(states[i], tx)
    ensures var s := states[i];
            && (Enabled(s, Wake(tx)) <==> !HeldAgainst(s, tx, s.waits[tx].rid, s.waits[tx].mode))
            && (Enabled(s, TimeOut(tx)) <==> HeldAgainst(s, tx, s.waits[tx].rid, s.waits[tx].mode))
  {
    hide Inv;
    ReachableInv(steps, states, i);
    GrantBlocked(states[i], tx, states[i].waits[tx].rid, states[i].waits[tx].mode);
  }

  /**
   * In every reachable state a lock call waits exactly if the transaction is growing, does not
   * hold the lock already, and another one holds a lock against it; else it is answered at once.
   */
  lemma CallWaitsWhenHeld(steps: seq<Step>, states: seq<State>, i: nat, tx: nat, rid: RID, mode: Mode)
    requires Run(steps, states) && i < |states| && Running(states[i], tx)
    ensures var s, o := states[i], Lock(states[i].table, states[i].txs[tx], tx, rid, mode);
            && (o.reply.Refused? <==> !s.txs[tx].phase.Growing?)
            && (o.reply.MustWait? <==>
                  && s.txs[tx].phase.Growing? && !MayUse(s.txs[tx], rid, mode.Exclusive?)
                  && HeldAgainst(s, tx, rid, mode))
  {
    hide Inv, HeldAgainst, Mark;
    ReachableInv(steps, states, i);
    var s := states[i];
    GrantBlocked(s, tx, rid, mode);
    OthersDecide(QueueOf(s.table, rid), QueueOf(s.table, rid) + [Request(tx, mode, false)], tx, mode);
    OthersDecide(QueueOf(s.table, rid), Without(QueueOf(s.table, rid), tx) + [Request(tx, mode, false)], tx, mode);
    hide CanGrant, Without;
  }

  /** Only the granted requests of the others count. */
  lemma OthersDecide(q: Queue, q': Queue, tx: nat, mode: Mode)
    requires forall r: Request | r.tx != tx :: r in q <==> r in q'
    ensures CanGrant(q, tx, mode) <==> CanGrant(q', tx, mode)
  {
    GrantsByOthers(q, tx, mode);
    GrantsByOthers(q', tx, mode);
    hide CanGrant;
  }

  lemma GrantsByOthers(q: Queue, tx: nat, mode: Mode)
    ensures CanGrant(q, tx, mode) <==>
              forall r | r in q :: r.granted && r.tx != tx ==> mode.Shared? && r.mode.Shared?
  {
  }

  lemma GrantBlocked(s: State, tx: nat, rid: RID, mode: Mode)
    requires Inv(s)
    ensures CanGrant(QueueOf(s.table, rid), tx, mode) <==> !HeldAgainst(s, tx, rid, mode)
  {
    var q := QueueOf(s.table, rid);
    GrantsByOthers(q, tx, mode);
    assert QueueConsistent(s, rid);
    forall r | r in q && r.granted && r.tx != tx && !(mode.Shared? && r.mode.Shared?)
      ensures HeldAgainst(s, tx, rid, mode)
    {
      assert Backed(s, rid, r);
    }
    forall t | t in s.txs ensures TxConsistent(s, t) {}
    hide CanGrant, QueueOf, OneEach, Excludes;
  }

  /** In every reachable state a transaction's lock sets are exactly its granted requests. */
  lemma LockSetsAreGrants(steps: seq<Step>, states: seq<State>, i: nat, tx: nat, rid: RID)
    requires Run(steps, states) && i < |states| && tx in states[i].txs
    ensures rid in states[i].txs[tx].shared <==> Request(tx, Shared, true) in QueueOf(states[i].table, rid)
    ensures rid in states[i].txs[tx].exclusive <==> Request(tx, Exclusive, true) in QueueOf(states[i].table, rid)
    ensures OneEach(QueueOf(states[i].table, rid))
  {
    ReachableInv(steps, states, i);
    var s := states[i];
    assert TxConsistent(s, tx) && QueueConsistent(s, rid);
    assert forall e | e in QueueOf(s.table, rid) :: Backed(s, rid, e);
  }

  /** Once a transaction has left its growing phase it takes no lock, and never grows again. */
  lemma NoLockAfterGrowing(s: State, step: Step, tx: nat)
    requires Inv(s) && Enabled(s, step) && tx in s.txs && !s.txs[tx].phase.Growing? && tx in Next(s, step).txs
    ensures var info, info' := s.txs[tx], Next(s, step).txs[tx];
            !info'.phase.Growing? && info'.shared <= info.shared && info'.exclusive <= info.exclusive
  {
    assert TxConsistent(s, tx);
    if step.Begin? {
      assert tx < s.next;
    }
  }

  /**
   * An exclusive lock lasts until its holder's unlock_all, a shared one until that or until
   * its holder's own upgrade of the same RID.
   */
  lemma LocksLast(s: State, step: Step, tx: nat, rid: RID)
    requires Inv(s) && Enabled(s, step) && tx in s.txs && step != UnlockAll(tx)
    ensures tx in Next(s, step).txs
    ensures rid in s.txs[tx].exclusive ==> rid in Next(s, step).txs[tx].exclusive
    ensures rid in s.txs[tx].shared && step != Call(tx, rid, Exclusive) ==> rid in Next(s, step).txs[tx].shared
  {
    if step.Begin? {
      assert tx < s.next;
    }
  }
}
