/** When a run of the lock protocol is equivalent to a serial one: unless upgrades that wait get in the way, always. */
module Serializability {
  import opened Bytes
  import opened Options
  import opened HeapModel
  import opened Lists
  import opened LockProtocol
  import opened Schedules

  /** The reads and writes of a run. */
  function Accesses(steps: seq<Step>): seq<Access> {
    if steps == [] then [] else
      var last := steps[|steps| - 1];
      Accesses(steps[..|steps| - 1]) + if last.Use? then [Access(last.tx, last.rid, last.write, last.value)] else []
  }

  /** The transactions in the order of their unlock_all steps. */
  function EndOrder(steps: seq<Step>): seq<nat> {
    if steps == [] then [] else
      var last := steps[|steps| - 1];
      EndOrder(steps[..|steps| - 1]) + if last.UnlockAll? then [last.tx] else []
  }

  /** Step `k` is an upgrade of `rid` by `tx` that has to wait, its shared lock already given up. */
  ghost predicate WaitingUpgrade(steps: seq<Step>, states: seq<State>, k: nat, tx: nat, rid: RID)
    requires k < |steps| && |states| == |steps| + 1
  {
    steps[k] == Call(tx, rid, Exclusive) && tx in states[k].txs && rid in states[k].txs[tx].shared
    && Waiting(states[k + 1], tx)
  }

  ghost predicate Holds(s: State, tx: nat, rid: RID, write: bool) {
    tx in s.txs && MayUse(s.txs[tx], rid, write)
  }

  lemma {:induction false} HeldUntil(steps: seq<Step>, states: seq<State>, i: nat, m: nat, tx: nat, rid: RID,
                                     write: bool)
    requires Run(steps, states) && i <= m <= |steps| && Holds(states[i], tx, rid, write)
    requires forall k | i <= k < m :: steps[k] != UnlockAll(tx)
    requires !write ==> forall k | i <= k < m :: !WaitingUpgrade(steps, states, k, tx, rid)
    ensures Holds(states[m], tx, rid, write)
    decreases m
  {
    if i < m {
      HeldUntil(steps, states, i, m - 1, tx, rid, write);
      ReachableInv(steps, states, m - 1);
      assert StepAt(steps, states, m - 1);
      LocksLast(states[m - 1], steps[m - 1], tx, rid);
      if !write && rid in states[m - 1].txs[tx].shared && steps[m - 1] == Call(tx, rid, Exclusive) {
        assert !WaitingUpgrade(steps, states, m - 1, tx, rid);
      }
    }
  }

  lemma HoldersCompatible(s: State, a: nat, b: nat, rid: RID, a_writes: bool, b_writes: bool)
    requires Inv(s) && a != b && (a_writes || b_writes)
    ensures !(Holds(s, a, rid, a_writes) && Holds(s, b, rid, b_writes))
  {
    if a in s.txs && b in s.txs {
      assert TxConsistent(s, a) && TxConsistent(s, b) && QueueConsistent(s, rid);
    }
  }

  /**
   * In any run at all: between two conflicting accesses the first transaction has released
   * its locks, or the first access is a read and its reader began an upgrade that had to wait.
   */
  lemma ConflictSeparated(steps: seq<Step>, states: seq<State>, i: nat, j: nat)
    requires Run(steps, states) && i < j < |steps| && steps[i].Use? && steps[j].Use?
    requires steps[i].tx != steps[j].tx && steps[i].rid == steps[j].rid && (steps[i].write || steps[j].write)
    ensures (exists k :: i < k < j && steps[k] == UnlockAll(steps[i].tx))
         || (!steps[i].write && exists k :: i < k < j && WaitingUpgrade(steps, states, k, steps[i].tx, steps[i].rid))
  {
    var a, b, rid := steps[i].tx, steps[j].tx, steps[i].rid;
    assert StepAt(steps, states, i) && StepAt(steps, states, j);
    ReachableInv(steps, states, j);
    HoldersCompatible(states[j], a, b, rid, steps[i].write, steps[j].write);
    if (forall k | i <= k < j :: steps[k] != UnlockAll(a))
       && (!steps[i].write ==> forall k | i <= k < j :: !WaitingUpgrade(steps, states, k, a, rid))
    {
      HeldUntil(steps, states, i, j, a, rid, steps[i].write);
      assert false;
    }
  }

  // ---- the order in which transactions end ----

  lemma {:induction false} EndsOnce(steps: seq<Step>, states: seq<State>, n: nat)
    requires Run(steps, states) && n <= |steps|
    ensures Distinct(EndOrder(steps[..n]))
    ensures forall tx | tx in EndOrder(steps[..n]) :: tx !in states[n].txs && tx < states[n].next
  {
    if n > 0 {
      EndsOnce(steps, states, n - 1);
      ReachableInv(steps, states, n - 1);
      assert StepAt(steps, states, n - 1);
      assert steps[..n][..n - 1] == steps[..n - 1];
      var before := EndOrder(steps[..n - 1]);
      assert forall x :: 0 <= x < |before| ==> before[x] in before;
    }
  }

  lemma {:induction false} EndIsListed(steps: seq<Step>, k: nat)
    requires k < |steps| && steps[k].UnlockAll?
    ensures steps[k].tx in EndOrder(steps)
  {
    if k < |steps| - 1 {
      EndIsListed(steps[..|steps| - 1], k);
    }
  }

  lemma {:induction false} EndsPrecede(steps: seq<Step>, k: nat, l: nat)
    requires k < l < |steps| && steps[k].UnlockAll? && steps[l].UnlockAll?
    ensures Precedes(EndOrder(steps), steps[k].tx, steps[l].tx)
  {
    var init := steps[..|steps| - 1];
    if l < |steps| - 1 {
      EndsPrecede(init, k, l);
      var x, y :| 0 <= x < y < |EndOrder(init)| && EndOrder(init)[x] == steps[k].tx && EndOrder(init)[y] == steps[l].tx;
      assert EndOrder(steps)[x] == steps[k].tx && EndOrder(steps)[y] == steps[l].tx;
    } else {
      EndIsListed(init, k);
      var x :| 0 <= x < |EndOrder(init)| && EndOrder(init)[x] == steps[k].tx;
      assert EndOrder(steps)[x] == steps[k].tx && EndOrder(steps)[|EndOrder(init)|] == steps[l].tx;
    }
  }

  /** A transaction that is live at some point releases its locks later on, or is live at the end. */
  lemma {:induction false} EndsLater(steps: seq<Step>, states: seq<State>, m: nat, tx: nat) returns (k: nat)
    requires Run(steps, states) && m <= |steps| && tx in states[m].txs
    ensures m <= k <= |steps|
    ensures if k < |steps| then steps[k] == UnlockAll(tx) else tx in states[|steps|].txs
    decreases |steps| - m
  {
    if m == |steps| {
      k := m;
    } else if steps[m] == UnlockAll(tx) {
      k := m;
    } else {
      assert StepAt(steps, states, m);
      ReachableInv(steps, states, m);
      LocksLast(states[m], steps[m], tx, RID(0, 0));
      k := EndsLater(steps, states, m + 1, tx);
    }
  }

  /** `at` lists the steps that are accesses. */
  ghost predicate Embeds(steps: seq<Step>, at: seq<nat>) {
    && |at| == |Accesses(steps)|
    && (forall i | 0 <= i < |at| ::
        at[i] < |steps| && steps[at[i]].Use? && Accesses(steps)[i] == AccessOf(steps[at[i]]))
    && (forall i, j | 0 <= i < j < |at| :: at[i] < at[j])
    && (forall k: nat | k < |steps| && steps[k].Use? :: k in at)
  }

  function AccessOf(step: Step): Access
    requires step.Use?
  {
    Access(step.tx, step.rid, step.write, step.value)
  }

  lemma {:induction false} AccessesEmbed(steps: seq<Step>) returns (at: seq<nat>)
    ensures Embeds(steps, at)
  {
    if steps == [] {
      at := [];
    } else {
      hide Embeds;
      var n := |steps| - 1;
      at := AccessesEmbed(steps[..n]);
      if steps[n].Use? {
        EmbedsUse(steps, at, n);
        at := at + [n];
      } else {
        EmbedsOther(steps, at, n);
      }
    }
  }

  lemma EmbedsUse(steps: seq<Step>, at: seq<nat>, n: nat)
    requires |steps| == n + 1 && Embeds(steps[..n], at) && steps[n].Use?
    ensures Embeds(steps, at + [n])
  {
    var at' := at + [n];
    assert Accesses(steps) == Accesses(steps[..n]) + [AccessOf(steps[n])];
    hide Accesses;
    forall k: nat | k < |steps| && steps[k].Use? ensures k in at' {
      if k < n {
        assert steps[..n][k].Use?;
        var i :| 0 <= i < |at| && at[i] == k;
        assert at'[i] == k;
      } else {
        assert at'[|at|] == k;
      }
    }
    forall i | 0 <= i < |at'|
      ensures at'[i] < |steps| && steps[at'[i]].Use? && Accesses(steps)[i] == AccessOf(steps[at'[i]])
    {
      assert i < |at| ==> steps[..n][at[i]] == steps[at[i]];
    }
  }

  lemma EmbedsOther(steps: seq<Step>, at: seq<nat>, n: nat)
    requires |steps| == n + 1 && Embeds(steps[..n], at) && !steps[n].Use?
    ensures Embeds(steps, at)
  {
    assert Accesses(steps) == Accesses(steps[..n]);
    hide Accesses;
    assert forall k: nat | k < n :: steps[..n][k] == steps[k];
  }

  /** Step `j` writes what step `i` has read for another transaction, which has not released its locks since. */
  ghost predicate Raced(steps: seq<Step>, i: nat, j: nat) {
    && i < j < |steps| && steps[i].Use? && !steps[i].write && steps[j].Use? && steps[j].write
    && steps[i].rid == steps[j].rid && steps[i].tx != steps[j].tx
    && forall k | i < k < j :: steps[k] != UnlockAll(steps[i].tx)
  }

  /** Every reader whose value was overwritten under its hands comes before the writer. */
  ghost predicate RacesInOrder(steps: seq<Step>, order: seq<nat>) {
    forall i: nat, j: nat | Raced(steps, i, j) :: Precedes(order, steps[i].tx, steps[j].tx)
  }

  /** While an upgrade waits, and until its transaction ends, nobody else writes the RID. */
  ghost predicate UpgradesUnraced(steps: seq<Step>, states: seq<State>)
    requires |states| == |steps| + 1
  {
    forall k: nat, j: nat, tx, rid |
      && k < j < |steps| && WaitingUpgrade(steps, states, k, tx, rid)
      && steps[j].Use? && steps[j].write && steps[j].rid == rid && steps[j].tx != tx ::
        exists l :: k < l < j && steps[l] == UnlockAll(tx)
  }

  /** A read is overwritten before its reader ends only while an upgrade of the reader waits, or after it has waited. */
  lemma RaceNeedsWaiting(steps: seq<Step>, states: seq<State>, i: nat, j: nat) returns (k: nat)
    requires Run(steps, states) && Raced(steps, i, j)
    ensures i < k < j && WaitingUpgrade(steps, states, k, steps[i].tx, steps[i].rid)
  {
    ConflictSeparated(steps, states, i, j);
    k :| i < k < j && WaitingUpgrade(steps, states, k, steps[i].tx, steps[i].rid);
  }

  lemma UnracedInOrder(steps: seq<Step>, states: seq<State>, order: seq<nat>)
    requires Run(steps, states) && UpgradesUnraced(steps, states)
    ensures RacesInOrder(steps, order)
  {
    forall i: nat, j: nat ensures !Raced(steps, i, j) {
      NotRaced(steps, states, i, j);
    }
  }

  lemma NotRaced(steps: seq<Step>, states: seq<State>, i: nat, j: nat)
    requires Run(steps, states) && UpgradesUnraced(steps, states)
    ensures !Raced(steps, i, j)
  {
    if Raced(steps, i, j) {
      var _ := RaceNeedsWaiting(steps, states, i, j);
    }
  }

  /** `live` lists the transactions still live after the run, in any order. */
  ghost predicate LiveInOrder(states: seq<State>, live: seq<nat>) {
    states != [] && Distinct(live) && forall tx: nat :: tx in live <==> tx in states[|states| - 1].txs
  }

  lemma OrderDistinct(steps: seq<Step>, states: seq<State>, live: seq<nat>)
    requires Run(steps, states) && LiveInOrder(states, live)
    ensures Distinct(EndOrder(steps) + live)
  {
    EndsOnce(steps, states, |steps|);
    assert steps[..|steps|] == steps;
    hide EndOrder, Run;
    assert forall x :: 0 <= x < |EndOrder(steps)| ==> EndOrder(steps)[x] in EndOrder(steps);
    assert forall x :: 0 <= x < |live| ==> live[x] in live;
  }

  lemma PrecedesIn(ended: seq<nat>, live: seq<nat>, a: nat, b: nat)
    requires Precedes(ended, a, b) || (a in ended && b in live)
    ensures Precedes(ended + live, a, b)
  {
    var order := ended + live;
    if Precedes(ended, a, b) {
      var x, y :| 0 <= x < y < |ended| && ended[x] == a && ended[y] == b;
      assert order[x] == a && order[y] == b;
    } else {
      var x :| 0 <= x < |ended| && ended[x] == a;
      var y :| 0 <= y < |live| && live[y] == b;
      assert order[x] == a && order[|ended| + y] == b;
    }
  }

  /** Two conflicting accesses at steps `i` and `j`: their transactions end, or live on, in this order. */
  lemma ConflictOrdered(steps: seq<Step>, states: seq<State>, live: seq<nat>, i: nat, j: nat)
    requires Run(steps, states) && LiveInOrder(states, live)
    requires i < j < |steps| && steps[i].Use? && steps[j].Use? && !Raced(steps, i, j)
    requires steps[i].tx != steps[j].tx && steps[i].rid == steps[j].rid && (steps[i].write || steps[j].write)
    ensures Precedes(EndOrder(steps) + live, steps[i].tx, steps[j].tx)
  {
    ConflictSeparated(steps, states, i, j);
    var k :| i < k < j && steps[k] == UnlockAll(steps[i].tx);
    assert StepAt(steps, states, j);
    var l := EndsLater(steps, states, j, steps[j].tx);
    EndIsListed(steps, k);
    if l < |steps| {
      EndsPrecede(steps, k, l);
    }
    hide EndOrder, Precedes;
    PrecedesIn(EndOrder(steps), live, steps[i].tx, steps[j].tx);
  }

  lemma AccessorListed(steps: seq<Step>, states: seq<State>, live: seq<nat>, i: nat)
    requires Run(steps, states) && LiveInOrder(states, live) && i < |steps| && steps[i].Use?
    ensures steps[i].tx in EndOrder(steps) + live
  {
    assert StepAt(steps, states, i);
    var l := EndsLater(steps, states, i, steps[i].tx);
    if l < |steps| {
      EndIsListed(steps, l);
    }
  }

  /** Of any two conflicting accesses that the order does not follow, the first is a read that was raced. */
  lemma ConflictsFollowIfRacesDo(steps: seq<Step>, states: seq<State>, live: seq<nat>)
    requires Run(steps, states) && LiveInOrder(states, live) && RacesInOrder(steps, EndOrder(steps) + live)
    ensures ConflictsFollow(Accesses(steps), EndOrder(steps) + live)
  {
    var s, order := Accesses(steps), EndOrder(steps) + live;
    var at := AccessesEmbed(steps);
    hide Accesses, EndOrder, Precedes, LiveInOrder, Raced, Run;
    forall i, j | 0 <= i < j < |s| && Conflict(s[i], s[j]) ensures Precedes(order, s[i].tx, s[j].tx) {
      if !Raced(steps, at[i], at[j]) {
        ConflictOrdered(steps, states, live, at[i], at[j]);
      }
    }
  }

  lemma RacesFollowIfConflictsDo(steps: seq<Step>, order: seq<nat>)
    requires ConflictsFollow(Accesses(steps), order)
    ensures RacesInOrder(steps, order)
  {
    var s := Accesses(steps);
    var at := AccessesEmbed(steps);
    hide Accesses, Precedes;
    forall i: nat, j: nat | Raced(steps, i, j) ensures Precedes(order, steps[i].tx, steps[j].tx) {
      assert i in at && j in at;
      var x, y :| 0 <= x < |at| && 0 <= y < |at| && at[x] == i && at[y] == j;
      assert x < y;
      assert Conflict(s[x], s[y]);
    }
  }

  /**
   * In any run all conflicts follow the unlock_all steps, live transactions last, if and only if
   * the reads that were overwritten before their readers ended do.
   */
  lemma UnlockOrderFollowsConflicts(steps: seq<Step>, states: seq<State>, live: seq<nat>)
    requires Run(steps, states) && LiveInOrder(states, live)
    ensures var order := EndOrder(steps) + live;
            && Distinct(order) && (ConflictsFollow(Accesses(steps), order) <==> RacesInOrder(steps, order))
            && forall i :: 0 <= i < |Accesses(steps)| ==> Accesses(steps)[i].tx in order
  {
    var s, order := Accesses(steps), EndOrder(steps) + live;
    OrderDistinct(steps, states, live);
    var at := AccessesEmbed(steps);
    hide Accesses, EndOrder, Precedes, LiveInOrder, Distinct, ConflictsFollow, RacesInOrder, Run;
    if RacesInOrder(steps, order) {
      ConflictsFollowIfRacesDo(steps, states, live);
    }
    if ConflictsFollow(s, order) {
      RacesFollowIfConflictsDo(steps, order);
    }
    forall i | 0 <= i < |s| ensures s[i].tx in order {
      AccessorListed(steps, states, live, at[i]);
    }
  }

  /**
   * Serializability: running the transactions one after the other, those that have ended in the
   * order in which they released their locks and then the live ones as far as they got, gives
   * every read the value it saw and leaves the same database. No upgrade that waits may be raced
   * by a transaction that comes earlier in this order.
   */
  lemma RunIsSerializable(steps: seq<Step>, states: seq<State>, live: seq<nat>, db: Database)
    requires Run(steps, states) && LiveInOrder(states, live) && RacesInOrder(steps, EndOrder(steps) + live)
    ensures Exec(db, Accesses(steps)) == Exec(db, Serial(Accesses(steps), EndOrder(steps) + live))
  {
    UnlockOrderFollowsConflicts(steps, states, live);
    hide Run, RacesInOrder, LiveInOrder, Accesses, EndOrder, Exec, Serial;
    ConflictSerializable(db, Accesses(steps), EndOrder(steps) + live);
  }

  // ---- why upgrades that wait can get in the way ----

  /** Only `a` and `b` are granted anything on `rid`, and both are reading it. */
  ghost predicate TwoReaders(s: State, a: nat, b: nat, rid: RID) {
    && a != b && Running(s, a) && Running(s, b)
    && s.txs[a].phase.Growing? && s.txs[b].phase.Growing? && rid in s.txs[a].shared && rid in s.txs[b].shared
    && forall r | r in QueueOf(s.table, rid) && r.granted :: r.tx == a || r.tx == b
  }

  /**
   * When both readers upgrade, the first waits without any lock, the second gets its lock at
   * once, writes and ends, and then the first overwrites what it never saw.
   */
  lemma UpgradesRace(s: State, a: nat, b: nat, rid: RID, v: Option<seq<byte>>, w: Option<seq<byte>>)
    returns (s1: State, s2: State, s3: State, s4: State, s5: State)
    requires Inv(s) && TwoReaders(s, a, b, rid)
    ensures Enabled(s, Call(a, rid, Exclusive)) && s1 == Next(s, Call(a, rid, Exclusive))
    ensures Waiting(s1, a) && !Holds(s1, a, rid, false)
    ensures Enabled(s1, Call(b, rid, Exclusive)) && s2 == Next(s1, Call(b, rid, Exclusive))
    ensures Enabled(s2, Use(b, rid, true, v)) && Enabled(s2, EnterShrinking(b)) && s3 == Next(s2, EnterShrinking(b))
    ensures Enabled(s3, UnlockAll(b)) && s4 == Next(s3, UnlockAll(b))
    ensures Enabled(s4, Wake(a)) && s5 == Next(s4, Wake(a)) && Enabled(s5, Use(a, rid, true, w))
  {
    hide Inv, Next;
    s1 := FirstUpgradeWaits(s, a, b, rid);
    s2 := SecondUpgradeWins(s1, a, b, rid);
    s3, s4 := WinnerLeaves(s2, a, b, rid);
    s5 := Next(s4, Wake(a));
    LoserWrites(s4, a, rid);
  }

  lemma LoserWrites(s: State, a: nat, rid: RID)
    requires Enabled(s, Wake(a)) && s.waits[a] == Waits(rid, Exclusive)
    ensures Running(Next(s, Wake(a)), a) && rid in Next(s, Wake(a)).txs[a].exclusive
  {
  }

  lemma WinnerLeaves(s: State, a: nat, b: nat, rid: RID) returns (s3: State, s4: State)
    requires Inv(s) && a != b && Waiting(s, a) && s.waits[a] == Waits(rid, Exclusive)
    requires Running(s, b) && rid in s.txs[b].exclusive
    requires forall r | r in QueueOf(s.table, rid) && r.granted :: r.tx == b
    ensures s3 == Next(s, EnterShrinking(b)) && Enabled(s3, UnlockAll(b)) && s4 == Next(s3, UnlockAll(b))
    ensures Enabled(s4, Wake(a)) && s4.waits[a] == Waits(rid, Exclusive)
  {
    s3 := Next(s, EnterShrinking(b));
    s4 := Next(s3, UnlockAll(b));
    var q := QueueOf(s4.table, rid);
    assert TxConsistent(s, b);
    assert CanGrant(q, a, Exclusive) by {
      assert forall i :: 0 <= i < |q| ==> q[i] in q;
    }
  }

  lemma FirstUpgradeWaits(s: State, a: nat, b: nat, rid: RID) returns (s1: State)
    requires Inv(s) && TwoReaders(s, a, b, rid)
    ensures s1 == Next(s, Call(a, rid, Exclusive)) && Inv(s1) && Waiting(s1, a) && s1.waits[a] == Waits(rid, Exclusive)
    ensures a in s1.txs && b in s1.txs && s1.txs[b] == s.txs[b] && Running(s1, b)
              && rid !in s1.txs[a].shared + s1.txs[a].exclusive
    ensures forall r | r in QueueOf(s1.table, rid) && r.granted :: r.tx == b
  {
    assert TxConsistent(s, a) && TxConsistent(s, b);
    s1 := Next(s, Call(a, rid, Exclusive));
    StepKeepsInv(s, Call(a, rid, Exclusive));
    var q := Without(QueueOf(s.table, rid), a) + [Request(a, Exclusive, false)];
    assert Request(b, Shared, true) in q;
    assert !CanGrant(q, a, Exclusive) by {
      var i :| 0 <= i < |q| && q[i] == Request(b, Shared, true);
    }
  }

  lemma SecondUpgradeWins(s: State, a: nat, b: nat, rid: RID) returns (s2: State)
    requires Inv(s) && a != b && Waiting(s, a) && s.waits[a] == Waits(rid, Exclusive)
    requires Running(s, b) && s.txs[b].phase.Growing? && rid in s.txs[b].shared
    requires forall r | r in QueueOf(s.table, rid) && r.granted :: r.tx == b
    ensures s2 == Next(s, Call(b, rid, Exclusive)) && Inv(s2) && Running(s2, b) && rid in s2.txs[b].exclusive
    ensures Waiting(s2, a) && s2.txs[a] == s.txs[a] && s2.waits[a] == s.waits[a]
    ensures forall r | r in QueueOf(s2.table, rid) && r.granted :: r.tx == b
  {
    assert TxConsistent(s, b);
    s2 := Next(s, Call(b, rid, Exclusive));
    StepKeepsInv(s, Call(b, rid, Exclusive));
    var q := Without(QueueOf(s.table, rid), b) + [Request(b, Exclusive, false)];
    assert CanGrant(q, b, Exclusive) by {
      assert forall i :: 0 <= i < |q| ==> q[i] in q;
    }
    assert QueueOf(s2.table, rid) == Mark(q, b);
    forall r | r in QueueOf(s2.table, rid) && r.granted ensures r.tx == b {
      var i :| 0 <= i < |q| && Mark(q, b)[i] == r;
      assert q[i] in q;
    }
  }

  /** A read, another transaction's write and the reader's own write, in this order, fit no serial order. */
  lemma LostUpdateFitsNoOrder(s: seq<Access>, i: nat, j: nat, k: nat, order: seq<nat>)
    requires i < j < k < |s| && Distinct(order)
    requires s[i].rid == s[j].rid == s[k].rid && s[i].tx == s[k].tx != s[j].tx && s[j].write && s[k].write
    ensures !ConflictsFollow(s, order)
  {
    if ConflictsFollow(s, order) {
      assert Conflict(s[i], s[j]) && Conflict(s[j], s[k]);
    }
  }
}
