/** A run of the lock protocol that no serial order explains: two readers both upgrade. */
module LostUpdates {
  import opened Bytes
  import opened Options
  import opened HeapModel
  import opened LockProtocol
  import opened Schedules
  import opened Serializability

  /** What a transaction holds while it grows. */
  function Growth(shared: set<RID>, exclusive: set<RID>): TxInfo { TxInfo(Growing, shared, exclusive) }

  lemma WithoutOne(r: Request, tx: nat)
    ensures Without([r], tx) == if r.tx == tx then [] else [r]
  {
    assert [r][..0] == [];
  }

  lemma WithoutOf(a: Request, b: Request, tx: nat)
    ensures Without([a, b], tx) == (if a.tx == tx then [] else [a]) + (if b.tx == tx then [] else [b])
  {
    assert [a, b][..1] == [a];
    WithoutOne(a, tx);
  }

  lemma MarkOne(r: Request)
    ensures Mark([r], r.tx) == [r.(granted := true)]
  {
  }

  lemma MarkSecond(a: Request, b: Request)
    requires a.tx != b.tx
    ensures Mark([a, b], b.tx) == [a, b.(granted := true)]
  {
  }

  lemma FirstReads(s: State, rid: RID) returns (s': State)
    requires s == State(map[], map[0 := Growth({}, {}), 1 := Growth({}, {})], map[0 := Idle, 1 := Idle], 2)
    ensures Enabled(s, Call(0, rid, Shared)) && s' == Next(s, Call(0, rid, Shared))
    ensures s' == State(map[rid := [Request(0, Shared, true)]], map[0 := Growth({rid}, {}), 1 := Growth({}, {})],
                        map[0 := Idle, 1 := Idle], 2)
  {
    var r := Request(0, Shared, false);
    MarkOne(r);
    assert [] + [r] == [r];
    s' := Next(s, Call(0, rid, Shared));
    assert {} + {rid} == {rid};
    assert s'.txs == map[0 := Growth({rid}, {}), 1 := Growth({}, {})] && s'.waits == s.waits;
    assert s'.table == map[rid := [Request(0, Shared, true)]];
  }

  lemma SecondReads(s: State, rid: RID) returns (s': State)
    requires s == State(map[rid := [Request(0, Shared, true)]], map[0 := Growth({rid}, {}), 1 := Growth({}, {})],
                        map[0 := Idle, 1 := Idle], 2)
    ensures Enabled(s, Call(1, rid, Shared)) && s' == Next(s, Call(1, rid, Shared))
    ensures s' == State(map[rid := [Request(0, Shared, true), Request(1, Shared, true)]],
                        map[0 := Growth({rid}, {}), 1 := Growth({rid}, {})], map[0 := Idle, 1 := Idle], 2)
  {
    var a, b := Request(0, Shared, true), Request(1, Shared, false);
    MarkSecond(a, b);
    assert [a] + [b] == [a, b];
    s' := Next(s, Call(1, rid, Shared));
    assert {} + {rid} == {rid};
    assert s'.txs == map[0 := Growth({rid}, {}), 1 := Growth({rid}, {})] && s'.waits == s.waits;
    assert s'.table == map[rid := [a, Request(1, Shared, true)]];
  }

  /** The upgrade of transaction 0 waits, its shared lock gone. */
  lemma FirstWaits(s: State, rid: RID) returns (s': State)
    requires s == State(map[rid := [Request(0, Shared, true), Request(1, Shared, true)]],
                        map[0 := Growth({rid}, {}), 1 := Growth({rid}, {})], map[0 := Idle, 1 := Idle], 2)
    ensures Enabled(s, Call(0, rid, Exclusive)) && s' == Next(s, Call(0, rid, Exclusive))
    ensures s' == State(map[rid := [Request(1, Shared, true), Request(0, Exclusive, false)]],
                        map[0 := Growth({}, {}), 1 := Growth({rid}, {})], map[0 := Waits(rid, Exclusive), 1 := Idle], 2)
  {
    WithoutOf(Request(0, Shared, true), Request(1, Shared, true), 0);
    assert [] + [Request(1, Shared, true)] == [Request(1, Shared, true)];
    assert [Request(1, Shared, true)] + [Request(0, Exclusive, false)]
           == [Request(1, Shared, true), Request(0, Exclusive, false)];
    assert {rid} - {rid} == {};
    var q := [Request(1, Shared, true), Request(0, Exclusive, false)];
    assert !CanGrant(q, 0, Exclusive) by {
      assert q[0].granted && q[0].tx != 0;
    }
    s' := Next(s, Call(0, rid, Exclusive));
    assert s'.table == map[rid := [Request(1, Shared, true), Request(0, Exclusive, false)]];
    assert s'.txs == map[0 := Growth({}, {}), 1 := Growth({rid}, {})];
    assert s'.waits == map[0 := Waits(rid, Exclusive), 1 := Idle];
  }

  /** The upgrade of transaction 1 is granted at once. */
  lemma SecondUpgrades(s: State, rid: RID) returns (s': State)
    requires s == State(map[rid := [Request(1, Shared, true), Request(0, Exclusive, false)]],
                        map[0 := Growth({}, {}), 1 := Growth({rid}, {})], map[0 := Waits(rid, Exclusive), 1 := Idle], 2)
    ensures Enabled(s, Call(1, rid, Exclusive)) && s' == Next(s, Call(1, rid, Exclusive))
    ensures s' == State(map[rid := [Request(0, Exclusive, false), Request(1, Exclusive, true)]],
                        map[0 := Growth({}, {}), 1 := Growth({}, {rid})], map[0 := Waits(rid, Exclusive), 1 := Idle], 2)
  {
    var a, b := Request(0, Exclusive, false), Request(1, Exclusive, false);
    WithoutOf(Request(1, Shared, true), a, 1);
    assert [] + [a] == [a] && [a] + [b] == [a, b];
    MarkSecond(a, b);
    assert {rid} - {rid} == {} && {} + {rid} == {rid};
    s' := Next(s, Call(1, rid, Exclusive));
  }

  lemma SecondEnds(s: State, rid: RID) returns (s1: State, s2: State)
    requires s == State(map[rid := [Request(0, Exclusive, false), Request(1, Exclusive, true)]],
                        map[0 := Growth({}, {}), 1 := Growth({}, {rid})], map[0 := Waits(rid, Exclusive), 1 := Idle], 2)
    ensures Enabled(s, EnterShrinking(1)) && s1 == Next(s, EnterShrinking(1))
    ensures Enabled(s1, UnlockAll(1)) && s2 == Next(s1, UnlockAll(1))
    ensures s2 == State(map[rid := [Request(0, Exclusive, false)]], map[0 := Growth({}, {})],
                        map[0 := Waits(rid, Exclusive)], 2)
  {
    s1 := Next(s, EnterShrinking(1));
    s2 := Next(s1, UnlockAll(1));
    WithoutOf(Request(0, Exclusive, false), Request(1, Exclusive, true), 1);
    assert s1.txs[1] == TxInfo(Shrinking, {}, {rid});
    assert [Request(0, Exclusive, false)] + [] == [Request(0, Exclusive, false)];
    assert s2.table == map[rid := [Request(0, Exclusive, false)]];
    assert s2.txs == map[0 := Growth({}, {})] && s2.waits == map[0 := Waits(rid, Exclusive)];
  }

  lemma FirstWakesAndEnds(s: State, rid: RID) returns (s1: State, s2: State, s3: State)
    requires s == State(map[rid := [Request(0, Exclusive, false)]], map[0 := Growth({}, {})],
                        map[0 := Waits(rid, Exclusive)], 2)
    ensures Enabled(s, Wake(0)) && s1 == Next(s, Wake(0)) && Running(s1, 0) && MayUse(s1.txs[0], rid, true)
    ensures Enabled(s1, EnterShrinking(0)) && s2 == Next(s1, EnterShrinking(0))
    ensures Enabled(s2, UnlockAll(0)) && s3 == Next(s2, UnlockAll(0)) && s3.txs == map[]
  {
    MarkOne(Request(0, Exclusive, false));
    s1 := Next(s, Wake(0));
    s2 := Next(s1, EnterShrinking(0));
    s3 := Next(s2, UnlockAll(0));
  }

  // ---- the run ----

  /** A run that ends in state `s`, with what it accessed and which transactions it ended. */
  ghost predicate Reached(steps: seq<Step>, states: seq<State>, s: State, accesses: seq<Access>, ended: seq<nat>) {
    && Run(steps, states) && |states| == |steps| + 1 && states[|steps|] == s
    && Accesses(steps) == accesses && EndOrder(steps) == ended
  }

  /** What a step adds to the accesses and to the ended transactions. */
  function Accessed(step: Step): seq<Access> {
    if step.Use? then [Access(step.tx, step.rid, step.write, step.value)] else []
  }

  function Ended(step: Step): seq<nat> { if step.UnlockAll? then [step.tx] else [] }

  lemma OneMore(steps: seq<Step>, states: seq<State>, s: State, accesses: seq<Access>, ended: seq<nat>, step: Step,
                s': State)
    returns (steps': seq<Step>, states': seq<State>)
    requires Reached(steps, states, s, accesses, ended) && Enabled(s, step) && s' == Next(s, step)
    ensures Reached(steps', states', s', accesses + Accessed(step), ended + Ended(step))
  {
    hide Run, Enabled, Next;
    RunExtended(steps, states, step, s');
    steps', states' := steps + [step], states + [s'];
    assert steps'[..|steps|] == steps;
  }

  lemma QuietMore(steps: seq<Step>, states: seq<State>, s: State, accesses: seq<Access>, ended: seq<nat>, step: Step,
                  s': State)
    returns (steps': seq<Step>, states': seq<State>)
    requires Reached(steps, states, s, accesses, ended) && Enabled(s, step) && s' == Next(s, step)
    requires !step.Use? && !step.UnlockAll?
    ensures Reached(steps', states', s', accesses, ended)
  {
    steps', states' := OneMore(steps, states, s, accesses, ended, step, s');
    assert accesses + [] == accesses && ended + [] == ended;
    hide Reached, Next, Enabled;
  }

  lemma Used(steps: seq<Step>, states: seq<State>, s: State, accesses: seq<Access>, ended: seq<nat>,
             tx: nat, rid: RID, write: bool, v: Option<seq<byte>>)
    returns (steps': seq<Step>, states': seq<State>)
    requires Reached(steps, states, s, accesses, ended) && Running(s, tx) && MayUse(s.txs[tx], rid, write)
    ensures Reached(steps', states', s, accesses + [Access(tx, rid, write, v)], ended)
  {
    steps', states' := OneMore(steps, states, s, accesses, ended, Use(tx, rid, write, v), s);
    assert ended + [] == ended;
    hide Reached;
  }

  /** The states of the race, from the first reads to the end of transaction 1. */
  function Began(): State { State(map[], map[0 := Growth({}, {}), 1 := Growth({}, {})], map[0 := Idle, 1 := Idle], 2) }

  lemma TwoBegin() returns (steps: seq<Step>, states: seq<State>)
    ensures Reached(steps, states, Began(), [], [])
  {
    RunStarts();
    assert Reached([], [INIT], INIT, [], []);
    var s1 := Next(INIT, Begin);
    assert Next(s1, Begin) == Began();
    hide Reached;
    steps, states := QuietMore([], [INIT], INIT, [], [], Begin, s1);
    steps, states := QuietMore(steps, states, s1, [], [], Begin, Began());
  }

  lemma BothRead(rid: RID, v: Option<seq<byte>>) returns (steps: seq<Step>, states: seq<State>, s: State)
    ensures Reached(steps, states, s, [Access(0, rid, false, v), Access(1, rid, false, v)], [])
    ensures s == State(map[rid := [Request(0, Shared, true), Request(1, Shared, true)]],
                       map[0 := Growth({rid}, {}), 1 := Growth({rid}, {})], map[0 := Idle, 1 := Idle], 2)
  {
    hide Reached, Next, Enabled;
    steps, states := TwoBegin();
    var s1 := FirstReads(Began(), rid);
    s := SecondReads(s1, rid);
    steps, states := QuietMore(steps, states, Began(), [], [], Call(0, rid, Shared), s1);
    steps, states := QuietMore(steps, states, s1, [], [], Call(1, rid, Shared), s);
    steps, states := Used(steps, states, s, [], [], 0, rid, false, v);
    assert [] + [Access(0, rid, false, v)] == [Access(0, rid, false, v)];
    steps, states := Used(steps, states, s, [Access(0, rid, false, v)], [], 1, rid, false, v);
    assert [Access(0, rid, false, v)] + [Access(1, rid, false, v)]
           == [Access(0, rid, false, v), Access(1, rid, false, v)];
  }

  lemma SecondWins(rid: RID, v: Option<seq<byte>>, w: Option<seq<byte>>)
    returns (steps: seq<Step>, states: seq<State>, s: State)
    ensures Reached(steps, states, s, BeforeLast(rid, v, w), [])
    ensures s == State(map[rid := [Request(0, Exclusive, false), Request(1, Exclusive, true)]],
                       map[0 := Growth({}, {}), 1 := Growth({}, {rid})], map[0 := Waits(rid, Exclusive), 1 := Idle], 2)
  {
    hide Reached, Next, Enabled;
    var s0;
    steps, states, s0 := BothRead(rid, v);
    var s1 := FirstWaits(s0, rid);
    s := SecondUpgrades(s1, rid);
    var seen := [Access(0, rid, false, v), Access(1, rid, false, v)];
    steps, states := QuietMore(steps, states, s0, seen, [], Call(0, rid, Exclusive), s1);
    steps, states := QuietMore(steps, states, s1, seen, [], Call(1, rid, Exclusive), s);
    steps, states := Used(steps, states, s, seen, [], 1, rid, true, w);
    assert seen + [Access(1, rid, true, w)] == BeforeLast(rid, v, w);
  }

  /** The whole run: reads by 0 and 1, the write of 1, which ends, and then the write of 0. */
  lemma RaceRun(rid: RID, v: Option<seq<byte>>, w: Option<seq<byte>>, x: Option<seq<byte>>)
    returns (steps: seq<Step>, states: seq<State>, s: State)
    ensures Reached(steps, states, s, Race(rid, v, w, x), [1, 0]) && s.txs == map[]
  {
    hide Reached, Next, Enabled, BeforeLast;
    var s0;
    steps, states, s0 := SecondWins(rid, v, w);
    var s1, s2 := SecondEnds(s0, rid);
    var s3, s4, s5 := FirstWakesAndEnds(s2, rid);
    s := s5;
    var before := BeforeLast(rid, v, w);
    steps, states := QuietMore(steps, states, s0, before, [], EnterShrinking(1), s1);
    steps, states := Finished(steps, states, s1, before, [], 1, s2);
    steps, states := QuietMore(steps, states, s2, before, [1], Wake(0), s3);
    steps, states := Used(steps, states, s3, before, [1], 0, rid, true, x);
    steps, states := QuietMore(steps, states, s3, Race(rid, v, w, x), [1], EnterShrinking(0), s4);
    steps, states := Finished(steps, states, s4, Race(rid, v, w, x), [1], 0, s5);
  }

  lemma Finished(steps: seq<Step>, states: seq<State>, s: State, accesses: seq<Access>, ended: seq<nat>, tx: nat,
                 s': State)
    returns (steps': seq<Step>, states': seq<State>)
    requires Reached(steps, states, s, accesses, ended) && Enabled(s, UnlockAll(tx)) && s' == Next(s, UnlockAll(tx))
    requires |ended| <= 1
    ensures Reached(steps', states', s', accesses, if ended == [] then [tx] else [ended[0], tx])
  {
    steps', states' := OneMore(steps, states, s, accesses, ended, UnlockAll(tx), s');
    assert accesses + [] == accesses && ended + [tx] == if ended == [] then [tx] else [ended[0], tx];
    hide Reached, Next, Enabled;
  }

  function BeforeLast(rid: RID, v: Option<seq<byte>>, w: Option<seq<byte>>): seq<Access> {
    [Access(0, rid, false, v), Access(1, rid, false, v), Access(1, rid, true, w)]
  }

  function Race(rid: RID, v: Option<seq<byte>>, w: Option<seq<byte>>, x: Option<seq<byte>>): seq<Access> {
    BeforeLast(rid, v, w) + [Access(0, rid, true, x)]
  }

  // ---- no serial order explains it ----

  lemma {:induction false} OnlyIs(s: seq<Access>, a: Access, tx: nat)
    ensures Only(s + [a], tx) == Only(s, tx) + if a.tx == tx then [a] else []
  {
    assert (s + [a])[..|s|] == s;
  }

  lemma RaceByTransaction(rid: RID, v: Option<seq<byte>>, w: Option<seq<byte>>, x: Option<seq<byte>>)
    ensures Only(Race(rid, v, w, x), 0) == [Access(0, rid, false, v), Access(0, rid, true, x)]
    ensures Only(Race(rid, v, w, x), 1) == [Access(1, rid, false, v), Access(1, rid, true, w)]
  {
    var a, b := Access(0, rid, false, v), Access(1, rid, false, v);
    var c, d := Access(1, rid, true, w), Access(0, rid, true, x);
    assert [] + [a] + [b] + [c] + [d] == Race(rid, v, w, x);
    forall tx: nat
      ensures Only(Race(rid, v, w, x), tx) == (if a.tx == tx then [a] else []) + (if b.tx == tx then [b] else [])
                                              + (if c.tx == tx then [c] else []) + (if d.tx == tx then [d] else [])
    {
      assert Only([], tx) == [];
      OnlyIs([], a, tx);
      OnlyIs([] + [a], b, tx);
      OnlyIs([] + [a] + [b], c, tx);
      OnlyIs([] + [a] + [b] + [c], d, tx);
      hide Only;
    }
    hide Only;
  }

  lemma ExecReadFirst(db: Database, r: Access, s: seq<Access>)
    requires !r.write && Value(db, r.rid) != r.value
    ensures Exec(db, [r] + s) == None
  {
  }

  lemma ExecReadWrite(db: Database, rid: RID, tx: nat, v: Option<seq<byte>>, w: Option<seq<byte>>, s: seq<Access>)
    requires Value(db, rid) == v
    ensures Exec(db, [Access(tx, rid, false, v), Access(tx, rid, true, w)] + s) == Exec(Put(db, rid, w), s)
  {
    var a, b := Access(tx, rid, false, v), Access(tx, rid, true, w);
    assert ([a, b] + s)[1..] == [b] + s && ([b] + s)[1..] == s;
    assert Exec(db, [b] + s) == Exec(Put(db, rid, w), s);
  }

  /** One transaction after the other: the second no longer reads what it has read. */
  lemma SecondReadsOther(db: Database, rid: RID, a: nat, b: nat, v: Option<seq<byte>>, w: Option<seq<byte>>,
                         x: Option<seq<byte>>)
    requires Value(db, rid) == v && w != v
    ensures Exec(db, [Access(a, rid, false, v), Access(a, rid, true, w)]
              + [Access(b, rid, false, v), Access(b, rid, true, x)]) == None
  {
    var r := Access(b, rid, false, v);
    ExecReadWrite(db, rid, a, v, w, [r, Access(b, rid, true, x)]);
    assert [r] + [Access(b, rid, true, x)] == [r, Access(b, rid, true, x)];
    ExecReadFirst(Put(db, rid, w), r, [Access(b, rid, true, x)]);
  }

  lemma SerialOfTwo(s: seq<Access>, a: nat, b: nat)
    ensures Serial(s, [a, b]) == Only(s, a) + Only(s, b)
  {
    hide Only;
    assert [a, b][1..] == [b] && [b][1..] == [];
    assert Serial(s, [b]) == Only(s, b) + [];
  }

  lemma RaceExecutes(rid: RID, v: Option<seq<byte>>, w: Option<seq<byte>>, x: Option<seq<byte>>, db: Database)
    requires Value(db, rid) == v
    ensures Exec(db, Race(rid, v, w, x)).Some?
  {
    var s := Race(rid, v, w, x);
    assert s[1..][1..] == s[2..] && s[2..][1..] == s[3..] && s[3..][1..] == [];
    assert Exec(Put(db, rid, w), s[3..]).Some?;
    assert Exec(db, s[2..]).Some?;
    assert Exec(db, s[1..]).Some?;
  }

  /**
   * Upgrades that wait break serializability: there is a run from the initial state in which all
   * transactions end, every read sees what is there, and in no serial order would it.
   */
  lemma LostUpdate(rid: RID, v: Option<seq<byte>>, w: Option<seq<byte>>, x: Option<seq<byte>>, db: Database)
    returns (steps: seq<Step>, states: seq<State>)
    requires Value(db, rid) == v && w != v && x != v
    ensures Run(steps, states) && states[|steps|].txs == map[] && EndOrder(steps) == [1, 0]
    ensures Exec(db, Accesses(steps)).Some?
    ensures Exec(db, Serial(Accesses(steps), [0, 1])) == None && Exec(db, Serial(Accesses(steps), [1, 0])) == None
    ensures !RacesInOrder(steps, EndOrder(steps))
  {
    var s;
    steps, states, s := RaceRun(rid, v, w, x);
    hide Race, Run;
    var race := Accesses(steps);
    hide Accesses, EndOrder;
    RaceExecutes(rid, v, w, x, db);
    RaceByTransaction(rid, v, w, x);
    SerialOfTwo(race, 0, 1);
    SerialOfTwo(race, 1, 0);
    SecondReadsOther(db, rid, 0, 1, v, x, w);
    SecondReadsOther(db, rid, 1, 0, v, w, x);
    assert LiveInOrder(states, []) && [1, 0] + [] == [1, 0];
    hide Exec, Serial, LiveInOrder, RacesInOrder;
    if RacesInOrder(steps, [1, 0]) {
      RunIsSerializable(steps, states, [], db);
      assert false;
    }
  }
}
