/** Schedules of reads and writes, and when one can be rearranged into a serial one. */
module Schedules {
  import opened Options
  import opened Bytes
  import opened HeapModel
  import opened Lists

  /** A read that saw `value`, or a write that left `value`; None is a missing tuple. */
  datatype Access = Access(tx: nat, rid: RID, write: bool, value: Option<seq<byte>>)

  type Database = map<RID, seq<byte>>

  function Value(db: Database, rid: RID): Option<seq<byte>> {
    if rid in db then Some(db[rid]) else None
  }

  function Put(db: Database, rid: RID, value: Option<seq<byte>>): Database {
    if value.Some? then db[rid := value.value] else db - {rid}
  }

  predicate Conflict(a: Access, b: Access) {
    a.tx != b.tx && a.rid == b.rid && (a.write || b.write)
  }

  /** The database after the accesses, or None if some read did not see what was there. */
  function Exec(db: Database, s: seq<Access>): Option<Database>
    decreases |s|
  {
    if s == [] then Some(db)
    else if s[0].write then Exec(Put(db, s[0].rid, s[0].value), s[1..])
    else if Value(db, s[0].rid) == s[0].value then Exec(db, s[1..])
    else None
  }

  /** The accesses of one transaction, in order. */
  function Only(s: seq<Access>, tx: nat): seq<Access> {
    if s == [] then [] else Only(s[..|s| - 1], tx) + if s[|s| - 1].tx == tx then [s[|s| - 1]] else []
  }

  function Others(s: seq<Access>, tx: nat): seq<Access> {
    if s == [] then [] else Others(s[..|s| - 1], tx) + if s[|s| - 1].tx != tx then [s[|s| - 1]] else []
  }

  /** Each transaction's accesses in one block, the blocks in the given order. */
  function Serial(s: seq<Access>, order: seq<nat>): seq<Access> {
    if order == [] then [] else Only(s, order[0]) + Serial(s, order[1..])
  }

  lemma {:induction false} ExecConcat(db: Database, s: seq<Access>, t: seq<Access>)
    ensures Exec(db, s + t) == if Exec(db, s).Some? then Exec(Exec(db, s).value, t) else None
    decreases |s|
  {
    if s == [] {
      assert s + t == t;
    } else {
      assert (s + t)[0] == s[0] && (s + t)[1..] == s[1..] + t;
      ExecConcat(if s[0].write then Put(db, s[0].rid, s[0].value) else db, s[1..], t);
    }
  }

  lemma SwapTwo(db: Database, a: Access, b: Access)
    requires a.tx != b.tx && !Conflict(a, b)
    ensures Exec(db, [a, b]) == Exec(db, [b, a])
  {
    var ab, ba := [a, b], [b, a];
    assert ab[1..] == [b] && ba[1..] == [a];
    if a.write && b.write {
      assert Put(Put(db, a.rid, a.value), b.rid, b.value) == Put(Put(db, b.rid, b.value), a.rid, a.value);
    }
  }

  /** An access moves to the front of a block it does not conflict with. */
  lemma {:induction false} MoveToFront(db: Database, s: seq<Access>, e: Access)
    requires forall i :: 0 <= i < |s| ==> s[i].tx != e.tx && !Conflict(s[i], e)
    ensures Exec(db, s + [e]) == Exec(db, [e] + s)
    decreases |s|
  {
    if s == [] {
      assert s + [e] == [e] + s;
    } else {
      var f, rest := s[0], s[1..];
      assert s + [e] == [f] + (rest + [e]) && [e] + s == [e, f] + rest && [f] + ([e] + rest) == [f, e] + rest;
      ExecConcat(db, [f], rest + [e]);
      ExecConcat(db, [f], [e] + rest);
      if Exec(db, [f]).Some? {
        MoveToFront(Exec(db, [f]).value, rest, e);
      }
      ExecConcat(db, [f, e], rest);
      ExecConcat(db, [e, f], rest);
      SwapTwo(db, f, e);
    }
  }

  lemma {:induction false} OthersOf(s: seq<Access>, tx: nat)
    ensures forall e | e in Others(s, tx) :: e in s && e.tx != tx
    ensures forall e | e in s && e.tx != tx :: e in Others(s, tx)
  {
    if s != [] {
      OthersOf(s[..|s| - 1], tx);
      assert s == s[..|s| - 1] + [s[|s| - 1]];
    }
  }

  /** If nothing before an access of `tx` conflicts with it, `tx` may run first as one block. */
  lemma {:induction false} PullFirst(db: Database, s: seq<Access>, tx: nat)
    requires forall i, j :: 0 <= i < j < |s| && s[j].tx == tx ==> !Conflict(s[i], s[j])
    ensures Exec(db, s) == Exec(db, Only(s, tx) + Others(s, tx))
  {
    if s != [] {
      var init, e := s[..|s| - 1], s[|s| - 1];
      var mine, rest := Only(init, tx), Others(init, tx);
      assert s == init + [e];
      PullFirst(db, init, tx);
      ExecConcat(db, init, [e]);
      ExecConcat(db, mine + rest, [e]);
      if e.tx == tx {
        OthersOf(init, tx);
        assert Others(s, tx) == rest && Only(s, tx) == mine + [e];
        assert (mine + rest) + [e] == mine + (rest + [e]) && (mine + [e]) + rest == mine + ([e] + rest);
        ExecConcat(db, mine, rest + [e]);
        ExecConcat(db, mine, [e] + rest);
        if Exec(db, mine).Some? {
          MoveToFront(Exec(db, mine).value, rest, e);
        }
      } else {
        assert Only(s, tx) == mine && (mine + rest) + [e] == mine + (rest + [e]);
      }
    }
  }

  /** Conflicting accesses come in the order in which `order` lists their transactions. */
  ghost predicate ConflictsFollow(s: seq<Access>, order: seq<nat>) {
    forall i, j :: 0 <= i < j < |s| && Conflict(s[i], s[j]) ==> Precedes(order, s[i].tx, s[j].tx)
  }

  ghost predicate Precedes(order: seq<nat>, a: nat, b: nat) {
    exists x, y :: 0 <= x < y < |order| && order[x] == a && order[y] == b
  }

  /** Where the accesses of the other transactions stand in the whole schedule. */
  lemma {:induction false} OthersEmbed(s: seq<Access>, tx: nat) returns (at: seq<nat>)
    ensures |at| == |Others(s, tx)|
    ensures forall i :: 0 <= i < |at| ==> at[i] < |s| && s[at[i]] == Others(s, tx)[i]
    ensures forall i, j :: 0 <= i < j < |at| ==> at[i] < at[j]
  {
    if s == [] {
      at := [];
    } else {
      at := OthersEmbed(s[..|s| - 1], tx);
      if s[|s| - 1].tx != tx {
        at := at + [|s| - 1];
      }
    }
  }

  lemma {:induction false} OnlyOthers(s: seq<Access>, tx: nat, other: nat)
    requires tx != other
    ensures Only(Others(s, tx), other) == Only(s, other)
  {
    if s != [] {
      var init, e := s[..|s| - 1], s[|s| - 1];
      OnlyOthers(init, tx, other);
      if e.tx != tx {
        assert Others(s, tx)[..|Others(s, tx)| - 1] == Others(init, tx);
      } else {
        assert Others(s, tx) == Others(init, tx) && Only(s, other) == Only(init, other);
      }
    }
  }

  lemma {:induction false} SerialOthers(s: seq<Access>, tx: nat, order: seq<nat>)
    requires tx !in order
    ensures Serial(Others(s, tx), order) == Serial(s, order)
  {
    if order != [] {
      OnlyOthers(s, tx, order[0]);
      SerialOthers(s, tx, order[1..]);
    }
  }

  /**
   * A schedule whose conflicts follow an order of its transactions does what the serial
   * schedule in that order does: every read sees the same value, the database ends the same.
   */
  lemma {:induction false} ConflictSerializable(db: Database, s: seq<Access>, order: seq<nat>)
    requires Distinct(order) && ConflictsFollow(s, order)
    requires forall i :: 0 <= i < |s| ==> s[i].tx in order
    ensures Exec(db, s) == Exec(db, Serial(s, order))
    decreases |order|
  {
    if order == [] {
    } else {
      var a, rest := order[0], Others(s, order[0]);
      FirstHasNoConflict(s, order);
      PullFirst(db, s, a);
      OthersFollow(s, order);
      hide Conflict, ConflictsFollow, Only, Others;
      if Exec(db, Only(s, a)).Some? {
        ConflictSerializable(Exec(db, Only(s, a)).value, rest, order[1..]);
      }
      SerialOthers(s, a, order[1..]);
      ExecConcat(db, Only(s, a), rest);
      ExecConcat(db, Only(s, a), Serial(s, order[1..]));
    }
  }

  lemma FirstHasNoConflict(s: seq<Access>, order: seq<nat>)
    requires order != [] && Distinct(order) && ConflictsFollow(s, order)
    ensures forall i, j :: 0 <= i < j < |s| && s[j].tx == order[0] ==> !Conflict(s[i], s[j])
  {
  }

  lemma OthersFollow(s: seq<Access>, order: seq<nat>)
    requires order != [] && Distinct(order) && ConflictsFollow(s, order)
    requires forall i :: 0 <= i < |s| ==> s[i].tx in order
    ensures Distinct(order[1..]) && order[0] !in order[1..]
    ensures ConflictsFollow(Others(s, order[0]), order[1..])
    ensures forall i :: 0 <= i < |Others(s, order[0])| ==> Others(s, order[0])[i].tx in order[1..]
  {
    var rest := Others(s, order[0]);
    OthersOf(s, order[0]);
    var at := OthersEmbed(s, order[0]);
    hide Others;
    assert order == [order[0]] + order[1..];
    forall i, j | 0 <= i < j < |rest| && Conflict(rest[i], rest[j])
        ensures Precedes(order[1..], rest[i].tx, rest[j].tx) {
      assert Conflict(s[at[i]], s[at[j]]) && at[i] < at[j];
      var x, y :| 0 <= x < y < |order| && order[x] == rest[i].tx && order[y] == rest[j].tx;
      assert rest[i] in rest;
      assert order[1..][x - 1] == order[x] && order[1..][y - 1] == order[y];
    }
  }
}
