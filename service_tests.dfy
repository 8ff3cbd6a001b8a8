/**
 * The unit tests of the command service, each stated as a lemma about `Execute` run
 * on a fresh, never-failing store.
 */
module ServiceTests {
  import opened Wrappers
  import opened Kv
  import opened KeyOrder
  import opened Storage
  import opened CommandService
  import opened ServiceProperties

  /** A store none of whose calls fail. */
  const NoFaults: Faults := map[]

  /** Running one more command continues from the state the earlier ones leave. */
  lemma RunAppend(cmds: seq<Command>, cmd: Command, db: Tables)
    ensures Run(cmds + [cmd], db, NoFaults) == Execute(cmd, Run(cmds, db, NoFaults), NoFaults).db
  {
    assert (cmds + [cmd])[..|cmds|] == cmds;
  }

  function SetCmd(table: string, key: string, v: Value): Command {
    Hset(table, Some(NewPair(key, v)))
  }

  /** The first set of a key answers `[default]`, the second the value the first wrote. */
  lemma HsetShouldWork()
    ensures var cmd := SetCmd("t1", "hello", Str("world"));
      var first := Execute(cmd, map[], NoFaults);
      && first.response == FromValue(Absent)
      && Execute(cmd, first.db, NoFaults).response == FromValue(Str("world"))
  {
  }

  lemma HgetShouldWork()
    ensures var db := Run([SetCmd("score", "u1", Integer(10))], map[], NoFaults);
      Execute(Hget("score", "u1"), db, NoFaults).response == FromValue(Integer(10))
  {
  }

  lemma HgetWithNonExistKeyShouldReturn404()
    ensures var r := Execute(Hget("score", "u1"), map[], NoFaults).response;
      r.status == 404 && r.message == Describes(NotFound("score", "u1")) && r.values == [] && r.pairs == []
  {
  }

  /** On a store that never fails, `Hset` of a pair binds its key to its value. */
  lemma SetWrites(db: Tables, table: string, key: string, v: Value)
    ensures Execute(SetCmd(table, key, v), db, NoFaults).db == Put(db, table, key, v)
  {
  }

  /** Three sets in a row leave the state three `Put`s leave. */
  lemma RunThreeSets(db: Tables, t: string, k1: string, k2: string, k3: string, v1: Value, v2: Value, v3: Value)
    ensures Run([SetCmd(t, k1, v1), SetCmd(t, k2, v2), SetCmd(t, k3, v3)], db, NoFaults)
      == Put(Put(Put(db, t, k1, v1), t, k2, v2), t, k3, v3)
  {
    var c1, c2, c3 := SetCmd(t, k1, v1), SetCmd(t, k2, v2), SetCmd(t, k3, v3);
    RunAppend([], c1, db);
    assert [] + [c1] == [c1];
    SetWrites(db, t, k1, v1);
    RunAppend([c1], c2, db);
    assert [c1] + [c2] == [c1, c2];
    SetWrites(Put(db, t, k1, v1), t, k2, v2);
    RunAppend([c1, c2], c3, db);
    assert [c1, c2] + [c3] == [c1, c2, c3];
    SetWrites(Put(Put(db, t, k1, v1), t, k2, v2), t, k3, v3);
  }

  /** A fourth set continues from the state the first three leave. */
  lemma RunFourSets(db: Tables, t: string, k1: string, k2: string, k3: string, k4: string,
                    v1: Value, v2: Value, v3: Value, v4: Value)
    ensures Run([SetCmd(t, k1, v1), SetCmd(t, k2, v2), SetCmd(t, k3, v3), SetCmd(t, k4, v4)], db, NoFaults)
      == Put(Put(Put(Put(db, t, k1, v1), t, k2, v2), t, k3, v3), t, k4, v4)
  {
    var c1, c2, c3, c4 := SetCmd(t, k1, v1), SetCmd(t, k2, v2), SetCmd(t, k3, v3), SetCmd(t, k4, v4);
    RunThreeSets(db, t, k1, k2, k3, v1, v2, v3);
    RunAppend([c1, c2, c3], c4, db);
    assert [c1, c2, c3] + [c4] == [c1, c2, c3, c4];
    SetWrites(Put(Put(Put(db, t, k1, v1), t, k2, v2), t, k3, v3), t, k4, v4);
  }

  /** The ascending listing of the score table the get-all test builds: u1 = 6, u2 = 8, u3 = 11. */
  lemma ScoreListing()
    ensures Enumerate(map[]["u1" := Integer(10)]["u2" := Integer(8)]["u3" := Integer(11)]["u1" := Integer(6)])
      == [NewPair("u1", Integer(6)), NewPair("u2", Integer(8)), NewPair("u3", Integer(11))]
  {
    var t := map[]["u1" := Integer(10)]["u2" := Integer(8)]["u3" := Integer(11)]["u1" := Integer(6)];
    var expected := [NewPair("u1", Integer(6)), NewPair("u2", Integer(8)), NewPair("u3", Integer(11))];
    assert Before("u1", "u2") && Before("u1", "u3") && Before("u2", "u3");
    assert StrictlyAscending(expected);
    assert ListsOnly(expected, t) && ListsAll(expected, t);
    AscendingListingIsUnique(Enumerate(t), expected, t);
  }

  lemma HgetallShouldWork()
    ensures var db := Run([SetCmd("score", "u1", Integer(10)), SetCmd("score", "u2", Integer(8)),
                           SetCmd("score", "u3", Integer(11)), SetCmd("score", "u1", Integer(6))], map[], NoFaults);
      Execute(Hgetall("score"), db, NoFaults).response
        == FromPairs([NewPair("u1", Integer(6)), NewPair("u2", Integer(8)), NewPair("u3", Integer(11))])
  {
    RunFourSets(map[], "score", "u1", "u2", "u3", "u1", Integer(10), Integer(8), Integer(11), Integer(6));
    ScoreListing();
  }

  lemma HmsetShouldWork()
    ensures var cmd := Hmset("score", [NewPair("u1", Integer(6)), NewPair("u2", Integer(8)), NewPair("u3", Integer(11))]);
      Execute(cmd, map[], NoFaults).response == FromValues([Absent, Absent, Absent])
  {
    var pairs := [NewPair("u1", Integer(6)), NewPair("u2", Integer(8)), NewPair("u3", Integer(11))];
    HmsetNewKeys(map[], NoFaults, "score", pairs);
  }

  /** Getting three distinct keys after setting them in one batch answers their values in order. */
  lemma HmgetAfterHmset(db: Tables, t: string, k1: string, k2: string, k3: string, v1: Value, v2: Value, v3: Value)
    requires k1 != k2 && k1 != k3 && k2 != k3
    ensures var written := Execute(Hmset(t, [NewPair(k1, v1), NewPair(k2, v2), NewPair(k3, v3)]), db, NoFaults).db;
      Execute(Hmget(t, [k1, k2, k3]), written, NoFaults).response == FromValues([v1, v2, v3])
  {
    var pairs := [NewPair(k1, v1), NewPair(k2, v2), NewPair(k3, v3)];
    assert pairs[..2] == pairs[..|pairs| - 1];
    assert pairs[..1] == pairs[..2][..1];
    assert LastWrite(pairs[..1], k1) == Some(v1);
    assert LastWrite(pairs[..2], k1) == Some(v1);
    assert LastWrite(pairs[..2], k2) == Some(v2);
    assert LastWrite(pairs, k1) == Some(v1);
    assert LastWrite(pairs, k2) == Some(v2);
    assert LastWrite(pairs, k3) == Some(v3);
    HmsetFinalState(db, NoFaults, t, pairs, t, k1);
    HmsetFinalState(db, NoFaults, t, pairs, t, k2);
    HmsetFinalState(db, NoFaults, t, pairs, t, k3);
  }

  lemma HmgetShouldWork()
    ensures var db := Run([Hmset("score", [NewPair("u1", Integer(6)), NewPair("u2", Integer(8)), NewPair("u3", Integer(11))])],
                          map[], NoFaults);
      Execute(Hmget("score", ["u1", "u2", "u3"]), db, NoFaults).response
        == FromValues([Integer(6), Integer(8), Integer(11)])
  {
    HmgetAfterHmset(map[], "score", "u1", "u2", "u3", Integer(6), Integer(8), Integer(11));
  }

  lemma HdelShouldWork()
    ensures var db := Run([SetCmd("score", "u1", Integer(10))], map[], NoFaults);
      var del := Execute(Hdel("score", "u1"), db, NoFaults);
      && del.response == FromValue(Integer(10))
      && Execute(Hget("score", "u1"), del.db, NoFaults).response.status == 404
  {
  }

  /** Deleting two of three distinct keys answers their values, unbinds them and keeps the third. */
  lemma HmdelTwoOfThree(db: Tables, t: string, k1: string, k2: string, k3: string)
    requires k1 != k2 && k1 != k3 && k2 != k3
    requires Lookup(db, t, k1).Some? && Lookup(db, t, k2).Some?
    ensures var del := Execute(Hmdel(t, [k1, k2]), db, NoFaults);
      && del.response == FromValues([Lookup(db, t, k1).value, Lookup(db, t, k2).value])
      && Lookup(del.db, t, k1) == None && Lookup(del.db, t, k2) == None
      && Lookup(del.db, t, k3) == Lookup(db, t, k3)
  {
    var keys := [k1, k2];
    HmdelRemovedValues(db, NoFaults, t, keys);
    HmdelFinalState(db, NoFaults, t, keys, t, k1);
    HmdelFinalState(db, NoFaults, t, keys, t, k2);
    HmdelFinalState(db, NoFaults, t, keys, t, k3);
  }

  lemma HmdelShouldWork()
    ensures var db := Run([SetCmd("score", "u1", Integer(10)), SetCmd("score", "u2", Integer(8)),
                           SetCmd("score", "u3", Integer(11))], map[], NoFaults);
      var del := Execute(Hmdel("score", ["u1", "u2"]), db, NoFaults);
      && del.response == FromValues([Integer(10), Integer(8)])
      && Execute(Hget("score", "u1"), del.db, NoFaults).response.status == 404
      && Execute(Hget("score", "u2"), del.db, NoFaults).response.status == 404
      && Execute(Hget("score", "u3"), del.db, NoFaults).response == FromValue(Integer(11))
  {
    RunThreeSets(map[], "score", "u1", "u2", "u3", Integer(10), Integer(8), Integer(11));
    var db := Put(Put(Put(map[], "score", "u1", Integer(10)), "score", "u2", Integer(8)), "score", "u3", Integer(11));
    HmdelTwoOfThree(db, "score", "u1", "u2", "u3");
  }

  lemma HexistShouldWork()
    ensures var db := Run([SetCmd("score", "u1", Integer(10))], map[], NoFaults);
      && Execute(Hexist("score", "u1"), db, NoFaults).response == FromValue(Bool(true))
      && Execute(Hexist("score", "u2"), db, NoFaults).response == FromValue(Bool(false))
  {
  }

  lemma HmexistShouldWork()
    ensures var db := Run([SetCmd("score", "u1", Integer(10)), SetCmd("score", "u2", Integer(8))], map[], NoFaults);
      Execute(Hmexist("score", ["u1", "u2", "u3"]), db, NoFaults).response
        == FromValues([Bool(true), Bool(true), Bool(false)])
  {
  }
}
