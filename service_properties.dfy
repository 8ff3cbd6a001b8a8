/**
 * Properties of the dispatcher that relate several commands: round trips between
 * writes and reads, and each batch command against the single-key command it repeats.
 */
module ServiceProperties {
  import opened Wrappers
  import opened Kv
  import opened Storage
  import opened CommandService

  /** What a batch keeps of a single-key response: its value on success, else `Value::default()`. */
  function Kept(r: Response): Value {
    if r.status == STATUS_OK && |r.values| > 0 then r.values[0] else Absent
  }

  /** The value the last pair for `key` in `pairs` writes, if any pair is for `key`. */
  function LastWrite(pairs: seq<Kvpair>, key: string): Option<Value> {
    if pairs == [] then None
    else if pairs[|pairs| - 1].key == key then Some(PairValue(pairs[|pairs| - 1]))
    else LastWrite(pairs[..|pairs| - 1], key)
  }

  // ---------------------------------------------------------------- single-key round trips

  /** After `Hset(T, K, V)`, `Hget(T, K)` answers `[V]`. */
  lemma SetThenGet(db: Tables, faults: Faults, table: string, key: string, v: Value)
    requires SetCall(table, key) !in faults && GetCall(table, key) !in faults
    ensures Execute(Hget(table, key), Execute(Hset(table, Some(NewPair(key, v))), db, faults).db, faults).response
      == FromValue(v)
  {
  }

  /** A set answers with the value it overwrote, so setting the same pair twice answers `[V]` the second time. */
  lemma SetTwiceReturnsFirst(db: Tables, faults: Faults, table: string, key: string, v: Value)
    requires SetCall(table, key) !in faults
    ensures var first := Execute(Hset(table, Some(NewPair(key, v))), db, faults);
      && first.response == FromValue(LookupOrAbsent(db, table, key))
      && Execute(Hset(table, Some(NewPair(key, v))), first.db, faults).response == FromValue(v)
  {
  }

  /** `Hdel` on a bound key answers with its value, and a later `Hget` answers `NotFound` (404). */
  lemma DeleteThenGet(db: Tables, faults: Faults, table: string, key: string)
    requires DelCall(table, key) !in faults && GetCall(table, key) !in faults
    requires Lookup(db, table, key).Some?
    ensures var del := Execute(Hdel(table, key), db, faults);
      && del.response == FromValue(Lookup(db, table, key).value)
      && Execute(Hget(table, key), del.db, faults).response == FromError(NotFound(table, key))
      && Execute(Hget(table, key), del.db, faults).response.status == STATUS_NOT_FOUND
  {
  }

  /** After `Hset(T, K, V)`, `Hgetall(T)` lists `(K, V)` and no other pair for `K`. */
  lemma SetThenGetAll(db: Tables, faults: Faults, table: string, key: string, v: Value)
    requires SetCall(table, key) !in faults && GetAllCall(table) !in faults
    ensures var all := Execute(Hgetall(table), Execute(Hset(table, Some(NewPair(key, v))), db, faults).db, faults);
      && all.response.status == STATUS_OK
      && NewPair(key, v) in all.response.pairs
      && forall p :: p in all.response.pairs && p.key == key ==> p == NewPair(key, v)
  {
    var s := HsetStep(db, faults, table, Some(NewPair(key, v)));
    assert Lookup(s.db, table, key) == Some(v);
  }

  /** `Hexist` answers true after a set of the key and false after its deletion. */
  lemma ExistAfterSetAndDelete(db: Tables, faults: Faults, table: string, key: string, v: Value)
    requires SetCall(table, key) !in faults && DelCall(table, key) !in faults && ContainsCall(table, key) !in faults
    ensures var written := Execute(Hset(table, Some(NewPair(key, v))), db, faults);
      && Execute(Hexist(table, key), written.db, faults).response == FromValue(Bool(true))
      && Execute(Hexist(table, key), Execute(Hdel(table, key), written.db, faults).db, faults).response
        == FromValue(Bool(false))
  {
  }

  // ---------------------------------------------------------------- batch reads against single reads

  /** Position `i` of `Hmget` is what `Hget` of key `i` answers, its error turned into `Value::default()`. */
  lemma HmgetAgreesWithHget(db: Tables, faults: Faults, table: string, keys: seq<string>, i: nat)
    requires i < |keys|
    ensures ExecuteHmget(db, faults, table, keys).values[i] == Kept(ExecuteHget(db, faults, table, keys[i]))
  {
  }

  /** Position `i` of `Hmexist` is what `Hexist` of key `i` answers, its error turned into `Value::default()`. */
  lemma HmexistAgreesWithHexist(db: Tables, faults: Faults, table: string, keys: seq<string>, i: nat)
    requires i < |keys|
    ensures ExecuteHmexist(db, faults, table, keys).values[i] == Kept(ExecuteHexist(db, faults, table, keys[i]))
  {
  }

  // ---------------------------------------------------------------- batch writes against single writes

  /** What a batch keeps of one `Hset` is what it keeps of the `set` it makes. */
  lemma KeptOfHset(db: Tables, faults: Faults, table: string, pair: Kvpair)
    ensures var u := StoreSet(db, faults, table, pair.key, PairValue(pair));
      var s := HsetStep(db, faults, table, Some(pair));
      Kept(s.response) == OrAbsent(u.result) && s.db == u.db
  {
  }

  /** What a batch keeps of one `Hdel` is what it keeps of the `del` it makes. */
  lemma KeptOfHdel(db: Tables, faults: Faults, table: string, key: string)
    ensures var u := StoreDel(db, faults, table, key);
      var s := HdelStep(db, faults, table, key);
      Kept(s.response) == OrAbsent(u.result) && s.db == u.db
  {
  }

  /**
   * `Hmset` is a run of `Hset`s, one per pair in order: position `i` is what `Hset` of pair `i`
   * answers in the state the first `i` pairs leave (an error becoming `Value::default()`), and
   * the state after `i + 1` pairs is the state that `Hset` leaves.
   */
  lemma HmsetIsSequenceOfHset(db: Tables, faults: Faults, table: string, pairs: seq<Kvpair>, i: nat)
    requires i < |pairs|
    ensures var s := HsetStep(SetEach(db, faults, table, pairs[..i]).db, faults, table, Some(pairs[i]));
      && SetEach(db, faults, table, pairs).values[i] == Kept(s.response)
      && SetEach(db, faults, table, pairs[..i + 1]).db == s.db
  {
    SetEachAt(db, faults, table, pairs, i);
    KeptOfHset(SetEach(db, faults, table, pairs[..i]).db, faults, table, pairs[i]);
  }

  /** Position `i` of a batch of sets is what the `set` of pair `i` returns after the first `i` pairs. */
  lemma SetEachAt(db: Tables, faults: Faults, table: string, pairs: seq<Kvpair>, i: nat)
    requires i < |pairs|
    ensures var before := SetEach(db, faults, table, pairs[..i]);
      var u := StoreSet(before.db, faults, table, pairs[i].key, PairValue(pairs[i]));
      && SetEach(db, faults, table, pairs).values[i] == OrAbsent(u.result)
      && SetEach(db, faults, table, pairs[..i + 1]).db == u.db
  {
    SetEachPrefix(db, faults, table, pairs, i + 1);
    SetEachLast(db, faults, table, pairs, i);
  }

  /** The first `n` values of a batch of sets are the values of the batch of its first `n` pairs. */
  lemma {:induction false} SetEachPrefix(db: Tables, faults: Faults, table: string, pairs: seq<Kvpair>, n: nat)
    requires n <= |pairs|
    ensures SetEach(db, faults, table, pairs[..n]).values == SetEach(db, faults, table, pairs).values[..n]
    decreases |pairs|
  {
    if n < |pairs| {
      var prefix := pairs[..|pairs| - 1];
      SetEachPrefix(db, faults, table, prefix, n);
      assert prefix[..n] == pairs[..n];
    } else {
      assert pairs[..n] == pairs;
    }
  }

  /** The batch of the first `i + 1` pairs is the batch of the first `i` followed by the `set` of pair `i`. */
  lemma SetEachLast(db: Tables, faults: Faults, table: string, pairs: seq<Kvpair>, i: nat)
    requires i < |pairs|
    ensures var before := SetEach(db, faults, table, pairs[..i]);
      var u := StoreSet(before.db, faults, table, pairs[i].key, PairValue(pairs[i]));
      SetEach(db, faults, table, pairs[..i + 1]) == Batch(before.values + [OrAbsent(u.result)], u.db)
  {
    assert pairs[..i + 1][..i] == pairs[..i];
  }

  /**
   * After `Hmset`, a key written by some pair holds the value of the last pair for it, unless
   * its writes fail; every other key holds what it held before.
   */
  lemma {:induction false} HmsetFinalState(db: Tables, faults: Faults, table: string, pairs: seq<Kvpair>, t: string, k: string)
    ensures Lookup(SetEach(db, faults, table, pairs).db, t, k)
      == if t == table && SetCall(table, k) !in faults && LastWrite(pairs, k).Some?
         then LastWrite(pairs, k) else Lookup(db, t, k)
    decreases |pairs|
  {
    if pairs != [] {
      HmsetFinalState(db, faults, table, pairs[..|pairs| - 1], t, k);
    }
  }

  /**
   * Position `j` of `Hmset` is the value pair `j` overwrote: the value of the last earlier pair
   * for the same key, else the value stored before the batch, else `Value::default()`.
   */
  lemma HmsetSeesEarlierWrites(db: Tables, faults: Faults, table: string, pairs: seq<Kvpair>, j: nat)
    requires j < |pairs| && SetCall(table, pairs[j].key) !in faults
    ensures SetEach(db, faults, table, pairs).values[j]
      == LastWrite(pairs[..j], pairs[j].key).GetOr(LookupOrAbsent(db, table, pairs[j].key))
  {
    HmsetIsSequenceOfHset(db, faults, table, pairs, j);
    HmsetFinalState(db, faults, table, pairs[..j], table, pairs[j].key);
  }

  /** The first write of a key the store does not hold answers `Value::default()`; so does every failing write. */
  lemma HmsetNewKeys(db: Tables, faults: Faults, table: string, pairs: seq<Kvpair>)
    requires forall i, j :: 0 <= i < j < |pairs| ==> pairs[i].key != pairs[j].key
    requires forall p :: p in pairs ==> Lookup(db, table, p.key).None?
    ensures forall i :: 0 <= i < |pairs| ==> SetEach(db, faults, table, pairs).values[i] == Absent
  {
    forall i | 0 <= i < |pairs|
      ensures SetEach(db, faults, table, pairs).values[i] == Absent
    {
      assert pairs[i] in pairs;
      if SetCall(table, pairs[i].key) in faults {
        HmsetIsSequenceOfHset(db, faults, table, pairs, i);
      } else {
        HmsetSeesEarlierWrites(db, faults, table, pairs, i);
        NoLastWrite(pairs[..i], pairs[i].key);
      }
    }
  }

  /** A key no pair is for has no last write. */
  lemma {:induction false} NoLastWrite(pairs: seq<Kvpair>, key: string)
    requires forall p :: p in pairs ==> p.key != key
    ensures LastWrite(pairs, key) == None
    decreases |pairs|
  {
    if pairs != [] {
      assert pairs[|pairs| - 1] in pairs;
      NoLastWrite(pairs[..|pairs| - 1], key);
    }
  }

  /**
   * `Hmdel` is a run of `Hdel`s, one per key in order: position `i` is what `Hdel` of key `i`
   * answers in the state the first `i` deletions leave (`NotFound` or an error becoming
   * `Value::default()`), and the state after `i + 1` keys is the state that `Hdel` leaves.
   */
  lemma HmdelIsSequenceOfHdel(db: Tables, faults: Faults, table: string, keys: seq<string>, i: nat)
    requires i < |keys|
    ensures var s := HdelStep(DelEach(db, faults, table, keys[..i]).db, faults, table, keys[i]);
      && DelEach(db, faults, table, keys).values[i] == Kept(s.response)
      && DelEach(db, faults, table, keys[..i + 1]).db == s.db
  {
    DelEachAt(db, faults, table, keys, i);
    KeptOfHdel(DelEach(db, faults, table, keys[..i]).db, faults, table, keys[i]);
  }

  /** Position `i` of a batch of deletions is what the `del` of key `i` returns after the first `i` keys. */
  lemma DelEachAt(db: Tables, faults: Faults, table: string, keys: seq<string>, i: nat)
    requires i < |keys|
    ensures var before := DelEach(db, faults, table, keys[..i]);
      var u := StoreDel(before.db, faults, table, keys[i]);
      && DelEach(db, faults, table, keys).values[i] == OrAbsent(u.result)
      && DelEach(db, faults, table, keys[..i + 1]).db == u.db
  {
    DelEachPrefix(db, faults, table, keys, i + 1);
    DelEachLast(db, faults, table, keys, i);
  }

  /** The first `n` values of a batch of deletions are the values of the batch of its first `n` keys. */
  lemma {:induction false} DelEachPrefix(db: Tables, faults: Faults, table: string, keys: seq<string>, n: nat)
    requires n <= |keys|
    ensures DelEach(db, faults, table, keys[..n]).values == DelEach(db, faults, table, keys).values[..n]
    decreases |keys|
  {
    if n < |keys| {
      var prefix := keys[..|keys| - 1];
      DelEachPrefix(db, faults, table, prefix, n);
      assert prefix[..n] == keys[..n];
    } else {
      assert keys[..n] == keys;
    }
  }

  /** The batch of the first `i + 1` keys is the batch of the first `i` followed by the `del` of key `i`. */
  lemma DelEachLast(db: Tables, faults: Faults, table: string, keys: seq<string>, i: nat)
    requires i < |keys|
    ensures var before := DelEach(db, faults, table, keys[..i]);
      var u := StoreDel(before.db, faults, table, keys[i]);
      DelEach(db, faults, table, keys[..i + 1]) == Batch(before.values + [OrAbsent(u.result)], u.db)
  {
    assert keys[..i + 1][..i] == keys[..i];
  }

  /** After `Hmdel`, exactly the listed keys whose deletion does not fail are gone; every other key is kept. */
  lemma {:induction false} HmdelFinalState(db: Tables, faults: Faults, table: string, keys: seq<string>, t: string, k: string)
    ensures Lookup(DelEach(db, faults, table, keys).db, t, k)
      == if t == table && k in keys && DelCall(table, k) !in faults then None else Lookup(db, t, k)
    decreases |keys|
  {
    if keys != [] {
      var prefix := keys[..|keys| - 1];
      HmdelFinalState(db, faults, table, prefix, t, k);
      assert keys == prefix + [keys[|keys| - 1]];
      assert k in keys <==> k in prefix || k == keys[|keys| - 1];
    }
  }

  /** With no key listed twice, position `i` of `Hmdel` is the value key `i` held before, or `Value::default()`. */
  lemma HmdelRemovedValues(db: Tables, faults: Faults, table: string, keys: seq<string>)
    requires forall i, j :: 0 <= i < j < |keys| ==> keys[i] != keys[j]
    ensures forall i :: 0 <= i < |keys| ==>
      DelEach(db, faults, table, keys).values[i]
        == if DelCall(table, keys[i]) in faults then Absent else LookupOrAbsent(db, table, keys[i])
  {
    forall i | 0 <= i < |keys|
      ensures DelEach(db, faults, table, keys).values[i]
        == if DelCall(table, keys[i]) in faults then Absent else LookupOrAbsent(db, table, keys[i])
    {
      HmdelIsSequenceOfHdel(db, faults, table, keys, i);
      HmdelFinalState(db, faults, table, keys[..i], table, keys[i]);
      assert keys[i] !in keys[..i];
    }
  }

  /** Every command reads and writes only its own table. */
  lemma ExecuteStaysInItsTable(cmd: Command, db: Tables, faults: Faults, t: string, k: string)
    requires t != cmd.table
    ensures Lookup(Execute(cmd, db, faults).db, t, k) == Lookup(db, t, k)
  {
    match cmd
    case Hmset(table, ps) => HmsetFinalState(db, faults, table, ps, t, k);
    case Hmdel(table, ks) => HmdelFinalState(db, faults, table, ks, t, k);
    case _ =>
  }

  // ---------------------------------------------------------------- runs of commands

  /** The state after running `cmds` in order from `db`. */
  function Run(cmds: seq<Command>, db: Tables, faults: Faults): Tables
    decreases |cmds|
  {
    if cmds == [] then db
    else Execute(cmds[|cmds| - 1], Run(cmds[..|cmds| - 1], db, faults), faults).db
  }

  /** Whether `cmd` writes `key` of `table` (true), deletes it (false), or leaves it alone (None). */
  function Touch(cmd: Command, table: string, key: string): Option<bool> {
    if cmd.table != table then None
    else match cmd
      case Hset(_, p) => if p.Some? && p.value.key == key then Some(true) else None
      case Hmset(_, ps) => if exists i :: 0 <= i < |ps| && ps[i].key == key then Some(true) else None
      case Hdel(_, k) => if k == key then Some(false) else None
      case Hmdel(_, ks) => if key in ks then Some(false) else None
      case _ => None
  }

  /** The last touch of `key` of `table` in `cmds`, if any. */
  function LastTouch(cmds: seq<Command>, table: string, key: string): Option<bool> {
    if cmds == [] then None
    else if Touch(cmds[|cmds| - 1], table, key).Some? then Touch(cmds[|cmds| - 1], table, key)
    else LastTouch(cmds[..|cmds| - 1], table, key)
  }

  /** One command leaves a key bound exactly as its touch of that key says. */
  lemma TouchDecides(cmd: Command, db: Tables, table: string, key: string)
    ensures Lookup(Execute(cmd, db, map[]).db, table, key).Some?
      == Touch(cmd, table, key).GetOr(Lookup(db, table, key).Some?)
  {
    if cmd.table != table {
      ExecuteStaysInItsTable(cmd, db, map[], table, key);
    } else {
      match cmd
      case Hmset(_, ps) => HmsetTouchDecides(db, table, ps, key);
      case Hmdel(_, ks) =>
        HmdelFinalState(db, map[], table, ks, table, key);
      case _ =>
    }
  }

  /** An `Hmset` on a store that never fails leaves a key bound exactly when it was bound or some pair is for it. */
  lemma HmsetTouchDecides(db: Tables, table: string, pairs: seq<Kvpair>, key: string)
    ensures Lookup(SetEach(db, map[], table, pairs).db, table, key).Some?
      == ((exists i :: 0 <= i < |pairs| && pairs[i].key == key) || Lookup(db, table, key).Some?)
  {
    HmsetFinalState(db, map[], table, pairs, table, key);
    if exists i :: 0 <= i < |pairs| && pairs[i].key == key {
      var i :| 0 <= i < |pairs| && pairs[i].key == key;
      LastWriteOfListed(pairs, key, i);
    } else {
      NoLastWrite(pairs, key);
    }
  }

  /** A key some pair is for has a last write. */
  lemma {:induction false} LastWriteOfListed(pairs: seq<Kvpair>, key: string, i: nat)
    requires i < |pairs| && pairs[i].key == key
    ensures LastWrite(pairs, key).Some?
    decreases |pairs|
  {
    if i < |pairs| - 1 && pairs[|pairs| - 1].key != key {
      LastWriteOfListed(pairs[..|pairs| - 1], key, i);
    }
  }

  /**
   * On a store that never fails, a key exists after a run of commands exactly when the last
   * command of the run touching it wrote it rather than deleted it; a key no command touched
   * exists exactly when it did before. `Hexist` answers accordingly.
   */
  lemma {:induction false} ExistsIffLastTouchIsWrite(cmds: seq<Command>, db: Tables, table: string, key: string)
    ensures Lookup(Run(cmds, db, map[]), table, key).Some?
      == LastTouch(cmds, table, key).GetOr(Lookup(db, table, key).Some?)
    ensures Execute(Hexist(table, key), Run(cmds, db, map[]), map[]).response
      == FromValue(Bool(LastTouch(cmds, table, key).GetOr(Lookup(db, table, key).Some?)))
    decreases |cmds|
  {
    if cmds != [] {
      var prefix := cmds[..|cmds| - 1];
      ExistsIffLastTouchIsWrite(prefix, db, table, key);
      TouchDecides(cmds[|cmds| - 1], Run(prefix, db, map[]), table, key);
    }
  }
}
