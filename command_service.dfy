/**
 * The command dispatcher: one `execute` per command variant, each turning its command
 * into storage calls (one, or one per element for the batch forms) and folding what the
 * store returns into a Response.
 *
 * The commands that only query the store are functions of its state. The commands that
 * write are methods on a MemTable, each proved against a function giving its response
 * and the state it leaves; `Execute` is that function for every command and `Dispatch`
 * the method that runs one.
 */
module CommandService {
  import opened Wrappers
  import opened Kv
  import opened Storage

  /** A response together with the state the command leaves behind. */
  datatype Step = Step(response: Response, db: Tables)

  /** The outcome of a batch of writes: one value per element, and the state after the last. */
  datatype Batch = Batch(values: seq<Value>, db: Tables)

  /** What a batch keeps of a storage result: the value, or `Value::default()` for none or an error. */
  function OrAbsent(r: Result<Option<Value>, KvError>): (v: Value)
    ensures r.Ok? && r.value.Some? ==> v == r.value.value
    ensures r.Err? || r.value.None? ==> v == Absent
  {
    match r
    case Ok(Some(v)) => v
    case _ => Absent
  }

  // ---------------------------------------------------------------- read-only commands

  /** `Hget::execute`: the value at the key, `NotFound` for a missing key, or the backend's error. */
  function ExecuteHget(db: Tables, faults: Faults, table: string, key: string): (r: Response)
    ensures GetCall(table, key) in faults ==> r == FromError(faults[GetCall(table, key)])
    ensures GetCall(table, key) !in faults && Lookup(db, table, key).Some? ==>
      r.status == STATUS_OK && r.values == [Lookup(db, table, key).value] && r.pairs == []
    ensures GetCall(table, key) !in faults && Lookup(db, table, key).None? ==>
      r.status == STATUS_NOT_FOUND && r.message == Describes(NotFound(table, key)) && r.values == [] && r.pairs == []
  {
    match StoreGet(db, faults, table, key)
    case Ok(Some(v)) => FromValue(v)
    case Ok(None) => FromError(NotFound(table, key))
    case Err(e) => FromError(e)
  }

  /** `Hgetall::execute`: every binding of the table once, in ascending key order, or the backend's error. */
  function ExecuteHgetall(db: Tables, faults: Faults, table: string): (r: Response)
    ensures GetAllCall(table) in faults ==> r == FromError(faults[GetAllCall(table)])
    ensures GetAllCall(table) !in faults ==>
      && r.status == STATUS_OK && r.values == []
      && StrictlyAscending(r.pairs)
      && (forall p :: p in r.pairs ==> p.value.Some? && Lookup(db, table, p.key) == p.value)
      && (forall k :: Lookup(db, table, k).Some? ==> NewPair(k, Lookup(db, table, k).value) in r.pairs)
  {
    match StoreGetAll(db, faults, table)
    case Ok(ps) => FromPairs(ps)
    case Err(e) => FromError(e)
  }

  /** The value an element of `Hmget` yields: the stored value, or `Value::default()` when missing or failed. */
  function ReadOrAbsent(db: Tables, faults: Faults, table: string, key: string): Value {
    if GetCall(table, key) in faults then Absent else LookupOrAbsent(db, table, key)
  }

  /** One `get` per key, in order, each result folded into a value. */
  function ReadEach(db: Tables, faults: Faults, table: string, keys: seq<string>): (vs: seq<Value>)
    ensures |vs| == |keys|
    ensures forall i :: 0 <= i < |keys| ==> vs[i] == ReadOrAbsent(db, faults, table, keys[i])
  {
    if keys == [] then []
    else [OrAbsent(StoreGet(db, faults, table, keys[0]))] + ReadEach(db, faults, table, keys[1..])
  }

  /** `Hmget::execute`: exactly one value per key, in key order, never an error. */
  function ExecuteHmget(db: Tables, faults: Faults, table: string, keys: seq<string>): (r: Response)
    ensures r.status == STATUS_OK && r.pairs == []
    ensures |r.values| == |keys|
    ensures forall i :: 0 <= i < |keys| ==> r.values[i] == ReadOrAbsent(db, faults, table, keys[i])
  {
    FromValues(ReadEach(db, faults, table, keys))
  }

  /** `Hexist::execute`: whether the key is bound, or the backend's error. */
  function ExecuteHexist(db: Tables, faults: Faults, table: string, key: string): (r: Response)
    ensures ContainsCall(table, key) in faults ==> r == FromError(faults[ContainsCall(table, key)])
    ensures ContainsCall(table, key) !in faults ==>
      r.status == STATUS_OK && r.values == [Bool(Lookup(db, table, key).Some?)] && r.pairs == []
  {
    match StoreContains(db, faults, table, key)
    case Ok(present) => FromValue(Bool(present))
    case Err(e) => FromError(e)
  }

  /** The value an element of `Hmexist` yields: whether the key is bound, or `Value::default()` on an error. */
  function ExistsOrAbsent(db: Tables, faults: Faults, table: string, key: string): Value {
    if ContainsCall(table, key) in faults then Absent else Bool(Lookup(db, table, key).Some?)
  }

  /** One `contains` per key, in order, each result folded into a value. */
  function ExistEach(db: Tables, faults: Faults, table: string, keys: seq<string>): (vs: seq<Value>)
    ensures |vs| == |keys|
    ensures forall i :: 0 <= i < |keys| ==> vs[i] == ExistsOrAbsent(db, faults, table, keys[i])
  {
    if keys == [] then []
    else
      var head := match StoreContains(db, faults, table, keys[0])
        case Ok(e) => Bool(e)
        case Err(_) => Absent;
      [head] + ExistEach(db, faults, table, keys[1..])
  }

  /** `Hmexist::execute`: exactly one entry per key, in key order, never an error. */
  function ExecuteHmexist(db: Tables, faults: Faults, table: string, keys: seq<string>): (r: Response)
    ensures r.status == STATUS_OK && r.pairs == []
    ensures |r.values| == |keys|
    ensures forall i :: 0 <= i < |keys| ==> r.values[i] == ExistsOrAbsent(db, faults, table, keys[i])
  {
    FromValues(ExistEach(db, faults, table, keys))
  }

  // ---------------------------------------------------------------- writing commands: specifications

  /**
   * `Hset::execute`: writes the pair's value (`Value::default()` when it has none) and answers
   * with the value it overwrote, `Value::default()` for a new key; without a pair, nothing is written.
   */
  function HsetStep(db: Tables, faults: Faults, table: string, pair: Option<Kvpair>): (s: Step)
    ensures pair.None? ==> s == Step(FromValue(Absent), db)
    ensures pair.Some? && SetCall(table, pair.value.key) in faults ==>
      s == Step(FromError(faults[SetCall(table, pair.value.key)]), db)
    ensures pair.Some? && SetCall(table, pair.value.key) !in faults ==>
      s == Step(FromValue(LookupOrAbsent(db, table, pair.value.key)), Put(db, table, pair.value.key, PairValue(pair.value)))
  {
    match pair
    case None => Step(FromValue(Absent), db)
    case Some(p) =>
      var u := StoreSet(db, faults, table, p.key, PairValue(p));
      match u.result
      case Ok(Some(v)) => Step(FromValue(v), u.db)
      case Ok(None) => Step(FromValue(Absent), u.db)
      case Err(e) => Step(FromError(e), u.db)
  }

  /** One `set` per pair, in order, each seeing the writes before it; errors become `Value::default()`. */
  function SetEach(db: Tables, faults: Faults, table: string, pairs: seq<Kvpair>): (b: Batch)
    ensures |b.values| == |pairs|
    decreases |pairs|
  {
    if pairs == [] then Batch([], db)
    else
      var before := SetEach(db, faults, table, pairs[..|pairs| - 1]);
      var last := pairs[|pairs| - 1];
      var u := StoreSet(before.db, faults, table, last.key, PairValue(last));
      Batch(before.values + [OrAbsent(u.result)], u.db)
  }

  /** `Hmset::execute` */
  function HmsetStep(db: Tables, faults: Faults, table: string, pairs: seq<Kvpair>): (s: Step)
    ensures s.response.status == STATUS_OK && s.response.pairs == []
    ensures |s.response.values| == |pairs|
  {
    var b := SetEach(db, faults, table, pairs);
    Step(FromValues(b.values), b.db)
  }

  /** `Hdel::execute`: removes the key and answers with its value, `NotFound` if it was missing, or the backend's error. */
  function HdelStep(db: Tables, faults: Faults, table: string, key: string): (s: Step)
    ensures DelCall(table, key) in faults ==> s == Step(FromError(faults[DelCall(table, key)]), db)
    ensures DelCall(table, key) !in faults && Lookup(db, table, key).Some? ==>
      s == Step(FromValue(Lookup(db, table, key).value), Remove(db, table, key))
    ensures DelCall(table, key) !in faults && Lookup(db, table, key).None? ==>
      s == Step(FromError(NotFound(table, key)), db)
  {
    var u := StoreDel(db, faults, table, key);
    match u.result
    case Ok(Some(v)) => Step(FromValue(v), u.db)
    case Ok(None) => Step(FromError(NotFound(table, key)), u.db)
    case Err(e) => Step(FromError(e), u.db)
  }

  /** One `del` per key, in order; a missing key or an error becomes `Value::default()`. */
  function DelEach(db: Tables, faults: Faults, table: string, keys: seq<string>): (b: Batch)
    ensures |b.values| == |keys|
    decreases |keys|
  {
    if keys == [] then Batch([], db)
    else
      var before := DelEach(db, faults, table, keys[..|keys| - 1]);
      var u := StoreDel(before.db, faults, table, keys[|keys| - 1]);
      Batch(before.values + [OrAbsent(u.result)], u.db)
  }

  /** `Hmdel::execute` */
  function HmdelStep(db: Tables, faults: Faults, table: string, keys: seq<string>): (s: Step)
    ensures s.response.status == STATUS_OK && s.response.pairs == []
    ensures |s.response.values| == |keys|
  {
    var b := DelEach(db, faults, table, keys);
    Step(FromValues(b.values), b.db)
  }

  /** `dispatch`: the response to a command and the state it leaves. */
  function Execute(cmd: Command, db: Tables, faults: Faults): (s: Step)
    ensures cmd.IsReadOnly() ==> s.db == db
    ensures (cmd.Hmget? || cmd.Hmdel? || cmd.Hmexist?) ==>
      s.response.status == STATUS_OK && |s.response.values| == |cmd.keys|
    ensures cmd.Hmset? ==> s.response.status == STATUS_OK && |s.response.values| == |cmd.pairs|
  {
    match cmd
    case Hget(t, k) => Step(ExecuteHget(db, faults, t, k), db)
    case Hgetall(t) => Step(ExecuteHgetall(db, faults, t), db)
    case Hset(t, p) => HsetStep(db, faults, t, p)
    case Hmget(t, ks) => Step(ExecuteHmget(db, faults, t, ks), db)
    case Hmset(t, ps) => HmsetStep(db, faults, t, ps)
    case Hdel(t, k) => HdelStep(db, faults, t, k)
    case Hmdel(t, ks) => HmdelStep(db, faults, t, ks)
    case Hexist(t, k) => Step(ExecuteHexist(db, faults, t, k), db)
    case Hmexist(t, ks) => Step(ExecuteHmexist(db, faults, t, ks), db)
  }

  // ---------------------------------------------------------------- writing commands: the methods

  /** `Hset::execute` against a store. */
  method ExecuteHset(store: MemTable, table: string, pair: Option<Kvpair>) returns (r: Response)
    modifies store
    ensures Step(r, store.tables) == HsetStep(old(store.tables), store.faults, table, pair)
  {
    match pair
    case None =>
      r := FromValue(Absent);
    case Some(p) =>
      var res := store.Set(table, p.key, PairValue(p));
      match res
      case Ok(Some(v)) => r := FromValue(v);
      case Ok(None) => r := FromValue(Absent);
      case Err(e) => r := FromError(e);
  }

  /** `Hmset::execute` against a store: one `set` per pair, in order. */
  method ExecuteHmset(store: MemTable, table: string, pairs: seq<Kvpair>) returns (r: Response)
    modifies store
    ensures Step(r, store.tables) == HmsetStep(old(store.tables), store.faults, table, pairs)
  {
    var values: seq<Value> := [];
    var i := 0;
    while i < |pairs|
      invariant 0 <= i <= |pairs|
      invariant SetEach(old(store.tables), store.faults, table, pairs[..i]) == Batch(values, store.tables)
    {
      var pair := pairs[i];
      var res := store.Set(table, pair.key, PairValue(pair));
      values := values + [OrAbsent(res)];
      assert pairs[..i + 1][..i] == pairs[..i];
      i := i + 1;
    }
    assert pairs[..|pairs|] == pairs;
    r := FromValues(values);
  }

  /** `Hdel::execute` against a store. */
  method ExecuteHdel(store: MemTable, table: string, key: string) returns (r: Response)
    modifies store
    ensures Step(r, store.tables) == HdelStep(old(store.tables), store.faults, table, key)
  {
    var res := store.Del(table, key);
    match res
    case Ok(Some(v)) => r := FromValue(v);
    case Ok(None) => r := FromError(NotFound(table, key));
    case Err(e) => r := FromError(e);
  }

  /** `Hmdel::execute` against a store: one `del` per key, in order. */
  method ExecuteHmdel(store: MemTable, table: string, keys: seq<string>) returns (r: Response)
    modifies store
    ensures Step(r, store.tables) == HmdelStep(old(store.tables), store.faults, table, keys)
  {
    var values: seq<Value> := [];
    var i := 0;
    while i < |keys|
      invariant 0 <= i <= |keys|
      invariant DelEach(old(store.tables), store.faults, table, keys[..i]) == Batch(values, store.tables)
    {
      var res := store.Del(table, keys[i]);
      values := values + [OrAbsent(res)];
      assert keys[..i + 1][..i] == keys[..i];
      i := i + 1;
    }
    assert keys[..|keys|] == keys;
    r := FromValues(values);
  }

  /** `dispatch(cmd, store)`: runs one command against the store. */
  method Dispatch(cmd: Command, store: MemTable) returns (r: Response)
    modifies store
    ensures Step(r, store.tables) == Execute(cmd, old(store.tables), store.faults)
  {
    match cmd
    case Hget(t, k) => r := ExecuteHget(store.tables, store.faults, t, k);
    case Hgetall(t) => r := ExecuteHgetall(store.tables, store.faults, t);
    case Hset(t, p) => r := ExecuteHset(store, t, p);
    case Hmget(t, ks) => r := ExecuteHmget(store.tables, store.faults, t, ks);
    case Hmset(t, ps) => r := ExecuteHmset(store, t, ps);
    case Hdel(t, k) => r := ExecuteHdel(store, t, k);
    case Hmdel(t, ks) => r := ExecuteHmdel(store, t, ks);
    case Hexist(t, k) => r := ExecuteHexist(store.tables, store.faults, t, k);
    case Hmexist(t, ks) => r := ExecuteHmexist(store.tables, store.faults, t, ks);
  }
}
