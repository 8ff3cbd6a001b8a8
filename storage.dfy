/**
 * The storage contract the dispatcher runs against, and MemTable, a backend meeting it.
 *
 * The state is a map from table name to a map from key to Value. An absent table reads
 * like an empty one and is created by the first write to it. A backend failure is
 * injected through `faults`: a storage call listed there fails with the error it maps
 * to and changes nothing; every other call behaves like the in-memory store.
 */
module Storage {
  import opened Wrappers
  import opened Kv
  import opened KeyOrder

  type Table = map<string, Value>
  type Tables = map<string, Table>

  /** One storage call, identified by its operation and operands (not its written value). */
  datatype Call =
    | GetCall(table: string, key: string)
    | SetCall(table: string, key: string)
    | DelCall(table: string, key: string)
    | ContainsCall(table: string, key: string)
    | GetAllCall(table: string)

  /** The storage calls that fail, and the error each fails with. */
  type Faults = map<Call, KvError>

  /** What a mutating storage call returns, with the state it leaves. */
  datatype Update = Update(result: Result<Option<Value>, KvError>, db: Tables)

  function TableOf(db: Tables, table: string): Table {
    if table in db then db[table] else map[]
  }

  /** The current value of `key` in `table`, if any. */
  function Lookup(db: Tables, table: string, key: string): Option<Value> {
    var t := TableOf(db, table);
    if key in t then Some(t[key]) else None
  }

  /** `Lookup`, with `Value::default()` for a missing key. */
  function LookupOrAbsent(db: Tables, table: string, key: string): Value {
    Lookup(db, table, key).GetOr(Absent)
  }

  /** The state after `key` of `table` is bound to `value`. */
  function Put(db: Tables, table: string, key: string, value: Value): (db': Tables)
    ensures Lookup(db', table, key) == Some(value)
  {
    db[table := TableOf(db, table)[key := value]]
  }

  /** The state after `key` of `table` is unbound; a missing key leaves the state as it is. */
  function Remove(db: Tables, table: string, key: string): (db': Tables)
    ensures Lookup(db', table, key) == None
    ensures Lookup(db, table, key) == None ==> db' == db
  {
    if key in TableOf(db, table) then db[table := TableOf(db, table) - {key}] else db
  }

  /** Keys strictly ascending, hence no key twice. */
  ghost predicate StrictlyAscending(ps: seq<Kvpair>) {
    forall i, j {:trigger Before(ps[i].key, ps[j].key)} :: 0 <= i < j < |ps| ==> Before(ps[i].key, ps[j].key)
  }

  /** Every pair of `ps` is a binding of `t`, with a present value. */
  ghost predicate ListsOnly(ps: seq<Kvpair>, t: Table) {
    forall p :: p in ps ==> p.key in t && p.value == Some(t[p.key])
  }

  /** Every binding of `t` is a pair of `ps`. */
  ghost predicate ListsAll(ps: seq<Kvpair>, t: Table) {
    forall k :: k in t ==> NewPair(k, t[k]) in ps
  }

  /** The least key of a non-empty table. */
  function LeastKey(t: Table): (m: string)
    requires |t| != 0
    ensures IsLeast(m, t.Keys)
  {
    LeastExists(t.Keys);
    LeastIsUnique();
    var m :| IsLeast(m, t.Keys);
    m
  }

  /** Putting the least binding in front of an enumeration of the others enumerates the table. */
  lemma PrependLeast(t: Table, m: string, tail: seq<Kvpair>)
    requires IsLeast(m, t.Keys)
    requires StrictlyAscending(tail) && ListsOnly(tail, t - {m}) && ListsAll(tail, t - {m})
    ensures StrictlyAscending([NewPair(m, t[m])] + tail)
    ensures ListsOnly([NewPair(m, t[m])] + tail, t) && ListsAll([NewPair(m, t[m])] + tail, t)
  {
    var ps := [NewPair(m, t[m])] + tail;
    forall j | 0 <= j < |tail|
      ensures Before(m, tail[j].key)
    {
      assert tail[j] in tail;
    }
    forall i, j | 0 <= i < j < |ps|
      ensures Before(ps[i].key, ps[j].key)
    {
      if i == 0 {
        assert ps[j] == tail[j - 1];
      } else {
        assert ps[i] == tail[i - 1] && ps[j] == tail[j - 1];
      }
    }
    forall k | k in t
      ensures NewPair(k, t[k]) in ps
    {
      if k != m {
        assert k in t - {m};
      }
    }
  }

  /** The bindings of a table as pairs, in ascending key order. */
  function Enumerate(t: Table): (ps: seq<Kvpair>)
    ensures StrictlyAscending(ps)
    ensures ListsOnly(ps, t) && ListsAll(ps, t)
    decreases |t|
  {
    if |t| == 0 then []
    else
      var m := LeastKey(t);
      var rest := t - {m};
      assert rest.Keys == t.Keys - {m};
      var tail := Enumerate(rest);
      PrependLeast(t, m, tail);
      [NewPair(m, t[m])] + tail
  }

  /** The first pair of an ascending listing holds the least key. */
  lemma FirstIsLeast(a: seq<Kvpair>, t: Table)
    requires StrictlyAscending(a) && ListsOnly(a, t) && ListsAll(a, t) && a != []
    ensures IsLeast(a[0].key, t.Keys)
  {
    assert a[0] in a;
    forall x | x in t
      ensures Below(a[0].key, x)
    {
      assert NewPair(x, t[x]) in a;
      var i :| 0 <= i < |a| && a[i] == NewPair(x, t[x]);
      if i == 0 { BelowReflexive(x); } else { assert Before(a[0].key, a[i].key); }
    }
  }

  /** Without its first pair, an ascending listing stays ascending. */
  lemma RestIsAscending(a: seq<Kvpair>)
    requires StrictlyAscending(a) && a != []
    ensures StrictlyAscending(a[1..])
  {
    var tail := a[1..];
    forall i, j | 0 <= i < j < |tail|
      ensures Before(tail[i].key, tail[j].key)
    {
      assert tail[i] == a[i + 1] && tail[j] == a[j + 1];
      assert Before(a[i + 1].key, a[j + 1].key);
    }
  }

  /** An ascending listing has no key twice. */
  lemma AscendingDistinct(a: seq<Kvpair>, i: nat, j: nat)
    requires StrictlyAscending(a) && i < j < |a|
    ensures a[i].key != a[j].key
  {
    assert Before(a[i].key, a[j].key);
  }

  /** Every pair after the first of an ascending listing binds a key other than the first. */
  lemma RestIsSound(a: seq<Kvpair>, t: Table)
    requires StrictlyAscending(a) && ListsOnly(a, t) && a != []
    ensures forall p :: p in a[1..] ==> p.key in t - {a[0].key} && p.value == Some((t - {a[0].key})[p.key])
  {
    var k := a[0].key;
    forall p | p in a[1..]
      ensures p.key in t - {k} && p.value == Some((t - {k})[p.key])
    {
      var i :| 1 <= i < |a| && a[i] == p;
      assert a[i] in a;
      AscendingDistinct(a, 0, i);
    }
  }

  /** Every binding but the first one's is listed after the first pair. */
  lemma RestIsComplete(a: seq<Kvpair>, t: Table)
    requires ListsAll(a, t) && a != []
    ensures forall x :: x in t - {a[0].key} ==> NewPair(x, (t - {a[0].key})[x]) in a[1..]
  {
    forall x | x in t - {a[0].key}
      ensures NewPair(x, (t - {a[0].key})[x]) in a[1..]
    {
      assert x in t && x != a[0].key;
      assert NewPair(x, t[x]) in a;
      var i :| 0 <= i < |a| && a[i] == NewPair(x, t[x]);
      assert i != 0;
      assert a[1..][i - 1] == a[i];
    }
  }

  /** Without its first pair, an ascending listing lists the rest of the table. */
  lemma RestIsListing(a: seq<Kvpair>, t: Table)
    requires StrictlyAscending(a) && ListsOnly(a, t) && ListsAll(a, t) && a != []
    ensures StrictlyAscending(a[1..])
    ensures ListsOnly(a[1..], t - {a[0].key}) && ListsAll(a[1..], t - {a[0].key})
  {
    RestIsAscending(a);
    RestIsSound(a, t);
    RestIsComplete(a, t);
  }

  /** A listing is empty exactly when its table is. */
  lemma EmptyListing(a: seq<Kvpair>, t: Table)
    requires ListsOnly(a, t) && ListsAll(a, t)
    ensures a == [] <==> t == map[]
  {
    if a != [] {
      assert a[0] in a;
    }
    if t != map[] {
      var x :| x in t;
      assert NewPair(x, t[x]) in a;
    }
  }

  /** Two ascending listings of one table start with the same pair. */
  lemma SameFirst(a: seq<Kvpair>, b: seq<Kvpair>, t: Table)
    requires StrictlyAscending(a) && ListsOnly(a, t) && ListsAll(a, t) && a != []
    requires StrictlyAscending(b) && ListsOnly(b, t) && ListsAll(b, t) && b != []
    ensures a[0] == b[0]
  {
    FirstIsLeast(a, t);
    FirstIsLeast(b, t);
    BelowAntisymmetric(a[0].key, b[0].key);
    assert a[0] in a && b[0] in b;
  }

  /** A table has exactly one listing in ascending key order. */
  lemma {:induction false} AscendingListingIsUnique(a: seq<Kvpair>, b: seq<Kvpair>, t: Table)
    requires StrictlyAscending(a) && ListsOnly(a, t) && ListsAll(a, t)
    requires StrictlyAscending(b) && ListsOnly(b, t) && ListsAll(b, t)
    ensures a == b
    decreases |a|
  {
    EmptyListing(a, t);
    EmptyListing(b, t);
    if a != [] {
      SameFirst(a, b, t);
      RestIsListing(a, t);
      RestIsListing(b, t);
      AscendingListingIsUnique(a[1..], b[1..], t - {a[0].key});
      assert a == [a[0]] + a[1..];
      assert b == [b[0]] + b[1..];
    }
  }

  /** `get(table, key)` */
  function StoreGet(db: Tables, faults: Faults, table: string, key: string): (r: Result<Option<Value>, KvError>)
    ensures GetCall(table, key) in faults <==> r.Err?
    ensures r.Err? ==> r.error == faults[GetCall(table, key)]
    ensures r.Ok? ==> r.value == Lookup(db, table, key)
  {
    if GetCall(table, key) in faults then Err(faults[GetCall(table, key)]) else Ok(Lookup(db, table, key))
  }

  /** `contains(table, key)` */
  function StoreContains(db: Tables, faults: Faults, table: string, key: string): (r: Result<bool, KvError>)
    ensures ContainsCall(table, key) in faults <==> r.Err?
    ensures r.Err? ==> r.error == faults[ContainsCall(table, key)]
    ensures r.Ok? ==> (r.value <==> Lookup(db, table, key).Some?)
  {
    if ContainsCall(table, key) in faults then Err(faults[ContainsCall(table, key)])
    else Ok(key in TableOf(db, table))
  }

  /** `get_all(table)` */
  function StoreGetAll(db: Tables, faults: Faults, table: string): (r: Result<seq<Kvpair>, KvError>)
    ensures GetAllCall(table) in faults <==> r.Err?
    ensures r.Err? ==> r.error == faults[GetAllCall(table)]
    ensures r.Ok? ==> StrictlyAscending(r.value) && ListsOnly(r.value, TableOf(db, table)) && ListsAll(r.value, TableOf(db, table))
  {
    if GetAllCall(table) in faults then Err(faults[GetAllCall(table)]) else Ok(Enumerate(TableOf(db, table)))
  }

  /** `set(table, key, value)`: binds the key and returns the value it overwrote. */
  function StoreSet(db: Tables, faults: Faults, table: string, key: string, value: Value): (u: Update)
    ensures SetCall(table, key) in faults <==> u.result.Err?
    ensures u.result.Err? ==> u.result.error == faults[SetCall(table, key)] && u.db == db
    ensures u.result.Ok? ==> u.result.value == Lookup(db, table, key) && Lookup(u.db, table, key) == Some(value)
  {
    if SetCall(table, key) in faults then Update(Err(faults[SetCall(table, key)]), db)
    else Update(Ok(Lookup(db, table, key)), Put(db, table, key, value))
  }

  /** A `set` changes no other key of any table. */
  lemma StoreSetElsewhere(db: Tables, faults: Faults, table: string, key: string, value: Value, t: string, k: string)
    requires t != table || k != key
    ensures Lookup(StoreSet(db, faults, table, key, value).db, t, k) == Lookup(db, t, k)
  {
  }

  /** `del(table, key)`: unbinds the key and returns the value it removed; a missing key changes nothing. */
  function StoreDel(db: Tables, faults: Faults, table: string, key: string): (u: Update)
    ensures DelCall(table, key) in faults <==> u.result.Err?
    ensures u.result.Err? ==> u.result.error == faults[DelCall(table, key)] && u.db == db
    ensures u.result.Ok? ==> u.result.value == Lookup(db, table, key) && Lookup(u.db, table, key) == None
    ensures u.result.Ok? && Lookup(db, table, key) == None ==> u.db == db
  {
    if DelCall(table, key) in faults then Update(Err(faults[DelCall(table, key)]), db)
    else Update(Ok(Lookup(db, table, key)), Remove(db, table, key))
  }

  /** A `del` changes no other key of any table. */
  lemma StoreDelElsewhere(db: Tables, faults: Faults, table: string, key: string, t: string, k: string)
    requires t != table || k != key
    ensures Lookup(StoreDel(db, faults, table, key).db, t, k) == Lookup(db, t, k)
  {
  }

  /** The in-memory store, with the calls in `faults` failing. */
  class MemTable {
    var tables: Tables
    const faults: Faults

    constructor (faults: Faults)
      ensures tables == map[] && this.faults == faults
    {
      this.faults := faults;
      tables := map[];
    }

    method Set(table: string, key: string, value: Value) returns (r: Result<Option<Value>, KvError>)
      modifies this
      ensures Update(r, tables) == StoreSet(old(tables), faults, table, key, value)
    {
      if SetCall(table, key) in faults {
        r := Err(faults[SetCall(table, key)]);
        return;
      }
      var t := if table in tables then tables[table] else map[];
      r := Ok(if key in t then Some(t[key]) else None);
      tables := tables[table := t[key := value]];
    }

    method Del(table: string, key: string) returns (r: Result<Option<Value>, KvError>)
      modifies this
      ensures Update(r, tables) == StoreDel(old(tables), faults, table, key)
    {
      if DelCall(table, key) in faults {
        r := Err(faults[DelCall(table, key)]);
        return;
      }
      var t := if table in tables then tables[table] else map[];
      if key in t {
        r := Ok(Some(t[key]));
        tables := tables[table := t - {key}];
      } else {
        r := Ok(None);
      }
    }
  }
}
