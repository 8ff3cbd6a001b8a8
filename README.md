# Command dispatcher of a key-value server

This project models the command dispatcher of a small Rust key-value server, `src/service/command_service.rs`. Each command variant has one `execute`. It turns a `Hget`, `Hgetall`, `Hset`, `Hmget`, `Hmset`, `Hdel`, `Hmdel`, `Hexist` or `Hmexist` command into one storage call, or one call per element for the batch forms. It then folds what the store returns into a `CommandResponse`: a status code, a message, a list of values and a list of pairs.

Files:

- `wrappers.dfy`: `Option` and `Result`.
- `kv.dfy`: the message types.
  - `Value`; `Absent` is `Value::default()`.
  - `Kvpair`, `KvError` and the response envelope.
  - The conversions into a response, and the `Command` variants.
- `key_order.dfy`: lexicographic order on keys. It is a total order, and every non-empty set of keys has a unique least element.
- `storage.dfy`: the storage contract the dispatcher relies on.
  - The store is `map<string, map<string, Value>>`, table to key to value. An absent table reads as empty.
  - `get`, `contains`, `get_all`, `set` and `del`.
  - `get_all` lists every binding once, in ascending key order.
  - `MemTable` is the in-memory store. It is a class with a `tables` field, updated in place by its `Set` and `Del` methods.
  - Backend errors come from a fixed map `faults` from storage calls to errors. A call in the map fails with that error and changes nothing. A store with no faults is the plain `MemTable`.
- `command_service.dfy`: the dispatcher.
  - The read-only commands are functions of the store's state.
  - `ExecuteHset`/`ExecuteHdel` are module-level methods that take a `MemTable` and update it through its `Set`/`Del` methods. `ExecuteHmset`/`ExecuteHmdel` do the same in a loop over their elements.
  - Each method is proved against a function giving its response and the state it leaves.
  - `Execute` is that function for every command. `Dispatch` is the method that runs one command.
- `service_properties.dfy`: properties that relate several commands.
  - Round trips between writes and reads.
  - Each batch command shown to equal a run of the single-key command it repeats.
  - The final state after a batch.
  - What `Hexist` answers after any run of commands.
- `service_tests.dfy`: the file's unit tests, stated as lemmas about `Execute` on a fresh store that never fails. Beside them are general helper lemmas over any starting state (`SetWrites`, `RunThreeSets`, `RunFourSets`) or any distinct keys (`HmgetAfterHmset`, `HmdelTwoOfThree`).

## Model

| member | source | states |
|---|---|---|
| Kv.NewPair | src/service/command_service.rs:169-171 | `Kvpair::new(key, value)`: a pair for the key whose value, unwrapped, is the given value |
| Kv.PairValue | src/service/command_service.rs:25 | `unwrap_or_default()` on a pair's value: the value when present, `Value::default()` when missing |
| Kv.StatusOf | src/service/command_service.rs:7-8 | an error's status: 404 exactly for `NotFound`, 500 otherwise, never 200 |
| Kv.FromValue | src/service/command_service.rs:6 | `v.into()`: status 200, no message, exactly the one value, no pairs |
| Kv.FromValues | src/service/command_service.rs:45-46 | a `Vec<Value>` into a response: status 200, no message, exactly the values in order, no pairs |
| Kv.FromPairs | src/service/command_service.rs:16 | a `Vec<Kvpair>` into a response: status 200, no message, no values, exactly the pairs in order |
| Kv.FromError | src/service/command_service.rs:7-8 | `e.into()`: a status other than 200, namely 404 exactly for `NotFound`; a message describing the error; no values and no pairs |
| Kv.ErrorResponseIsDistinct | src/service/command_service.rs:7-8 | an error response never equals a successful one, and two error responses are equal only for the same error |
| CommandService.OrAbsent | src/service/command_service.rs:59-62 | the batch fold of a storage result: the value for `Ok(Some(v))`, `Value::default()` for none or an error |
| Storage.StoreGet | src/service/command_service.rs:5 | `get` fails exactly for a faulty call, with its error; otherwise it returns the key's current binding or none |
| Storage.StoreContains | src/service/command_service.rs:96 | `contains` fails exactly for a faulty call; otherwise it is true iff the key is bound |
| Storage.StoreGetAll | src/service/command_service.rs:15 | `get_all` fails exactly for a faulty call; otherwise it lists the table's bindings, strictly ascending by key, each binding once and nothing else |
| Storage.StoreSet | src/service/command_service.rs:25 | `set` fails exactly for a faulty call, leaving the state unchanged; otherwise it returns the previous binding and binds the key to the value |
| Storage.StoreSetElsewhere | src/service/command_service.rs:25 | a `set` leaves every other key of every table as it was |
| Storage.StoreDel | src/service/command_service.rs:71 | `del` fails exactly for a faulty call, leaving the state unchanged; otherwise it returns the removed binding and leaves the key unbound, and a missing key changes nothing |
| Storage.StoreDelElsewhere | src/service/command_service.rs:71 | a `del` leaves every other key of every table as it was |
| Storage.Put | src/service/command_service.rs:25 | the state after a write holds the written value at its key |
| Storage.Remove | src/service/command_service.rs:71 | the state after a removal holds nothing at the key, and removing a missing key changes nothing |
| Storage.Enumerate | src/service/command_service.rs:15 | a table's bindings as pairs: strictly ascending, only the table's bindings, and every one of them |
| Storage.AscendingListingIsUnique | src/service/command_service.rs:168-173 | a table has exactly one listing that is strictly ascending and complete, so the get-all answer is determined by the table |
| Storage.MemTable.constructor | src/service/command_service.rs:126 | `MemTable::new()` starts with no tables |
| Storage.MemTable.Set | src/service/command_service.rs:25 | the in-place `set` returns and leaves exactly what the storage contract's `set` gives |
| Storage.MemTable.Del | src/service/command_service.rs:71 | the in-place `del` returns and leaves exactly what the storage contract's `del` gives |
| CommandService.ExecuteHget | src/service/command_service.rs:3-11 | a bound key answers 200 with exactly its value; a missing key answers 404 with the `NotFound(table, key)` error; a backend error is passed through as an error response |
| CommandService.ExecuteHgetall | src/service/command_service.rs:13-20 | on success, 200 with no values and the table's pairs, strictly ascending, each bound key once with its current value and nothing else; a backend error becomes an error response |
| CommandService.ReadEach | src/service/command_service.rs:38-45 | one value per key, in key order: the stored value, or `Value::default()` for a missing key or a failed `get` |
| CommandService.ExecuteHmget | src/service/command_service.rs:35-48 | always 200, with exactly one value per key in input order, each the stored value or `Value::default()` |
| CommandService.ExecuteHexist | src/service/command_service.rs:94-101 | on success, 200 with `[Bool(bound)]`; a backend error becomes an error response |
| CommandService.ExistEach | src/service/command_service.rs:108-114 | one entry per key, in key order: whether the key is bound, or `Value::default()` when `contains` fails |
| CommandService.ExecuteHmexist | src/service/command_service.rs:103-118 | always 200, with exactly one entry per key, in input order |
| CommandService.HsetStep | src/service/command_service.rs:22-33 | a set without a pair answers `[default]` and changes nothing; a failing set answers its error and changes nothing; otherwise it answers the overwritten value (`default` for a new key) and binds the key to the pair's value, `default` when the pair has none |
| CommandService.ExecuteHset | src/service/command_service.rs:22-33 | runs `Hset` against a `MemTable`: response and new contents are those of `HsetStep` |
| CommandService.SetEach | src/service/command_service.rs:55-64 | one value per pair |
| CommandService.HmsetStep | src/service/command_service.rs:50-67 | `Hmset` always answers 200 with one value per pair |
| CommandService.ExecuteHmset | src/service/command_service.rs:50-67 | the loop of `set`s against a `MemTable`, one per pair in order: response and new contents are those of `HmsetStep` |
| CommandService.HdelStep | src/service/command_service.rs:69-77 | deleting a bound key answers its value and unbinds it; a missing key answers the `NotFound(table, key)` error (404) and changes nothing; a backend error is passed through and changes nothing |
| CommandService.ExecuteHdel | src/service/command_service.rs:69-77 | runs `Hdel` against a `MemTable`: response and new contents are those of `HdelStep` |
| CommandService.DelEach | src/service/command_service.rs:82-89 | one value per key |
| CommandService.HmdelStep | src/service/command_service.rs:79-92 | `Hmdel` always answers 200 with one value per key |
| CommandService.ExecuteHmdel | src/service/command_service.rs:79-92 | the loop of `del`s against a `MemTable`, one per key in order: response and new contents are those of `HmdelStep` |
| CommandService.Execute | src/service/command_service.rs:128 | `dispatch`: read-only commands leave the state unchanged, and the batch commands answer 200 with one value per element |
| CommandService.Dispatch | src/service/command_service.rs:128 | running a command against a `MemTable` answers and leaves exactly what `Execute` gives |
| ServiceProperties.SetThenGet | src/service/command_service.rs:136-143 | after `Hset(T, K, V)`, `Hget(T, K)` answers `[V]` |
| ServiceProperties.SetTwiceReturnsFirst | src/service/command_service.rs:125-133 | the first set answers the value it overwrote, and setting the same pair again answers that pair's value |
| ServiceProperties.DeleteThenGet | src/service/command_service.rs:216-231 | `Hdel` of a bound key answers its value, after which `Hget` answers `NotFound` with status 404 |
| ServiceProperties.SetThenGetAll | src/service/command_service.rs:153-174 | after `Hset(T, K, V)`, `Hgetall(T)` lists `(K, V)` and no other pair for `K` |
| ServiceProperties.ExistAfterSetAndDelete | src/service/command_service.rs:94-101 | `Hexist` answers true after a set of the key and false after its deletion |
| ServiceProperties.HmgetAgreesWithHget | src/service/command_service.rs:35-48 | position `i` of `Hmget` is what `Hget` of key `i` answers, an error becoming `Value::default()` |
| ServiceProperties.HmexistAgreesWithHexist | src/service/command_service.rs:103-118 | position `i` of `Hmexist` is what `Hexist` of key `i` answers, an error becoming `Value::default()` |
| ServiceProperties.KeptOfHset | src/service/command_service.rs:57-62 | what a batch keeps of a single `Hset` is the value the `set` returned, or `default`, and the state is the same |
| ServiceProperties.KeptOfHdel | src/service/command_service.rs:84-88 | what a batch keeps of a single `Hdel` is the value the `del` returned, or `default`, and the state is the same |
| ServiceProperties.HmsetIsSequenceOfHset | src/service/command_service.rs:55-64 | position `i` of `Hmset` is what `Hset` of pair `i` answers in the state the first `i` pairs leave, and the state after `i + 1` pairs is the one that `Hset` leaves |
| ServiceProperties.SetEachAt | src/service/command_service.rs:57-62 | position `i` of a batch of sets is the value returned by the `set` of pair `i`, made after the first `i` pairs |
| ServiceProperties.SetEachPrefix | src/service/command_service.rs:55-64 | the first `n` results of a batch of sets do not depend on the pairs after them |
| ServiceProperties.HmsetFinalState | src/service/command_service.rs:55-64 | after `Hmset`, a key some pair is for holds the last such pair's value unless its writes fail; every other key of every table is unchanged |
| ServiceProperties.HmsetSeesEarlierWrites | src/service/command_service.rs:57-62 | pair `j` of `Hmset` answers the value of the last earlier pair for its key, else the value stored before the batch, else `default` |
| ServiceProperties.HmsetNewKeys | src/service/command_service.rs:176-192 | a batch of distinct new keys answers `default` at every position |
| ServiceProperties.HmdelIsSequenceOfHdel | src/service/command_service.rs:82-89 | position `i` of `Hmdel` is what `Hdel` of key `i` answers in the state the first `i` deletions leave, and the state after `i + 1` keys is the one that `Hdel` leaves |
| ServiceProperties.DelEachAt | src/service/command_service.rs:84-88 | position `i` of a batch of deletions is the value returned by the `del` of key `i`, made after the first `i` keys |
| ServiceProperties.DelEachPrefix | src/service/command_service.rs:82-89 | the first `n` results of a batch of deletions do not depend on the keys after them |
| ServiceProperties.HmdelFinalState | src/service/command_service.rs:82-89 | after `Hmdel`, exactly the listed keys whose deletion does not fail are unbound; every other key of every table is unchanged |
| ServiceProperties.HmdelRemovedValues | src/service/command_service.rs:233-247 | with no key listed twice, position `i` of `Hmdel` is the value key `i` held before, or `default` if it was missing or its deletion failed |
| ServiceProperties.ExecuteStaysInItsTable | src/service/command_service.rs:3-118 | no command changes any key of a table other than its own |
| ServiceProperties.TouchDecides | src/service/command_service.rs:22-92 | on a store that never fails, a key is bound after one command exactly when that command wrote it, or when the command did not touch it and it was bound before |
| ServiceProperties.HmsetTouchDecides | src/service/command_service.rs:50-67 | on a store that never fails, a key is bound after `Hmset` exactly when some pair is for it or it was bound before |
| ServiceProperties.ExistsIffLastTouchIsWrite | src/service/command_service.rs:94-101 | on a store that never fails, after any run of commands a key exists exactly when the last command touching it wrote it; a key no command touched exists exactly when it did before; `Hexist` answers accordingly |
| ServiceTests.SetWrites | src/service/command_service.rs:127-128 | on a store that never fails, an `Hset` of a pair binds its key to its value |
| ServiceTests.RunAppend | src/service/command_service.rs:162-164 | running one more command continues from the state the earlier commands leave |
| ServiceTests.RunThreeSets | src/service/command_service.rs:236-243 | three sets in a row leave the state of three writes |
| ServiceTests.RunFourSets | src/service/command_service.rs:156-164 | four sets in a row leave the state of four writes |
| ServiceTests.ScoreListing | src/service/command_service.rs:166-173 | the score table after the get-all test's sets lists as `[(u1,6),(u2,8),(u3,11)]` |
| ServiceTests.HsetShouldWork | src/service/command_service.rs:124-133 | the first set of `("t1","hello","world")` answers `[default]` and the second answers `["world"]` |
| ServiceTests.HgetShouldWork | src/service/command_service.rs:135-143 | after setting u1 = 10, `Hget` of u1 answers `[10]` |
| ServiceTests.HgetWithNonExistKeyShouldReturn404 | src/service/command_service.rs:145-151 | `Hget` on an empty store answers status 404 and the not-found error |
| ServiceTests.HgetallShouldWork | src/service/command_service.rs:153-174 | after the sets u1 = 10, u2 = 8, u3 = 11, u1 = 6, `Hgetall` answers the pairs `[(u1,6),(u2,8),(u3,11)]` and no values |
| ServiceTests.HmsetShouldWork | src/service/command_service.rs:176-197 | `Hmset` of three new keys answers three defaults |
| ServiceTests.HmgetAfterHmset | src/service/command_service.rs:207-213 | after `Hmset` of three distinct keys, `Hmget` of them answers their values in order |
| ServiceTests.HmgetShouldWork | src/service/command_service.rs:199-214 | after the batch set, `Hmget` of u1, u2, u3 answers `[6, 8, 11]` |
| ServiceTests.HdelShouldWork | src/service/command_service.rs:216-231 | `Hdel` of u1 answers `[10]`, after which `Hget` of u1 answers 404 |
| ServiceTests.HmdelTwoOfThree | src/service/command_service.rs:245-259 | deleting two of three distinct bound keys answers their values and unbinds them, and the third key keeps its binding |
| ServiceTests.HmdelShouldWork | src/service/command_service.rs:233-260 | `Hmdel` of u1, u2 answers `[10, 8]`; afterwards u1 and u2 answer 404 and u3 answers `[11]` |
| ServiceTests.HexistShouldWork | src/service/command_service.rs:262-275 | after setting u1, `Hexist` answers true for u1 and false for u2 |
| ServiceTests.HmexistShouldWork | src/service/command_service.rs:277-291 | after setting u1 and u2, `Hmexist` of u1, u2, u3 answers `[true, true, false]` |

When a `contains` call fails, `Hmexist` gives `Value::default()` at that position (src/service/command_service.rs:110-113), not `false`.

## Left out

- `examples/client.rs` is not part of this model. It is an asynchronous TCP client and has no logic of its own.
- Wire framing, length prefixes, compression and protobuf encoding are not modelled. None of them appears in the dispatcher.
- The real `MemTable` is shared between connections through interior mutability. The model is one sequential store with no locking or concurrency.
- `Float` values are kept as their 64 bits and compared with bitwise, not IEEE, equality: NaN equals itself and +0 differs from -0. The dispatcher never compares values, so no behaviour of the dispatcher depends on this.
- Error messages are abstract: `Describes(error)` stands for the text.
- The conversions from `KvError` into a response are not shown in the source. The model gives 404 for `NotFound` and 500 for every other error.
- The body of `dispatch` is not shown. It is modelled as a match over the nine commands, so a request carrying no command is not modelled.
- The storage implementation is not shown. The store is modelled as a map of maps.
- `get_all` is modelled as listing in ascending key order, the order in which the get-all test lists its expected pairs (src/service/command_service.rs:168-173). The real store's order may be that of an unordered map.
- Creating a table on first access is not modelled: an absent table reads exactly as an empty one, so reads cannot tell the difference.
- Backend errors are fixed per storage call for the lifetime of a `MemTable`: a call that fails once fails every time. Transient failures, and a failure that changes some state, are not modelled.
- The test for `Hmset` ends by printing a get-all response (`src/service/command_service.rs:194-196`). It asserts nothing, and the printing is not modelled; neither are the `println!` calls in the delete test.
- HmsetStep: its own contract states only the status and the length. What each position holds and the final state are stated by `HmsetIsSequenceOfHset`, `HmsetSeesEarlierWrites` and `HmsetFinalState`.
- HmdelStep: its own contract states only the status and the length. What each position holds and the final state are stated by `HmdelIsSequenceOfHdel`, `HmdelRemovedValues` and `HmdelFinalState`.
- SetEach: its own contract states only the length. Its contents are stated by `SetEachAt`.
- DelEach: its own contract states only the length. Its contents are stated by `DelEachAt`.
- `TouchDecides`, `HmsetTouchDecides` and `ExistsIffLastTouchIsWrite` are stated for a store that never fails. `ExecuteStaysInItsTable` holds for any faults.
