/**
 * The message types the command service works with: the stored Value, the Kvpair used
 * to carry a key and its value, the KvError kinds, the CommandResponse envelope and the
 * Command variants a CommandRequest carries.
 */
module Kv {
  import opened Wrappers

  newtype byte = x: int | 0 <= x < 256

  /** A 64-bit signed integer payload. */
  type Int64 = x: int | -0x8000_0000_0000_0000 <= x < 0x8000_0000_0000_0000

  /**
   * A stored payload. `Absent` is `Value::default()`, the value whose payload is unset;
   * the other variants are the string, binary, integer, float and bool payloads.
   * A float is kept as its 64 bits and only compared for equality.
   */
  datatype Value =
    | Absent
    | Str(s: string)
    | Binary(bytes: seq<byte>)
    | Integer(i: Int64)
    | Float(bits: bv64)
    | Bool(b: bool)

  /** A key with an optional value; a missing value stands for `Value::default()`. */
  datatype Kvpair = Kvpair(key: string, value: Option<Value>)

  /** `Kvpair::new(key, value)` */
  function NewPair(key: string, value: Value): (p: Kvpair)
    ensures p.key == key && PairValue(p) == value
  {
    Kvpair(key, Some(value))
  }

  /** `pair.value.unwrap_or_default()` */
  function PairValue(pair: Kvpair): (v: Value)
    ensures pair.value.Some? ==> v == pair.value.value
    ensures pair.value.None? ==> v == Absent
  {
    pair.value.GetOr(Absent)
  }

  /** The error kinds the dispatcher can report. */
  datatype KvError =
    | NotFound(table: string, key: string)
    | Backend(description: string)

  const STATUS_OK: nat := 200
  const STATUS_NOT_FOUND: nat := 404
  const STATUS_INTERNAL_ERROR: nat := 500

  /** The status an error reports: 404 exactly for `NotFound`, 500 for every other error. */
  function StatusOf(e: KvError): (status: nat)
    ensures status == STATUS_NOT_FOUND <==> e.NotFound?
    ensures status != STATUS_OK
  {
    match e
    case NotFound(_, _) => STATUS_NOT_FOUND
    case Backend(_) => STATUS_INTERNAL_ERROR
  }

  /** The message text of a response, kept abstract: empty on success, else the error it describes. */
  datatype Message = NoMessage | Describes(error: KvError)

  /** The CommandResponse envelope. */
  datatype Response = Response(status: nat, message: Message, values: seq<Value>, pairs: seq<Kvpair>)

  /** `Value` into `CommandResponse` */
  function FromValue(v: Value): (r: Response)
    ensures r.status == STATUS_OK && r.message == NoMessage && r.values == [v] && r.pairs == []
  {
    Response(STATUS_OK, NoMessage, [v], [])
  }

  /** `Vec<Value>` into `CommandResponse` */
  function FromValues(vs: seq<Value>): (r: Response)
    ensures r.status == STATUS_OK && r.message == NoMessage && r.values == vs && r.pairs == []
  {
    Response(STATUS_OK, NoMessage, vs, [])
  }

  /** `Vec<Kvpair>` into `CommandResponse` */
  function FromPairs(ps: seq<Kvpair>): (r: Response)
    ensures r.status == STATUS_OK && r.message == NoMessage && r.values == [] && r.pairs == ps
  {
    Response(STATUS_OK, NoMessage, [], ps)
  }

  /** `KvError` into `CommandResponse` */
  function FromError(e: KvError): (r: Response)
    ensures r.status != STATUS_OK && (r.status == STATUS_NOT_FOUND <==> e.NotFound?)
    ensures r.message == Describes(e) && r.values == [] && r.pairs == []
  {
    Response(StatusOf(e), Describes(e), [], [])
  }

  /** An error response is never a success, and it determines the error it describes. */
  lemma ErrorResponseIsDistinct(e: KvError, e': KvError, vs: seq<Value>, ps: seq<Kvpair>)
    ensures FromError(e) != FromValues(vs) && FromError(e) != FromPairs(ps)
    ensures FromError(e) == FromError(e') ==> e == e'
  {
  }

  /** The request variants, each carrying the operands of its storage calls. */
  datatype Command =
    | Hget(table: string, key: string)
    | Hgetall(table: string)
    | Hset(table: string, pair: Option<Kvpair>)
    | Hmget(table: string, keys: seq<string>)
    | Hmset(table: string, pairs: seq<Kvpair>)
    | Hdel(table: string, key: string)
    | Hmdel(table: string, keys: seq<string>)
    | Hexist(table: string, key: string)
    | Hmexist(table: string, keys: seq<string>)
  {
    /** The commands that only query the store. */
    predicate IsReadOnly() {
      Hget? || Hgetall? || Hmget? || Hexist? || Hmexist?
    }
  }
}
