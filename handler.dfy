/** The command handler a worker runs on each request it receives: it validates
    the request, dispatches PING, GET and SET, and answers from its key-value store. */
module Handler {
  import opened Wire
  import opened Message
  import opened Kv
  import Router

  const GET: Bytes := Ascii("GET")
  const SET: Bytes := Ascii("SET")
  const PONG: Bytes := Ascii("PONG")
  const OK: Bytes := Ascii("OK")
  const NOT_ARRAY: Bytes := Ascii("request must be array")
  const EMPTY: Bytes := Ascii("empty request")
  const NOT_BULK: Bytes := Ascii("command must be bulk string")
  const BAD_KEY: Bytes := Ascii("error while processing key")
  const INVALID: Bytes := Ascii("invalid command")

  /** What a request asks for, once its shape has been checked. */
  datatype Command =
    | Reject(msg: Bytes)
    | Ping
    | GetKey(key: Bytes)
    | SetKey(key: Bytes, value: Bytes)

  /** The checks of `process_command`, in its order: an array with items, a bulk-string
      command compared after upper-casing, then the bulk-string arguments the command
      takes (items after those are ignored). */
  function Classify(value: ResponseValue): Command
  {
    if !(value.Array? && value.items.Items?) then Reject(NOT_ARRAY)
    else
      var items := value.items.elems;
      if items == [] then Reject(EMPTY)
      else if !Router.IsBulk(items[0]) then Reject(NOT_BULK)
      else
        var command := AsciiUpper(items[0].data.value);
        if command == Router.PING then Ping
        else if command == GET then
          if |items| >= 2 && Router.IsBulk(items[1]) then GetKey(items[1].data.value)
          else Reject(BAD_KEY)
        else if command == SET then
          if |items| >= 3 && Router.IsBulk(items[1]) && Router.IsBulk(items[2])
          then SetKey(items[1].data.value, items[2].data.value)
          else Reject(BAD_KEY)
        else Reject(INVALID)
  }

  /** The handler only ever stores strings. */
  ghost predicate StringsOnly(db: map<Bytes, RedisValue>)
  {
    forall k :: k in db ==> db[k].Str?
  }

  /** The reply to a command and the store after it. */
  function Respond(c: Command, db: map<Bytes, RedisValue>): (ResponseValue, map<Bytes, RedisValue>)
    requires StringsOnly(db)
  {
    match c
    case Reject(msg) => (Error(msg), db)
    case Ping => (SimpleString(PONG), db)
    case GetKey(k) => (if k in db then BulkString(Some(db[k].s)) else BulkString(None), db)
    case SetKey(k, v) => (BulkString(Some(OK)), db[k := Str(v)])
  }

  class CommandHandler {
    const kv: KvStore

    constructor (kv: KvStore)
      ensures this.kv == kv
    {
      this.kv := kv;
    }

    ghost predicate Valid()
      reads kv
    {
      StringsOnly(kv.db)
    }

    /** `process_command`: the reply to `value`, with the store updated by a SET. */
    method ProcessCommand(value: ResponseValue) returns (r: ResponseValue)
      requires Valid()
      modifies kv
      ensures Valid()
      ensures (r, kv.db) == Respond(Classify(value), old(kv.db))
    {
      if !(value.Array? && value.items.Items?) {
        return Error(NOT_ARRAY);
      }
      var items := value.items.elems;
      if |items| == 0 {
        return Error(EMPTY);
      }
      var commandPart := items[0];
      if !(commandPart.BulkString? && commandPart.data.Some?) {
        return Error(NOT_BULK);
      }
      var command := AsciiUpper(commandPart.data.value);
      if command == Router.PING {
        r := SimpleString(PONG);
      } else if command == GET {
        if |items| >= 2 && items[1].BulkString? && items[1].data.Some? {
          r := HandleGet(items[1].data.value);
        } else {
          r := Error(BAD_KEY);
        }
      } else if command == SET {
        if !(|items| >= 2 && items[1].BulkString? && items[1].data.Some?) {
          return Error(BAD_KEY);
        }
        var key := items[1].data.value;
        if |items| >= 3 && items[2].BulkString? && items[2].data.Some? {
          r := HandleSet(key, items[2].data.value);
        } else {
          r := Error(BAD_KEY);
        }
      } else {
        r := Error(INVALID);
      }
    }

    /** `handle_get`: the stored string, or the null bulk string for a missing key. */
    method HandleGet(key: Bytes) returns (r: ResponseValue)
      requires Valid()
      ensures r == Respond(GetKey(key), kv.db).0
    {
      var got := kv.Get(key);
      match got.value
      case Some(v) => r := BulkString(Some(v.s));
      case None => r := BulkString(None);
    }

    /** `handle_set`: stores the string and answers with the bulk string "OK". */
    method HandleSet(key: Bytes, value: Bytes) returns (r: ResponseValue)
      requires Valid()
      modifies kv
      ensures Valid()
      ensures (r, kv.db) == Respond(SetKey(key, value), old(kv.db))
    {
      var res := kv.Set(key, value);
      r := BulkString(Some(OK));
    }
  }

  /** The rejections of `process_command`, each with its fixed text, leaving the store
      as it was. */
  lemma HandlerRejections(value: ResponseValue, db: map<Bytes, RedisValue>)
    requires StringsOnly(db)
    ensures !(value.Array? && value.items.Items?) ==>
      Respond(Classify(value), db) == (Error(Ascii("request must be array")), db)
    ensures value == Array(Items([])) ==>
      Respond(Classify(value), db) == (Error(Ascii("empty request")), db)
    ensures value.Array? && value.items.Items? && value.items.elems != [] && !Router.IsBulk(value.items.elems[0]) ==>
      Respond(Classify(value), db) == (Error(Ascii("command must be bulk string")), db)
    ensures value.Array? && value.items.Items? && value.items.elems != [] && Router.IsBulk(value.items.elems[0]) ==>
      var command := AsciiUpper(value.items.elems[0].data.value);
      command != Router.PING && command != GET && command != SET ==>
        Respond(Classify(value), db) == (Error(Ascii("invalid command")), db)
  {
  }

  /** Only a SET changes the store; every other request leaves it as it was. */
  lemma OnlySetWrites(c: Command, db: map<Bytes, RedisValue>)
    requires StringsOnly(db)
    ensures !c.SetKey? ==> Respond(c, db).1 == db
    ensures c.SetKey? ==> Respond(c, db).1.Keys == db.Keys + {c.key}
    ensures StringsOnly(Respond(c, db).1)
  {
  }

  /** A GET after a SET of the same key returns the value just set; GETs of other
      keys answer as before the SET. */
  lemma SetThenGet(db: map<Bytes, RedisValue>, k: Bytes, v: Bytes, other: Bytes)
    requires StringsOnly(db)
    requires other != k
    ensures Respond(SetKey(k, v), db).0 == BulkString(Some(OK))
    ensures StringsOnly(Respond(SetKey(k, v), db).1)
    ensures Respond(GetKey(k), Respond(SetKey(k, v), db).1).0 == BulkString(Some(v))
    ensures Respond(GetKey(other), Respond(SetKey(k, v), db).1).0 == Respond(GetKey(other), db).0
  {
  }

  /** Reading a key that was never set gives the null bulk string. */
  lemma GetMissing(db: map<Bytes, RedisValue>, k: Bytes)
    requires StringsOnly(db) && k !in db
    ensures Respond(GetKey(k), db).0 == BulkString(None)
  {
  }

  /** The command name is matched in any letter case. */
  lemma CommandCaseInsensitive(name: Bytes, rest: seq<ResponseValue>)
    ensures Classify(Array(Items([BulkString(Some(name))] + rest)))
         == Classify(Array(Items([BulkString(Some(AsciiUpper(name)))] + rest)))
  {
    assert AsciiUpper(AsciiUpper(name)) == AsciiUpper(name);
  }

  /** A SET missing its key or its value is answered with the key error (not a
      "wrong number of arguments" error), so it stores nothing. */
  lemma SetWithoutValue(k: Bytes)
    ensures Classify(Array(Items([BulkString(Some(SET)), BulkString(Some(k))]))) == Reject(BAD_KEY)
    ensures Classify(Array(Items([BulkString(Some(SET))]))) == Reject(BAD_KEY)
  {
    assert AsciiUpper(SET) == SET;
    assert |SET| != |Router.PING|;
    assert SET[0] != GET[0];
  }

  /** What a worker can see: a frame the router forwards has passed every shape check
      of the handler and is not a PING, and when it names a key, that key is the one
      the router hashed. */
  lemma {:induction false} ForwardedFrames(workers: nat, frame: ResponseValue, seqNo: nat, hash: Bytes -> nat)
    requires workers > 0
    requires Router.RouteMessage(workers, frame, seqNo, hash).ToWorker?
    ensures var c := Classify(frame);
      || (c.GetKey? && c.key == frame.items.elems[1].data.value)
      || (c.SetKey? && c.key == frame.items.elems[1].data.value)
      || c == Reject(BAD_KEY)
      || c == Reject(INVALID)
  {
    Router.ForwardedIffKeyed(workers, frame, seqNo, hash);
    var cmd := frame.items.elems[0].data.value;
    assert AsciiUpper(Router.PING) == Router.PING;
    EqIgnoreCaseIsUpperEq(cmd, Router.PING);
  }

  /** Every GET and SET of one key goes to the same worker, so one worker owns each key. */
  lemma SameKeySameWorker(workers: nat, f1: ResponseValue, f2: ResponseValue, s1: nat, s2: nat, hash: Bytes -> nat)
    requires workers > 0
    requires Router.RouteMessage(workers, f1, s1, hash).ToWorker?
    requires Router.RouteMessage(workers, f2, s2, hash).ToWorker?
    requires Classify(f1).GetKey? || Classify(f1).SetKey?
    requires Classify(f2).GetKey? || Classify(f2).SetKey?
    requires Classify(f1).key == Classify(f2).key
    ensures Router.RouteMessage(workers, f1, s1, hash).worker == Router.RouteMessage(workers, f2, s2, hash).worker
  {
    ForwardedFrames(workers, f1, s1, hash);
    ForwardedFrames(workers, f2, s2, hash);
    Router.ForwardedIffKeyed(workers, f1, s1, hash);
    Router.ForwardedIffKeyed(workers, f2, s2, hash);
  }
}
