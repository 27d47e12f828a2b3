/** The request router of a connection: validates a parsed frame and either
    answers it on the writer channel or forwards it to the worker that owns
    its key. The two channel sends become the returned `Outcome`. */
module Router {
  import opened Wire
  import opened Message

  /** The single message one call of `route_message` sends. */
  datatype Outcome =
    | ToWriter(seqNo: nat, value: ResponseValue)               // a `ResponseMessage` on `writer_tx`
    | ToWorker(worker: nat, seqNo: nat, frame: ResponseValue)  // a `WorkerMessage` on `router[worker]`
    | Panic                                                    // `hash % 0` with no workers

  /** What `extract_key` yields: the key, or the reply it already sent instead. */
  datatype KeyResult = Key(key: Bytes) | Answered(reply: ResponseValue)

  const PING: Bytes := Ascii("PING")
  const CONFIG: Bytes := Ascii("CONFIG")

  predicate IsBulk(v: ResponseValue)
  {
    v.BulkString? && v.data.Some?
  }

  /** `extract_key`: the first item must be a non-null bulk string; PING and CONFIG
      (any case) are answered at once, with the text in an `Error` value; otherwise
      the second item, a non-null bulk string, is the key. */
  function ExtractKey(items: seq<ResponseValue>): (r: KeyResult)
    // a key comes out exactly for the frames a worker is meant to receive, and it is the second item
    ensures r.Key? <==> Keyed(Array(Items(items)))
    ensures r.Key? ==> r.key == items[1].data.value
    // everything else has been answered, always with an `Error` value
    ensures r.Answered? ==> r.reply.Error?
  {
    if items == [] || !IsBulk(items[0]) then Answered(Error(Ascii("command must be bulk string")))
    else
      var cmd := items[0].data.value;
      if EqIgnoreAsciiCase(cmd, PING) then Answered(Error(Ascii("PONG")))
      else if EqIgnoreAsciiCase(cmd, CONFIG) then Answered(Error(Ascii("")))
      else if |items| < 2 || !IsBulk(items[1]) then Answered(Error(Ascii("error while parsing key")))
      else Key(items[1].data.value)
  }

  /** `route_message` for a connection whose frame got number `seqNo`, with
      `workers` worker mailboxes and the key hash `hash`. */
  function RouteMessage(workers: nat, frame: ResponseValue, seqNo: nat, hash: Bytes -> nat): (o: Outcome)
    // with at least one worker, exactly one message goes out, and it carries the frame's number
    ensures workers > 0 ==> !o.Panic? && o.seqNo == seqNo
    // a worker only ever gets the unchanged frame, and only one that exists
    ensures o.ToWorker? ==> o.frame == frame && o.worker < workers
    ensures o.Panic? ==> workers == 0
  {
    if !(frame.Array? && frame.items.Items?) then ToWriter(seqNo, Error(Ascii("Value must be array")))
    else if frame.items.elems == [] then ToWriter(seqNo, Error(Ascii("empty request")))
    else
      match ExtractKey(frame.items.elems)
      case Answered(reply) => ToWriter(seqNo, reply)
      case Key(key) =>
        if workers == 0 then Panic
        else
          var mailbox := hash(key) % workers;
          if mailbox < workers then ToWorker(mailbox, seqNo, frame)
          else ToWriter(seqNo, Error(Ascii("internal server error, invalid worker index")))
  }

  /** The frames a worker receives: arrays whose first item is a bulk-string command
      other than PING and CONFIG (in any case) and whose second item is a bulk-string key. */
  predicate Keyed(frame: ResponseValue)
  {
    && frame.Array? && frame.items.Items?
    && |frame.items.elems| >= 2
    && IsBulk(frame.items.elems[0]) && IsBulk(frame.items.elems[1])
    && !EqIgnoreAsciiCase(frame.items.elems[0].data.value, PING)
    && !EqIgnoreAsciiCase(frame.items.elems[0].data.value, CONFIG)
  }

  /** A frame is forwarded exactly when it is keyed, to the worker `hash(key) % workers`,
      and a forwarded frame never produces a reply on the writer channel. */
  lemma ForwardedIffKeyed(workers: nat, frame: ResponseValue, seqNo: nat, hash: Bytes -> nat)
    requires workers > 0
    ensures RouteMessage(workers, frame, seqNo, hash).ToWorker? <==> Keyed(frame)
    ensures Keyed(frame) ==>
      RouteMessage(workers, frame, seqNo, hash) == ToWorker(hash(frame.items.elems[1].data.value) % workers, seqNo, frame)
    ensures !Keyed(frame) ==> RouteMessage(workers, frame, seqNo, hash).ToWriter?
  {
  }

  /** With no worker mailbox, a keyed frame reaches `hash % 0` and the router panics. */
  lemma KeyedNoWorkerPanics(frame: ResponseValue, seqNo: nat, hash: Bytes -> nat)
    requires Keyed(frame)
    ensures RouteMessage(0, frame, seqNo, hash) == Panic
  {
  }

  /** The rejections, each with its fixed text, sent to the writer under the frame's number. */
  lemma Rejections(workers: nat, frame: ResponseValue, seqNo: nat, hash: Bytes -> nat)
    ensures !(frame.Array? && frame.items.Items?) ==>
      RouteMessage(workers, frame, seqNo, hash) == ToWriter(seqNo, Error(Ascii("Value must be array")))
    ensures frame == Array(Items([])) ==>
      RouteMessage(workers, frame, seqNo, hash) == ToWriter(seqNo, Error(Ascii("empty request")))
    ensures frame.Array? && frame.items.Items? && frame.items.elems != [] && !IsBulk(frame.items.elems[0]) ==>
      RouteMessage(workers, frame, seqNo, hash) == ToWriter(seqNo, Error(Ascii("command must be bulk string")))
  {
  }

  /** PING and CONFIG, in any letter case and with any further items, are answered by
      the router itself with the `Error`-variant values "PONG" and "". */
  lemma PingAndConfigIntercepted(workers: nat, cmd: Bytes, rest: seq<ResponseValue>, seqNo: nat, hash: Bytes -> nat)
    ensures AsciiUpper(cmd) == PING ==>
      RouteMessage(workers, Array(Items([BulkString(Some(cmd))] + rest)), seqNo, hash) == ToWriter(seqNo, Error(Ascii("PONG")))
    ensures AsciiUpper(cmd) == CONFIG ==>
      RouteMessage(workers, Array(Items([BulkString(Some(cmd))] + rest)), seqNo, hash) == ToWriter(seqNo, Error(Ascii("")))
  {
    assert AsciiUpper(PING) == PING;
    assert AsciiUpper(CONFIG) == CONFIG;
    EqIgnoreCaseIsUpperEq(cmd, PING);
    EqIgnoreCaseIsUpperEq(cmd, CONFIG);
  }

  /** A command other than PING and CONFIG without a bulk-string key is rejected. */
  lemma MissingKeyRejected(workers: nat, cmd: Bytes, rest: seq<ResponseValue>, seqNo: nat, hash: Bytes -> nat)
    requires !EqIgnoreAsciiCase(cmd, PING) && !EqIgnoreAsciiCase(cmd, CONFIG)
    requires rest == [] || !IsBulk(rest[0])
    ensures RouteMessage(workers, Array(Items([BulkString(Some(cmd))] + rest)), seqNo, hash)
      == ToWriter(seqNo, Error(Ascii("error while parsing key")))
  {
  }
}
