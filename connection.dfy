/** The per-connection sequencing: the reader numbers the frames it parses and hands
    them to the router, and the writer holds the replies, which come back in any
    order, until they can go out in request order. */
module Connection {
  import opened Wire
  import opened Message
  import Router

  /** The replies the writer can release from `pending` after having written up to
      `last`: the values under `last + 1`, `last + 2`, ... as far as the numbers run
      without a gap. */
  function Run(p: map<nat, ResponseValue>, last: nat): (r: seq<ResponseValue>)
    // nothing is released unless the next number is held
    ensures r != [] <==> last + 1 in p
    decreases |p.Keys|
  {
    if last + 1 in p then
      var rest := p - {last + 1};
      assert rest.Keys < p.Keys;
      [p[last + 1]] + Run(rest, last + 1)
    else []
  }

  /** Releasing one reply: the run from `last` is that reply followed by the run from
      `last + 1` in what remains, which is smaller. */
  lemma RunStep(p: map<nat, ResponseValue>, last: nat)
    requires last + 1 in p
    ensures Run(p, last) == [p[last + 1]] + Run(p - {last + 1}, last + 1)
    ensures |(p - {last + 1}).Keys| < |p.Keys|
  {
    assert (p - {last + 1}).Keys < p.Keys;
  }

  /** The run holds exactly the replies under `last + 1`, `last + 2`, ... in that
      order, and the number after it is missing. */
  lemma {:induction false} RunConsecutive(p: map<nat, ResponseValue>, last: nat)
    ensures forall k :: last < k <= last + |Run(p, last)| ==> k in p && Run(p, last)[k - last - 1] == p[k]
    ensures last + |Run(p, last)| + 1 !in p
    decreases |p.Keys|
  {
    if last + 1 in p {
      var rest := p - {last + 1};
      RunStep(p, last);
      RunConsecutive(rest, last + 1);
      var r := Run(p, last);
      forall k | last < k <= last + |r|
        ensures k in p && r[k - last - 1] == p[k]
      {
        if k > last + 1 {
          assert k in rest && Run(rest, last + 1)[k - (last + 1) - 1] == rest[k];
          assert r[k - last - 1] == Run(rest, last + 1)[k - (last + 1) - 1];
        } else {
          assert r[0] == p[last + 1];
        }
      }
    } else {
      assert Run(p, last) == [];
    }
  }

  /** `pending` with the numbers `lo + 1 .. hi` taken out. */
  function Without(p: map<nat, ResponseValue>, lo: nat, hi: nat): map<nat, ResponseValue>
  {
    map k | k in p && !(lo < k <= hi) :: p[k]
  }

  lemma WithoutStep(p: map<nat, ResponseValue>, lo: nat, hi: nat)
    requires lo <= hi
    ensures Without(p, lo, hi) - {hi + 1} == Without(p, lo, hi + 1)
  {
  }

  /** One turn of the release loop keeps its invariant. */
  lemma DrainStep(p0: map<nat, ResponseValue>, l0: nat, p: map<nat, ResponseValue>, last: nat, done: seq<ResponseValue>)
    requires Run(p0, l0) == done + Run(p, last)
    requires p == Without(p0, l0, last) && l0 <= last
    requires last + 1 in p
    ensures Run(p0, l0) == (done + [p[last + 1]]) + Run(p - {last + 1}, last + 1)
    ensures p - {last + 1} == Without(p0, l0, last + 1)
    ensures |(p - {last + 1}).Keys| < |p.Keys|
  {
    RunStep(p, last);
    WithoutStep(p0, l0, last);
  }

  /** When the loop stops, everything it wrote is the whole run. */
  lemma DrainDone(p0: map<nat, ResponseValue>, l0: nat, p: map<nat, ResponseValue>, last: nat, done: seq<ResponseValue>)
    requires Run(p0, l0) == done + Run(p, last)
    requires last + 1 !in p
    ensures done == Run(p0, l0)
  {
    assert Run(p, last) == [];
  }

  /** Serialises one more released reply after those already written. */
  method SerializeNext(value: ResponseValue, dst: WriteBuffer, ghost d0: Bytes, ghost done: seq<ResponseValue>)
    requires dst.data == d0 + EncodeAll(done)
    modifies dst
    ensures dst.data == d0 + EncodeAll(done + [value])
  {
    Serialize(value, dst);
    EncodeAllSnoc(done, value);
  }

  /** The pending map after inserting `batch` in order; a later reply under the same
      number replaces an earlier one. */
  function InsertAll(p: map<nat, ResponseValue>, batch: seq<(nat, ResponseValue)>): (r: map<nat, ResponseValue>)
  {
    if batch == [] then p
    else
      var last := batch[|batch| - 1];
      InsertAll(p, batch[..|batch| - 1])[last.0 := last.1]
  }

  /** The state of `writer_task`: `last_seq`, the ordered map `buffer` of replies
      waiting for their turn, and the output buffer `write_buffer`. */
  class ReorderBuffer {
    var lastSeq: nat
    var pending: map<nat, ResponseValue>
    const writeBuffer: WriteBuffer

    /** Between rounds nothing is left in the output buffer and the next reply in
        order has not arrived yet. */
    ghost predicate Valid()
      reads this, writeBuffer
    {
      writeBuffer.data == [] && lastSeq + 1 !in pending
    }

    /** A writer that has written nothing: the first reply it waits for is number 1. */
    constructor ()
      ensures lastSeq == 0 && pending == map[] && fresh(writeBuffer)
      ensures Valid()
    {
      lastSeq := 0;
      pending := map[];
      writeBuffer := new WriteBuffer();
    }

    /** `buffer.insert(seq, value)`: a reply already held under the same number is replaced. */
    method Insert(seqNo: nat, value: ResponseValue)
      modifies this
      ensures pending == old(pending)[seqNo := value]
      ensures lastSeq == old(lastSeq)
    {
      pending := pending[seqNo := value];
    }

    /** The release loop: takes out `last_seq + 1` for as long as it is present,
        serialising each reply and advancing `last_seq`. */
    method Drain()
      modifies this, writeBuffer
      ensures lastSeq == old(lastSeq) + |Run(old(pending), old(lastSeq))|
      ensures pending == Without(old(pending), old(lastSeq), lastSeq)
      ensures lastSeq + 1 !in pending
      ensures writeBuffer.data == old(writeBuffer.data) + EncodeAll(Run(old(pending), old(lastSeq)))
    {
      var buffer, last := pending, lastSeq;
      ghost var d0 := writeBuffer.data;
      ghost var done: seq<ResponseValue> := [];
      while last + 1 in buffer
        modifies writeBuffer
        invariant Run(pending, lastSeq) == done + Run(buffer, last)
        invariant last == lastSeq + |done|
        invariant buffer == Without(pending, lastSeq, last)
        invariant writeBuffer.data == d0 + EncodeAll(done)
        decreases |Run(buffer, last)|
      {
        var value := buffer[last + 1];
        DrainStep(pending, lastSeq, buffer, last, done);
        buffer := buffer - {last + 1};
        SerializeNext(value, writeBuffer, d0, done);
        done := done + [value];
        last := last + 1;
      }
      DrainDone(pending, lastSeq, buffer, last, done);
      pending, lastSeq := buffer, last;
    }

    /** Hands the output buffer to the socket when it holds anything, then clears it. */
    method Flush() returns (out: Bytes)
      modifies writeBuffer
      ensures out == old(writeBuffer.data)
      ensures writeBuffer.data == []
    {
      out := [];
      if writeBuffer.data != [] {
        out := writeBuffer.data;
        writeBuffer.Clear();
      }
    }

    /** One turn of the outer loop of `writer_task`: the replies received in this
        turn go into the map, the run that can go out is serialised in order, and
        the bytes handed to the socket are returned. */
    method Round(batch: seq<(nat, ResponseValue)>) returns (out: Bytes)
      requires Valid()
      modifies this, writeBuffer
      ensures Valid()
      ensures out == EncodeAll(Run(InsertAll(old(pending), batch), old(lastSeq)))
      ensures lastSeq == old(lastSeq) + |Run(InsertAll(old(pending), batch), old(lastSeq))|
      ensures pending == Without(InsertAll(old(pending), batch), old(lastSeq), lastSeq)
    {
      var i := 0;
      while i < |batch|
        invariant 0 <= i <= |batch|
        invariant pending == InsertAll(old(pending), batch[..i])
        invariant lastSeq == old(lastSeq)
        invariant writeBuffer.data == []
      {
        assert batch[..i + 1][..i] == batch[..i];
        Insert(batch[i].0, batch[i].1);
        i := i + 1;
      }
      assert batch[..i] == batch;
      Drain();
      out := Flush();
    }
  }

  /** Nothing at or below `last` ever comes out: a reply stored under an old number
      changes nothing the writer releases. */
  lemma {:induction false} RunIgnoresOld(p: map<nat, ResponseValue>, last: nat, s: nat, v: ResponseValue)
    requires s <= last
    ensures Run(p[s := v], last) == Run(p, last)
    decreases |p.Keys|
  {
    if last + 1 in p {
      var rest := p - {last + 1};
      assert rest.Keys < p.Keys;
      assert p[s := v] - {last + 1} == rest[s := v];
      RunIgnoresOld(rest, last + 1, s, v);
    }
  }

  /** When replies for `last + 1 .. last + m` are all present, all of them go out,
      in that order. */
  lemma {:induction false} RunCoversConsecutive(p: map<nat, ResponseValue>, last: nat, m: nat)
    requires forall k :: last < k <= last + m ==> k in p
    ensures |Run(p, last)| >= m
    ensures forall k :: last < k <= last + m ==> Run(p, last)[k - last - 1] == p[k]
  {
    RunConsecutive(p, last);
  }

  /** What one call of `parse` on the read buffer yields (the parser is not part of this
      model; only its outcomes matter to the reader). */
  datatype ParseEvent =
    | Parsed(frame: ResponseValue)
    | Incomplete
    | InvalidFirstByte(b: Option<byte>)
    | OtherError

  predicate IsError(e: ParseEvent)
  {
    e.InvalidFirstByte? || e.OtherError?
  }

  const NO_FIRST_BYTE: Bytes := Ascii("ERR first byte not found")
  const INTERNAL: Bytes := Ascii("ERR internal server error")

  const INVALID_BYTE: Bytes := Ascii("ERR invalid first byte: ")

  /** The text `format!("-ERR invalid first byte: {}", byte)`, leading '-' included. */
  function InvalidByteText(b: byte): Bytes
  {
    [MINUS] + INVALID_BYTE + Decimal(b as nat)
  }

  /** The reply the reader sends for a parse error. */
  function ErrorReply(e: ParseEvent): ResponseValue
    requires IsError(e)
  {
    match e
    case InvalidFirstByte(Some(b)) => Error(InvalidByteText(b))
    case InvalidFirstByte(None) => Error(NO_FIRST_BYTE)
    case OtherError => Error(INTERNAL)
  }

  /** The messages the reader causes for parse results `events`, having numbered
      `seqNo` frames so far: each frame gets the next number and is routed; an
      `Incomplete` sends the reader back to the socket; an error is answered under
      the current number and ends the connection. A `Panic` (a keyed frame with no
      worker to take it) ends reader_task, so it is the last outcome. */
  function Reader(events: seq<ParseEvent>, seqNo: nat, workers: nat, hash: Bytes -> nat): (sent: seq<Router.Outcome>)
    // at most one message per parse result
    ensures |sent| <= |events|
  {
    if events == [] then []
    else match events[0]
      case Parsed(frame) =>
        var o := Router.RouteMessage(workers, frame, seqNo + 1, hash);
        if o.Panic? then [o] else [o] + Reader(events[1..], seqNo + 1, workers, hash)
      case Incomplete => Reader(events[1..], seqNo, workers, hash)
      case _ => [Router.ToWriter(seqNo, ErrorReply(events[0]))]
  }

  /** One parse result's share of what the reader sends. */
  lemma ReaderStep(events: seq<ParseEvent>, seqNo: nat, workers: nat, hash: Bytes -> nat)
    requires events != []
    ensures events[0].Parsed? && Router.RouteMessage(workers, events[0].frame, seqNo + 1, hash).Panic? ==>
      Reader(events, seqNo, workers, hash) == [Router.Panic]
    ensures events[0].Parsed? && !Router.RouteMessage(workers, events[0].frame, seqNo + 1, hash).Panic? ==>
      Reader(events, seqNo, workers, hash)
        == [Router.RouteMessage(workers, events[0].frame, seqNo + 1, hash)] + Reader(events[1..], seqNo + 1, workers, hash)
    ensures events[0].Incomplete? ==> Reader(events, seqNo, workers, hash) == Reader(events[1..], seqNo, workers, hash)
    ensures IsError(events[0]) ==> Reader(events, seqNo, workers, hash) == [Router.ToWriter(seqNo, ErrorReply(events[0]))]
  {
  }

  /** `reader_task` over the parse results of the whole connection, in order: the
      outer read loop and the inner parse loop become one loop, where `Incomplete`
      is the point at which the next read happens. Returns the messages sent. */
  method ReaderTask(events: seq<ParseEvent>, workers: nat, hash: Bytes -> nat) returns (sent: seq<Router.Outcome>)
    ensures sent == Reader(events, 0, workers, hash)
  {
    var seqNo: nat := 0;
    sent := [];
    var i := 0;
    while i < |events|
      invariant 0 <= i <= |events|
      invariant sent + Reader(events[i..], seqNo, workers, hash) == Reader(events, 0, workers, hash)
      decreases |events| - i
    {
      ReaderStep(events[i..], seqNo, workers, hash);
      assert events[i..][0] == events[i] && events[i..][1..] == events[i + 1..];
      match events[i] {
        case Parsed(frame) =>
          seqNo := seqNo + 1;
          var o := Router.RouteMessage(workers, frame, seqNo, hash);
          sent := sent + [o];
          if o.Panic? {
            return;
          }
        case Incomplete =>
        case InvalidFirstByte(Some(b)) =>
          sent := sent + [Router.ToWriter(seqNo, Error(InvalidByteText(b)))];
          return;
        case InvalidFirstByte(None) =>
          sent := sent + [Router.ToWriter(seqNo, Error(NO_FIRST_BYTE))];
          return;
        case OtherError =>
          sent := sent + [Router.ToWriter(seqNo, Error(INTERNAL))];
          return;
      }
      i := i + 1;
    }
  }

  /** The number of frames among `events`. */
  function Frames(events: seq<ParseEvent>): nat
  {
    if events == [] then 0 else (if events[0].Parsed? then 1 else 0) + Frames(events[1..])
  }

  /** The frames among `events`, in order. */
  function FramesOf(events: seq<ParseEvent>): (fs: seq<ResponseValue>)
    ensures |fs| == Frames(events)
  {
    if events == [] then []
    else if events[0].Parsed? then [events[0].frame] + FramesOf(events[1..])
    else FramesOf(events[1..])
  }

  /** Without a parse error, the frames get the numbers `seqNo + 1, seqNo + 2, ...`
      in order, one message each; from a fresh reader that is 1, 2, 3, ..., the
      number the writer waits for first. */
  lemma {:induction false} ReaderNumbersFrames(events: seq<ParseEvent>, seqNo: nat, workers: nat, hash: Bytes -> nat)
    requires workers > 0
    requires forall k :: 0 <= k < |events| ==> !IsError(events[k])
    ensures |Reader(events, seqNo, workers, hash)| == Frames(events)
    ensures forall k :: 0 <= k < Frames(events) ==> !Reader(events, seqNo, workers, hash)[k].Panic? && Reader(events, seqNo, workers, hash)[k].seqNo == seqNo + 1 + k
  {
    if events != [] {
      ReaderNumbersFrames(events[1..], if events[0].Parsed? then seqNo + 1 else seqNo, workers, hash);
    }
  }

  /** `sent` is the routing of `frames` in order, the `k`-th under number `seqNo + 1 + k`. */
  predicate RoutedInOrder(sent: seq<Router.Outcome>, frames: seq<ResponseValue>, seqNo: nat, workers: nat, hash: Bytes -> nat)
  {
    && |sent| == |frames|
    && forall k :: 0 <= k < |frames| ==> sent[k] == Router.RouteMessage(workers, frames[k], seqNo + 1 + k, hash)
  }

  /** Routing one more frame in front keeps the messages in frame order. */
  lemma RoutedCons(sent: seq<Router.Outcome>, frames: seq<ResponseValue>, f: ResponseValue, seqNo: nat, workers: nat, hash: Bytes -> nat)
    requires RoutedInOrder(sent, frames, seqNo + 1, workers, hash)
    ensures RoutedInOrder([Router.RouteMessage(workers, f, seqNo + 1, hash)] + sent, [f] + frames, seqNo, workers, hash)
  {
    var r, fs := [Router.RouteMessage(workers, f, seqNo + 1, hash)] + sent, [f] + frames;
    forall k | 1 <= k < |fs|
      ensures r[k] == Router.RouteMessage(workers, fs[k], seqNo + 1 + k, hash)
    {
      assert r[k] == sent[k - 1] && fs[k] == frames[k - 1];
    }
  }

  /** Without a parse error, message `k` is the routing of the `k`-th frame under the
      number `seqNo + 1 + k`. */
  lemma {:induction false} ReaderRoutesFrames(events: seq<ParseEvent>, seqNo: nat, workers: nat, hash: Bytes -> nat)
    requires workers > 0
    requires forall k :: 0 <= k < |events| ==> !IsError(events[k])
    ensures RoutedInOrder(Reader(events, seqNo, workers, hash), FramesOf(events), seqNo, workers, hash)
  {
    if events != [] {
      ReaderStep(events, seqNo, workers, hash);
      var next := if events[0].Parsed? then seqNo + 1 else seqNo;
      ReaderRoutesFrames(events[1..], next, workers, hash);
      if events[0].Parsed? {
        RoutedCons(Reader(events[1..], next, workers, hash), FramesOf(events[1..]), events[0].frame, seqNo, workers, hash);
      }
    }
  }

  /** A panic ends the reader: no outcome follows it. With no worker, a keyed first
      frame is all the reader gets to: it panics and nothing is sent. */
  lemma {:induction false} ReaderPanicEnds(events: seq<ParseEvent>, seqNo: nat, workers: nat, hash: Bytes -> nat)
    ensures forall k :: 0 <= k < |Reader(events, seqNo, workers, hash)| && Reader(events, seqNo, workers, hash)[k].Panic? ==>
      k == |Reader(events, seqNo, workers, hash)| - 1
    ensures workers == 0 && events != [] && events[0].Parsed? && Router.Keyed(events[0].frame) ==>
      Reader(events, seqNo, workers, hash) == [Router.Panic]
  {
    if events != [] && !IsError(events[0]) {
      var next := if events[0].Parsed? then seqNo + 1 else seqNo;
      ReaderPanicEnds(events[1..], next, workers, hash);
      var r := Reader(events, seqNo, workers, hash);
      if events[0].Parsed? && !r[0].Panic? {
        assert r == [r[0]] + Reader(events[1..], next, workers, hash);
        forall k | 0 <= k < |r| && r[k].Panic?
          ensures k == |r| - 1
        {
          assert k > 0 && r[k] == Reader(events[1..], next, workers, hash)[k - 1];
        }
      }
      if workers == 0 && events[0].Parsed? && Router.Keyed(events[0].frame) {
        Router.KeyedNoWorkerPanics(events[0].frame, seqNo + 1, hash);
      }
    }
  }

  /** After `n` frames, a parse error is answered under number `n`: the number of the
      last frame, whose own reply is also on its way, or 0 when no frame came before. */
  lemma {:induction false} ReaderErrorReusesSeq(prefix: seq<ParseEvent>, e: ParseEvent, rest: seq<ParseEvent>,
                                                seqNo: nat, workers: nat, hash: Bytes -> nat)
    requires workers > 0
    requires forall k :: 0 <= k < |prefix| ==> !IsError(prefix[k])
    requires IsError(e)
    ensures var r := Reader(prefix + [e] + rest, seqNo, workers, hash);
      |r| == Frames(prefix) + 1 && r[|r| - 1] == Router.ToWriter(seqNo + Frames(prefix), ErrorReply(e))
    ensures forall k :: 0 <= k < Frames(prefix) ==> !Reader(prefix + [e] + rest, seqNo, workers, hash)[k].Panic? && Reader(prefix + [e] + rest, seqNo, workers, hash)[k].seqNo == seqNo + 1 + k
  {
    if prefix == [] {
      assert ([] + [e] + rest)[0] == e;
    } else {
      assert (prefix + [e] + rest)[1..] == prefix[1..] + [e] + rest;
      ReaderErrorReusesSeq(prefix[1..], e, rest, if prefix[0].Parsed? then seqNo + 1 else seqNo, workers, hash);
    }
  }

  /** A connection whose first bytes cannot be parsed: the reply goes out under number 0,
      which a fresh writer (waiting for 1) never releases, so the client gets nothing. */
  lemma FirstErrorNeverWritten(b: byte, workers: nat, hash: Bytes -> nat)
    ensures Reader([InvalidFirstByte(Some(b))], 0, workers, hash) == [Router.ToWriter(0, Error(InvalidByteText(b)))]
    ensures Run(map[0 := Error(InvalidByteText(b))], 0) == []
  {
  }

  /** The invalid-first-byte text already starts with '-', so on the wire the reply
      starts with two: "--ERR invalid first byte: ...". */
  lemma InvalidByteDoubleDash(b: byte)
    ensures Encode(Error(InvalidByteText(b)))[..2] == [MINUS, MINUS]
  {
  }

  /** The error replies with their intended text and number: the text without the
      leading '-' that `Error` adds on the wire, under the next unused number. */
  function ErrorReplyFixed(e: ParseEvent): ResponseValue
    requires IsError(e)
  {
    match e
    case InvalidFirstByte(Some(b)) => Error(INVALID_BYTE + Decimal(b as nat))
    case InvalidFirstByte(None) => Error(NO_FIRST_BYTE)
    case OtherError => Error(INTERNAL)
  }

  function ReaderFixed(events: seq<ParseEvent>, seqNo: nat, workers: nat, hash: Bytes -> nat): seq<Router.Outcome>
  {
    if events == [] then []
    else match events[0]
      case Parsed(frame) =>
        var o := Router.RouteMessage(workers, frame, seqNo + 1, hash);
        if o.Panic? then [o] else [o] + ReaderFixed(events[1..], seqNo + 1, workers, hash)
      case Incomplete => ReaderFixed(events[1..], seqNo, workers, hash)
      case _ => [Router.ToWriter(seqNo + 1, ErrorReplyFixed(events[0]))]
  }

  /** With the error under the next number, every message the reader causes has its
      own number, and the numbers are exactly `seqNo + 1 ..` in order. */
  lemma {:induction false} ReaderFixedNumbering(events: seq<ParseEvent>, seqNo: nat, workers: nat, hash: Bytes -> nat)
    requires workers > 0
    ensures forall k :: 0 <= k < |ReaderFixed(events, seqNo, workers, hash)| ==>
      !ReaderFixed(events, seqNo, workers, hash)[k].Panic? && ReaderFixed(events, seqNo, workers, hash)[k].seqNo == seqNo + 1 + k
  {
    if events != [] && !IsError(events[0]) {
      ReaderFixedNumbering(events[1..], if events[0].Parsed? then seqNo + 1 else seqNo, workers, hash);
    }
  }

  /** Every fixed error reply starts with a single '-' on the wire. */
  lemma FixedErrorSingleDash(e: ParseEvent)
    requires IsError(e)
    ensures Encode(ErrorReplyFixed(e))[0] == MINUS && Encode(ErrorReplyFixed(e))[1] != MINUS
  {
    match e
    case InvalidFirstByte(Some(b)) =>
    case InvalidFirstByte(None) =>
    case OtherError =>
  }

  /** With the fix, a connection whose first bytes cannot be parsed does get its error:
      a fresh writer releases it at once. */
  lemma FirstErrorWrittenFixed(e: ParseEvent, workers: nat, hash: Bytes -> nat)
    requires IsError(e)
    ensures ReaderFixed([e], 0, workers, hash) == [Router.ToWriter(1, ErrorReplyFixed(e))]
    ensures Run(map[1 := ErrorReplyFixed(e)], 0) == [ErrorReplyFixed(e)]
  {
    var p := map[1 := ErrorReplyFixed(e)];
    assert p - {1} == map[];
    assert Run(p - {1}, 1) == [];
  }
}
