/** RESP2 replies (`ResponseValue`) and their byte-level serialisation. */
module Message {
  import opened Wire

  /** A reply value. `Array(NullArray)` is the RESP null array, `BulkString(None)` the null bulk string. */
  datatype ResponseValue =
    | SimpleString(s: Bytes)
    | Error(msg: Bytes)
    | Integer(i: i64)
    | BulkString(data: Option<Bytes>)
    | Array(items: ArrayItems)

  /** The optional item list of an array reply (`Option<Vec<ResponseValue>>` in the server). */
  datatype ArrayItems = NullArray | Items(elems: seq<ResponseValue>)

  const PLUS: byte := 0x2B
  const MINUS: byte := 0x2D
  const COLON: byte := 0x3A
  const DOLLAR: byte := 0x24
  const STAR: byte := 0x2A
  const CRLF: Bytes := [0x0D, 0x0A]
  /** `$-1\r\n` and `*-1\r\n`, written verbatim for the null bulk string and the null array. */
  const NULL_BULK: Bytes := [DOLLAR, MINUS, 0x31, 0x0D, 0x0A]
  const NULL_ARRAY: Bytes := [STAR, MINUS, 0x31, 0x0D, 0x0A]

  predicate IsDigit(b: byte) { 0x30 <= b <= 0x39 }

  /** `n.to_string()`: decimal digits, most significant first, no leading zero. */
  function Decimal(n: nat): (r: Bytes)
    ensures |r| >= 1
    ensures forall k :: 0 <= k < |r| ==> IsDigit(r[k])
    ensures n > 0 ==> r[0] != 0x30
  {
    if n < 10 then [(0x30 + n) as byte] else Decimal(n / 10) + [(0x30 + n % 10) as byte]
  }

  /** Reading a string of decimal digits back, most significant first. */
  function DecimalValue(ds: Bytes): (n: nat)
    requires forall k :: 0 <= k < |ds| ==> IsDigit(ds[k])
  {
    if ds == [] then 0
    else
      var last := ds[|ds| - 1];
      assert IsDigit(last);
      10 * DecimalValue(ds[..|ds| - 1]) + (last as int - 0x30)
  }

  /** The decimal text round-trips: reading `Decimal(n)` gives back `n`. */
  lemma {:induction false} DecimalRoundTrip(n: nat)
    ensures DecimalValue(Decimal(n)) == n
  {
    if n >= 10 {
      var d := Decimal(n);
      assert d[..|d| - 1] == Decimal(n / 10);
      DecimalRoundTrip(n / 10);
    }
  }

  /** Two different numbers never get the same decimal text. */
  lemma DecimalInjective(m: nat, n: nat)
    requires Decimal(m) == Decimal(n)
    ensures m == n
  {
    DecimalRoundTrip(m);
    DecimalRoundTrip(n);
  }

  /** `i64::to_string`: a leading '-' for negative values, then the digits of |i|. */
  function IntegerText(i: int): (r: Bytes)
    ensures |r| >= 1 && ((i < 0) <==> (r[0] == MINUS))
    ensures i >= 0 ==> r == Decimal(i)
    ensures i < 0 ==> r[1..] == Decimal(-i)
  {
    if i < 0 then [MINUS] + Decimal(-i) else Decimal(i)
  }

  /** The bytes `serialize` appends for one value. */
  function Encode(v: ResponseValue): (r: Bytes)
  {
    match v
    case SimpleString(s) => [PLUS] + s + CRLF
    case Error(m) => [MINUS] + m + CRLF
    case Integer(i) => [COLON] + IntegerText(i) + CRLF
    case BulkString(None) => NULL_BULK
    case BulkString(Some(d)) => [DOLLAR] + Decimal(|d|) + CRLF + d + CRLF
    case Array(NullArray) => NULL_ARRAY
    case Array(Items(items)) => [STAR] + Decimal(|items|) + CRLF + EncodeAll(items)
  }

  /** The encodings of `items`, concatenated in order. */
  function EncodeAll(items: seq<ResponseValue>): (r: Bytes)
  {
    if items == [] then [] else Encode(items[0]) + EncodeAll(items[1..])
  }

  /** The type byte RESP2 assigns to each kind of value. */
  function Tag(v: ResponseValue): byte
  {
    match v
    case SimpleString(_) => PLUS
    case Error(_) => MINUS
    case Integer(_) => COLON
    case BulkString(_) => DOLLAR
    case Array(_) => STAR
  }

  predicate EndsWithCrlf(b: Bytes)
  {
    |b| >= 2 && b[|b| - 2..] == CRLF
  }

  /** Every encoding starts with its kind's type byte and ends with CRLF. */
  lemma {:induction false} EncodeFraming(v: ResponseValue)
    ensures |Encode(v)| >= 3
    ensures Encode(v)[0] == Tag(v)
    ensures EndsWithCrlf(Encode(v))
    decreases v, 1
  {
    match v
    case Array(Items(items)) =>
      if items != [] {
        EncodeAllEndsWithCrlf(items);
      }
    case _ =>
  }

  lemma {:induction false} EncodeAllEndsWithCrlf(items: seq<ResponseValue>)
    requires items != []
    ensures EndsWithCrlf(EncodeAll(items))
    decreases items, 0
  {
    EncodeFraming(items[0]);
    if items[1..] != [] {
      EncodeAllEndsWithCrlf(items[1..]);
    }
  }

  /** The kind of a value can be read off the first byte of its encoding. */
  lemma EncodeTagDeterminesKind(v: ResponseValue, w: ResponseValue)
    requires Encode(v)[0] == Encode(w)[0]
    ensures Tag(v) == Tag(w)
  {
    EncodeFraming(v);
    EncodeFraming(w);
  }

  /** Appending one more item appends its encoding. */
  lemma {:induction false} EncodeAllSnoc(items: seq<ResponseValue>, x: ResponseValue)
    ensures EncodeAll(items + [x]) == EncodeAll(items) + Encode(x)
  {
    if items == [] {
      assert [x][1..] == [];
    } else {
      assert (items + [x])[1..] == items[1..] + [x];
      EncodeAllSnoc(items[1..], x);
    }
  }

  /** The growable output buffer (`BytesMut`) that `serialize` writes into. */
  class WriteBuffer {
    var data: Bytes

    constructor ()
      ensures data == []
    {
      data := [];
    }

    /** `put_slice`: append bytes at the end. */
    method PutSlice(b: Bytes)
      modifies this
      ensures data == old(data) + b
    {
      data := data + b;
    }

    /** `clear`: drop the contents. */
    method Clear()
      modifies this
      ensures data == []
    {
      data := [];
    }
  }

  /** `ResponseValue::serialize`: appends the encoding of `v` to `dst`, never touching what is already there. */
  method Serialize(v: ResponseValue, dst: WriteBuffer)
    modifies dst
    ensures dst.data == old(dst.data) + Encode(v)
    decreases v, 2
  {
    match v
    case SimpleString(s) => SerializeLine(PLUS, s, dst);
    case Error(m) => SerializeLine(MINUS, m, dst);
    case Integer(i) => SerializeLine(COLON, IntegerText(i), dst);
    case BulkString(None) => dst.PutSlice(NULL_BULK);
    case BulkString(Some(d)) => SerializeBulk(d, dst);
    case Array(NullArray) => dst.PutSlice(NULL_ARRAY);
    case Array(Items(items)) => SerializeArray(items, dst);
  }

  /** The arms for simple strings, errors and integers: type byte, text, CRLF. */
  method SerializeLine(tag: byte, text: Bytes, dst: WriteBuffer)
    modifies dst
    ensures dst.data == old(dst.data) + ([tag] + text + CRLF)
  {
    dst.PutSlice([tag]);
    dst.PutSlice(text);
    dst.PutSlice(CRLF);
    assert dst.data == old(dst.data) + ([tag] + text + CRLF);
  }

  /** The arm for a non-null bulk string: '$', the length, CRLF, the data, CRLF. */
  method SerializeBulk(d: Bytes, dst: WriteBuffer)
    modifies dst
    ensures dst.data == old(dst.data) + ([DOLLAR] + Decimal(|d|) + CRLF + d + CRLF)
  {
    dst.PutSlice([DOLLAR]);
    dst.PutSlice(Decimal(|d|));
    dst.PutSlice(CRLF);
    dst.PutSlice(d);
    dst.PutSlice(CRLF);
    assert dst.data == old(dst.data) + ([DOLLAR] + Decimal(|d|) + CRLF + d + CRLF);
  }

  /** The arm for a non-null array: '*', the item count, CRLF, then every item. */
  method SerializeArray(items: seq<ResponseValue>, dst: WriteBuffer)
    modifies dst
    ensures dst.data == old(dst.data) + ([STAR] + Decimal(|items|) + CRLF + EncodeAll(items))
    decreases items, 1
  {
    dst.PutSlice([STAR]);
    dst.PutSlice(Decimal(|items|));
    dst.PutSlice(CRLF);
    SerializeItems(items, dst);
    assert dst.data == old(dst.data) + ([STAR] + Decimal(|items|) + CRLF + EncodeAll(items));
  }

  /** The loop of `serialize` over an array's items: each item's encoding, in order. */
  method SerializeItems(items: seq<ResponseValue>, dst: WriteBuffer)
    modifies dst
    ensures dst.data == old(dst.data) + EncodeAll(items)
    decreases items, 0
  {
    var k := 0;
    while k < |items|
      invariant 0 <= k <= |items|
      invariant dst.data == old(dst.data) + EncodeAll(items[..k])
    {
      Serialize(items[k], dst);
      assert items[..k + 1] == items[..k] + [items[k]];
      EncodeAllSnoc(items[..k], items[k]);
      k := k + 1;
    }
    assert items[..k] == items;
  }
}
