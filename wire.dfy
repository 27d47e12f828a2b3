/** Shared vocabulary: optional values, bytes and byte strings, ASCII case. */
module Wire {

  datatype Option<+T> = None | Some(value: T)

  /** One octet, as carried by `Bytes`/`BytesMut` in the server. */
  newtype byte = b: int | 0 <= b < 256

  type Bytes = seq<byte>

  const MIN_I64: int := -0x8000_0000_0000_0000
  const MAX_I64: int := 0x7FFF_FFFF_FFFF_FFFF
  /** Rust's `i64`. */
  type i64 = x: int | MIN_I64 <= x <= MAX_I64

  /** Byte string for an ASCII text constant (every constant used here is ASCII). */
  function Ascii(s: string): (r: Bytes)
    ensures |r| == |s|
    ensures forall i :: 0 <= i < |s| && (s[i] as int) < 256 ==> r[i] as int == s[i] as int
  {
    seq(|s|, i requires 0 <= i < |s| => (s[i] as int % 256) as byte)
  }

  /** ASCII upper-casing of one byte: a..z become A..Z, every other byte is kept. */
  function UpperByte(b: byte): (r: byte)
    ensures 'a' as int <= b as int <= 'z' as int ==> r as int == b as int - 32
    ensures !('a' as int <= b as int <= 'z' as int) ==> r == b
  {
    if 0x61 <= b <= 0x7A then b - 0x20 else b
  }

  function AsciiUpper(s: Bytes): (r: Bytes)
    ensures |r| == |s|
    ensures forall i :: 0 <= i < |s| ==> r[i] == UpperByte(s[i])
  {
    seq(|s|, i requires 0 <= i < |s| => UpperByte(s[i]))
  }

  /** `eq_ignore_ascii_case`: same length, and byte-wise equal once both are upper-cased. */
  predicate EqIgnoreAsciiCase(a: Bytes, b: Bytes)
  {
    |a| == |b| && forall i :: 0 <= i < |a| ==> UpperByte(a[i]) == UpperByte(b[i])
  }

  /** Matching a command by `eq_ignore_ascii_case` against an upper-case name is the
      same as upper-casing the command and comparing it exactly. */
  lemma EqIgnoreCaseIsUpperEq(cmd: Bytes, name: Bytes)
    requires AsciiUpper(name) == name
    ensures EqIgnoreAsciiCase(cmd, name) <==> AsciiUpper(cmd) == name
  {
    if EqIgnoreAsciiCase(cmd, name) {
      forall i | 0 <= i < |cmd| ensures AsciiUpper(cmd)[i] == name[i] {
        assert AsciiUpper(name)[i] == name[i];
      }
    }
    if AsciiUpper(cmd) == name {
      forall i | 0 <= i < |cmd| ensures UpperByte(cmd[i]) == UpperByte(name[i]) {
        assert UpperByte(UpperByte(cmd[i])) == UpperByte(cmd[i]);
      }
    }
  }
}
