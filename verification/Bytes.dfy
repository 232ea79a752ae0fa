/** Bytes, the narrowing casts of Java and C, and big-endian fields. */
module Bytes {

  /** A byte as it sits on the wire. Java and C read it as signed through AsSigned8. */
  type byte = b: int | 0 <= b < 256

  datatype Option<+T> = None | Some(value: T)

  /** The value of a Java `byte` holding this bit pattern. */
  function AsSigned8(b: byte): (r: int)
    ensures -128 <= r < 128 && r % 256 == b
  {
    if b < 128 then b else b - 256
  }

  /** The cast `(short) n`. */
  function Short(n: int): (r: int)
    ensures -32768 <= r < 32768 && r % 65536 == n % 65536
    ensures -32768 <= n < 32768 ==> r == n
  {
    (n + 32768) % 65536 - 32768
  }

  lemma ShortModulo(n: int)
    ensures Short(n % 65536) == Short(n)
  {
  }

  /** The cast `(char) n` or `(u_short) n`. */
  function Unsigned16(n: int): (r: nat)
    ensures r < 65536
  {
    n % 65536
  }

  /** The 16-bit big-endian field at i, unsigned. */
  function WordAt(s: seq<byte>, i: nat): (r: nat)
    requires i + 2 <= |s|
    ensures r < 65536
  {
    s[i] as int * 256 + s[i + 1] as int
  }

  /** The two big-endian bytes that putShort or putChar writes for n. */
  function Be16(n: int): (r: seq<byte>)
    ensures |r| == 2 && WordAt(r, 0) == n % 65536
    ensures 0 <= n < 65536 ==> WordAt(r, 0) == n
  {
    [n / 256 % 256, n % 256]
  }

  /** The 32-bit big-endian field at i, unsigned. */
  function DwordAt(s: seq<byte>, i: nat): nat
    requires i + 4 <= |s|
  {
    WordAt(s, i) * 65536 + WordAt(s, i + 2)
  }

  /** The four big-endian bytes that putInt writes for n. */
  function Be32(n: int): (r: seq<byte>)
    ensures |r| == 4
  {
    Be16(n / 65536) + Be16(n)
  }

  lemma Be32Value(n: int)
    ensures DwordAt(Be32(n), 0) == n % 0x1_0000_0000
  {
    assert n / 65536 % 65536 * 65536 + n % 65536 == n % 0x1_0000_0000;
  }

  /** The bytes s stand in msg at pos. */
  predicate At(msg: seq<byte>, pos: nat, s: seq<byte>) {
    pos + |s| <= |msg| && msg[pos..pos + |s|] == s
  }

  lemma AtSplit(msg: seq<byte>, pos: nat, a: seq<byte>, b: seq<byte>)
    requires At(msg, pos, a + b)
    ensures At(msg, pos, a) && At(msg, pos + |a|, b)
  {
    var m := msg[pos..pos + |a| + |b|];
    assert m[..|a|] == a && m[|a|..] == b;
  }

  lemma AtByte(msg: seq<byte>, pos: nat, b: byte)
    requires At(msg, pos, [b])
    ensures pos < |msg| && msg[pos] == b
  {
    assert msg[pos] == msg[pos..pos + 1][0];
  }

  lemma AtWord(msg: seq<byte>, pos: nat, n: int)
    requires At(msg, pos, Be16(n))
    ensures pos + 2 <= |msg| && WordAt(msg, pos) == n % 65536
  {
    var m := msg[pos..pos + 2];
    assert msg[pos] == m[0] && msg[pos + 1] == m[1];
  }

  type IpAddress = s: seq<byte> | |s| == 4 witness [0, 0, 0, 0]

  type MacAddress = s: seq<byte> | |s| == 6 witness [0, 0, 0, 0, 0, 0]

  function Zeros(n: nat): (r: seq<byte>)
    ensures |r| == n && forall i :: 0 <= i < n ==> r[i] == 0
  {
    seq(n, _ => 0)
  }

  function Min(a: int, b: int): int {
    if a < b then a else b
  }

  function Max(a: int, b: int): int {
    if a < b then b else a
  }
}
