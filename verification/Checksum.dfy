/** The Internet checksum: the Java version that folds once, and jpcap's two
    C versions that fold twice over words in host byte order. */
module Checksum {
  import opened Bytes

  // ---------- Reference definition (section 1 and 2 of RFC 1071) ----------

  /** One's complement addition of 16-bit words: the carry goes around the end. */
  function OnesAdd(a: nat, b: nat): (r: nat)
    requires a < 65536 && b < 65536
    ensures r < 65536
  {
    if a + b > 65535 then a + b - 65535 else a + b
  }

  function FirstWord(s: seq<byte>): (r: nat)
    requires s != []
    ensures r < 65536
  {
    if |s| == 1 then s[0] * 256 else WordAt(s, 0)
  }

  function Rest(s: seq<byte>): (r: seq<byte>)
    requires s != []
    ensures |r| < |s|
  {
    if |s| == 1 then [] else s[2..]
  }

  function OnesSum(s: seq<byte>): (r: nat)
    ensures r < 65536
    decreases |s|
  {
    if s == [] then 0 else OnesAdd(FirstWord(s), OnesSum(Rest(s)))
  }

  function Rfc1071(s: seq<byte>): (r: nat)
    ensures r < 65536
  {
    65535 - OnesSum(s)
  }

  // ---------- The plain sum of words, and folding ----------

  function WordSum(s: seq<byte>): nat
    decreases |s|
  {
    if s == [] then 0 else FirstWord(s) + WordSum(Rest(s))
  }

  /** The representative of n modulo 65535 that one's complement addition picks. */
  function Residue(n: nat): (r: nat)
    ensures r < 65536 && (r == 0 <==> n == 0)
  {
    if n == 0 then 0 else (n - 1) % 65535 + 1
  }

  function Fold(n: nat): nat {
    n % 65536 + n / 65536
  }

  /** What the last line of `Utility.checksum` makes of the accumulated sum. */
  function FoldOnce(sum: nat): (r: nat)
    ensures r < 65536
  {
    65535 - Fold(sum) % 65536
  }

  lemma ResidueIs(n: nat, q: int, r: nat)
    requires n > 0 && n == 65535 * q + r && 1 <= r <= 65535
    ensures Residue(n) == r
  {
    var k := q - (n - 1) / 65535;
    assert 65535 * k == (n - 1) % 65535 - (r - 1);
    assert k == 0;
  }

  /** n is a multiple of 65535 above its residue. */
  lemma ResidueQuotient(n: nat) returns (q: nat)
    ensures n == 65535 * q + Residue(n)
  {
    q := if n == 0 then 0 else (n - 1) / 65535;
  }

  lemma ResidueAdd(a: nat, n: nat)
    requires a < 65536
    ensures Residue(a + n) == OnesAdd(a, Residue(n))
  {
    var q := ResidueQuotient(n);
    var r := a + Residue(n);
    if r > 65535 {
      ResidueIs(a + n, q + 1, r - 65535);
    } else if r > 0 {
      ResidueIs(a + n, q, r);
    }
  }

  lemma {:induction false} OnesSumIsResidue(s: seq<byte>)
    ensures OnesSum(s) == Residue(WordSum(s))
    decreases |s|
  {
    if s != [] {
      OnesSumIsResidue(Rest(s));
      ResidueAdd(FirstWord(s), WordSum(Rest(s)));
    }
  }

  lemma {:induction false} WordSumBound(s: seq<byte>)
    ensures 2 * WordSum(s) <= 65535 * (|s| + 1)
    decreases |s|
  {
    if s != [] {
      WordSumBound(Rest(s));
    }
  }

  /** Folding keeps the residue. */
  lemma FoldResidue(n: nat)
    ensures n == 65535 * (n / 65536) + Fold(n)
    ensures Residue(Fold(n)) == Residue(n)
  {
    var q := ResidueQuotient(Fold(n));
    if n > 0 {
      ResidueIs(n, q + n / 65536, Residue(Fold(n)));
    }
  }

  // ---------- src/utils/Utility.java ----------

  /** `Utility.checksum`: two bytes a turn, a lone last byte taken as a high byte. */
  method ChecksumJava(buf: array<byte>, length: int) returns (r: nat)
    requires length <= buf.Length
    ensures r == FoldOnce(WordSum(buf[..Max(length, 0)]))
  {
    var n := Max(length, 0);
    var i: int, sum: int, left: int := 0, 0, length;
    while left > 0
      invariant 0 <= i <= n && i + Max(left, 0) == n
      invariant sum >= 0 && sum + WordSum(buf[i..n]) == WordSum(buf[..n])
    {
      assert Rest(buf[i..n]) == if left == 1 then [] else buf[i + 2..n];
      sum := sum + (buf[i] as int) * 256;
      i := i + 1;
      left := left - 1;
      if left == 0 {
        break;
      }
      sum := sum + buf[i];
      i := i + 1;
      left := left - 1;
    }
    assert sum == WordSum(buf[..n]);
    r := 65535 - (sum % 65536 + sum / 65536) % 65536;
  }

  /** A carry out of the fold splits into its own high and low part. */
  lemma FoldCarry(sum: nat, k: nat, m: nat)
    requires Fold(sum) == 65536 * k + m && m < 65536
    requires 1 <= k < 65535
    ensures Residue(sum) == if k + m > 65535 then k + m - 65535 else k + m
  {
    FoldResidue(sum);
    var q := sum / 65536;
    if k + m > 65535 {
      ResidueIs(sum, q + k + 1, k + m - 65535);
    } else {
      ResidueIs(sum, q + k, k + m);
    }
  }

  lemma FoldOnceExact(sum: nat)
    requires sum < 65536 * 0x4000_0000
    ensures FoldOnce(sum) == 65535 - Residue(sum) <==> Fold(sum) <= 65535
    ensures Fold(sum) > 65535 && sum <= 65535 * 65536 ==> FoldOnce(sum) == 65536 - Residue(sum)
  {
    var f := Fold(sum);
    if f > 65535 {
      var k, m := f / 65536, f % 65536;
      assert 1 <= k < 65535;
      FoldCarry(sum, k, m);
    } else {
      FoldResidue(sum);
      if f > 0 {
        ResidueIs(f, 0, f);
      }
    }
  }

  /** The single fold is right exactly when it does not carry out of 16 bits.
      Java arrays have fewer than 2^31 elements, so this covers every buffer. */
  lemma JavaChecksumExact(s: seq<byte>)
    requires |s| < 0x8000_0000
    ensures FoldOnce(WordSum(s)) == Rfc1071(s) <==> Fold(WordSum(s)) <= 65535
    ensures Fold(WordSum(s)) > 65535 && |s| < 131072 ==> FoldOnce(WordSum(s)) == Rfc1071(s) + 1
  {
    OnesSumIsResidue(s);
    WordSumBound(s);
    FoldOnceExact(WordSum(s));
  }

  /** An input on which the fold carries, so the Java value is one too large. */
  lemma JavaChecksumCarries()
    ensures var s: seq<byte> := [255, 255, 255, 255, 0, 1];
            Fold(WordSum(s)) > 65535 && FoldOnce(WordSum(s)) == Rfc1071(s) + 1
  {
    var s: seq<byte> := [255, 255, 255, 255, 0, 1];
    assert Rest(s) == [255, 255, 0, 1];
    assert Rest(Rest(s)) == [0, 1];
    assert Rest(Rest(Rest(s))) == [];
    assert WordSum([0, 1]) == 1;
    assert WordSum([255, 255, 0, 1]) == 65536;
    assert WordSum(s) == 131071;
    JavaChecksumExact(s);
  }

  /** The buffer after `putShort(k, value)`. */
  function Patch(s: seq<byte>, k: nat, value: nat): (r: seq<byte>)
    requires k + 2 <= |s|
    ensures |r| == |s|
  {
    s[..k] + Be16(value) + s[k + 2..]
  }

  lemma PatchKeeps(s: seq<byte>, k: nat, value: nat)
    requires k + 2 <= |s|
    ensures Patch(s, k, value)[..k] == s[..k] && Patch(s, k, value)[k + 2..] == s[k + 2..]
  {
  }

  lemma {:induction false} WordSumPatch(s: seq<byte>, k: nat, value: nat)
    requires k % 2 == 0 && k + 2 <= |s| && value < 65536 && s[k] == 0 && s[k + 1] == 0
    ensures WordSum(Patch(s, k, value)) == WordSum(s) + value
    decreases |s|
  {
    var p := Patch(s, k, value);
    if k == 0 {
      assert FirstWord(s) == 0;
      assert FirstWord(p) == value by {
        assert p[..2] == Be16(value);
      }
      assert Rest(p) == Rest(s);
    } else {
      WordSumPatch(Rest(s), k - 2, value);
      PatchBehind(s, k, value);
    }
  }

  lemma PatchBehind(s: seq<byte>, k: nat, value: nat)
    requires 2 <= k && k + 2 <= |s|
    ensures FirstWord(Patch(s, k, value)) == FirstWord(s)
    ensures Rest(Patch(s, k, value)) == Patch(Rest(s), k - 2, value)
  {
    hide Be16;
  }

  /** The sum once the one-fold checksum has been added to it. */
  lemma FoldOnceCompletes(sum: nat)
    requires sum <= 65535 * 65536
    ensures Residue(sum + FoldOnce(sum)) == 65535 <==> Fold(sum) <= 65535
  {
    var f := Fold(sum);
    FoldResidue(sum);
    var q := sum / 65536;
    if f <= 65535 {
      ResidueIs(sum + FoldOnce(sum), q, 65535);
    } else {
      assert f / 65536 == 1;
      ResidueIs(sum + FoldOnce(sum), q + 2, 1);
    }
  }

  /** A receiver accepts a buffer when its one's complement sum is all ones.
      Writing the Java checksum over a zeroed field makes it so exactly when the
      single fold did not carry. */
  lemma JavaChecksumValid(s: seq<byte>, k: nat)
    requires |s| < 131072
    requires k % 2 == 0 && k + 2 <= |s| && s[k] == 0 && s[k + 1] == 0
    ensures OnesSum(Patch(s, k, FoldOnce(WordSum(s)))) == 65535 <==> Fold(WordSum(s)) <= 65535
  {
    hide *;
    PatchOnesSum(s, k, FoldOnce(WordSum(s)));
    WordSumLimit(s);
    FoldOnceCompletes(WordSum(s));
  }

  lemma WordSumLimit(s: seq<byte>)
    requires |s| < 131072
    ensures WordSum(s) <= 65535 * 65536
  {
    WordSumBound(s);
  }

  lemma PatchOnesSum(s: seq<byte>, k: nat, v: nat)
    requires k % 2 == 0 && k + 2 <= |s| && v < 65536 && s[k] == 0 && s[k + 1] == 0
    ensures OnesSum(Patch(s, k, v)) == Residue(WordSum(s) + v)
  {
    hide *;
    WordSumPatch(s, k, v);
    OnesSumIsResidue(Patch(s, k, v));
  }

  // ---------- api/jpcap/Jpcap-master/src/main/c/JpcapSender.c ----------

  datatype ByteOrder = BigEndian | LittleEndian

  /** The u_short that lies at two consecutive bytes of memory. */
  function HostWord(o: ByteOrder, b0: byte, b1: byte): (r: nat)
    ensures r < 65536
  {
    if o.BigEndian? then b0 * 256 + b1 else b1 * 256 + b0
  }

  /** The two bytes a u_short is stored as. */
  function Stored(o: ByteOrder, w: nat): (r: seq<byte>)
    requires w < 65536
    ensures |r| == 2 && HostWord(o, r[0], r[1]) == w
  {
    if o.BigEndian? then [w / 256, w % 256] else [w % 256, w / 256]
  }

  /** The sum of host words over s, where a lone last byte contributes `tail`. */
  function HostSum(o: ByteOrder, s: seq<byte>, tail: nat): nat {
    if s == [] then 0
    else if |s| == 1 then tail
    else HostWord(o, s[0], s[1]) + HostSum(o, s[2..], tail)
  }

  /** What a lone last byte must contribute for section 1 of RFC 1071. */
  function RightTail(o: ByteOrder, s: seq<byte>): nat {
    if |s| % 2 == 0 then 0
    else if o.BigEndian? then (s[|s| - 1] as int) * 256
    else s[|s| - 1]
  }

  function HighSum(s: seq<byte>): nat
    decreases |s|
  {
    if s == [] then 0 else s[0] as int + HighSum(Rest(s))
  }

  /** Byte-order independence, summed: each little-endian word is 256 times the
      big-endian one modulo 65535. */
  lemma {:induction false} HostSumSwaps(s: seq<byte>)
    ensures HostSum(BigEndian, s, RightTail(BigEndian, s)) == WordSum(s)
    ensures HostSum(LittleEndian, s, RightTail(LittleEndian, s)) + 65535 * HighSum(s) == 256 * WordSum(s)
    ensures HostSum(LittleEndian, s, RightTail(LittleEndian, s)) == 0 ==> WordSum(s) == 0
  {
    if |s| > 1 {
      HostSumSwaps(s[2..]);
    } else if |s| == 1 {
      assert WordSum(Rest(s)) == 0 && HighSum(Rest(s)) == 0;
    }
  }

  lemma {:induction false} HostSumTail(o: ByteOrder, s: seq<byte>, t: nat, u: nat)
    ensures HostSum(o, s, t) + (if |s| % 2 == 1 then u else 0) == HostSum(o, s, u) + (if |s| % 2 == 1 then t else 0)
  {
    if |s| > 1 {
      HostSumTail(o, s[2..], t, u);
    }
  }

  lemma {:induction false} HostSumBound(o: ByteOrder, s: seq<byte>, tail: nat)
    requires tail < 65536
    ensures 2 * HostSum(o, s, tail) <= 65535 * (|s| + 1)
  {
    if |s| > 1 {
      HostSumBound(o, s[2..], tail);
    }
  }

  lemma {:induction false} HostSumConcat(o: ByteOrder, a: seq<byte>, b: seq<byte>, tail: nat)
    requires |a| % 2 == 0
    ensures HostSum(o, a + b, tail) == HostSum(o, a, 0) + HostSum(o, b, tail)
  {
    if a == [] {
      assert a + b == b;
    } else {
      assert (a + b)[2..] == a[2..] + b;
      HostSumConcat(o, a[2..], b, tail);
    }
  }

  /** Two folds reach the residue. */
  lemma FoldTwice(sum: nat)
    requires sum < 0x1_0000_0000
    ensures Fold(Fold(sum)) == Residue(sum)
  {
    FoldResidue(sum);
    FoldResidue(Fold(sum));
    var f := Fold(Fold(sum));
    assert Fold(sum) <= 131070;
    assert f <= 65535;
    if f > 0 {
      ResidueIs(f, 0, f);
    }
  }

  /** 256 times a word is its byte swap modulo 65535, so residues swap. */
  lemma SwapResidue(b: nat, l: nat, h: nat)
    requires l + 65535 * h == 256 * b
    requires l == 0 ==> b == 0
    ensures Residue(l) == Residue(b) % 256 * 256 + Residue(b) / 256
  {
    var r := Residue(b);
    var q := ResidueQuotient(b);
    var swapped := r % 256 * 256 + r / 256;
    assert 256 * r == swapped + 65535 * (r / 256);
    if b > 0 {
      ResidueIs(l, 256 * q - h + r / 256, swapped);
    }
  }

  /** Sums that differ by less than 65535 share a residue only when they are equal. */
  lemma ResidueSeparates(x: nat, y: nat)
    requires -65535 < x - y < 65535
    requires Residue(x) == Residue(y)
    ensures x == y
  {
    var q := ResidueQuotient(x);
    var p := ResidueQuotient(y);
    assert x - y == 65535 * (q - p);
  }

  /** What both C functions make of the words of s when a lone last byte adds `tail`. */
  function HostResult(o: ByteOrder, s: seq<byte>, tail: nat): (r: nat)
    ensures r < 65536
  {
    65535 - Residue(HostSum(o, s, tail))
  }

  /** The right host-order sum, stored back in host order. */
  lemma HostChecksumRight(o: ByteOrder, s: seq<byte>)
    ensures Checks(o, s, HostResult(o, s, RightTail(o, s)))
  {
    var right := HostSum(o, s, RightTail(o, s));
    HostSumSwaps(s);
    OnesSumIsResidue(s);
    if o.LittleEndian? {
      SwapResidue(WordSum(s), right, HighSum(s));
    }
    StoredComplement(o, Residue(right), Residue(WordSum(s)));
  }

  /** The u_short r, stored in host order, is the RFC 1071 checksum of s in network order. */
  predicate Checks(o: ByteOrder, s: seq<byte>, r: nat)
    requires r < 65536
  {
    Stored(o, r) == Be16(Rfc1071(s))
  }

  /** The two folds of a host-order sum, stored back in host order, are the bytes
      of the big-endian checksum exactly when the lone byte was added in its right place. */
  lemma HostChecksum(o: ByteOrder, s: seq<byte>, tail: nat)
    requires tail < 65536
    requires |s| % 2 == 1 ==> -65535 < tail - RightTail(o, s) < 65535
    ensures Checks(o, s, HostResult(o, s, tail)) <==> |s| % 2 == 0 || tail == RightTail(o, s)
  {
    var right := HostSum(o, s, RightTail(o, s));
    var x := HostSum(o, s, tail);
    HostChecksumRight(o, s);
    HostSumTail(o, s, tail, RightTail(o, s));
    if Residue(x) == Residue(right) {
      ResidueSeparates(x, right);
    } else {
      StoredInjective(o, 65535 - Residue(x), 65535 - Residue(right));
    }
  }

  lemma StoredComplement(o: ByteOrder, h: nat, b: nat)
    requires h < 65536 && b < 65536
    requires h == if o.BigEndian? then b else b % 256 * 256 + b / 256
    ensures Stored(o, 65535 - h) == Be16(65535 - b)
  {
    var hi, lo := b / 256, b % 256;
    assert 65535 - b == (255 - hi) * 256 + (255 - lo);
    if o.LittleEndian? {
      assert 65535 - h == (255 - lo) * 256 + (255 - hi);
    }
  }

  lemma StoredInjective(o: ByteOrder, v: nat, w: nat)
    requires v < 65536 && w < 65536 && v != w
    ensures Stored(o, v) != Stored(o, w)
  {
    var a, b := Stored(o, v), Stored(o, w);
    assert HostWord(o, a[0], a[1]) != HostWord(o, b[0], b[1]);
  }

  /** The shared last lines of both C functions: two folds, cast and complement. */
  method ComplementTwice(total: nat) returns (r: nat)
    requires total < 0x1_0000_0000
    ensures r == 65535 - Residue(total)
  {
    FoldTwice(total);
    var sum := total % 65536 + total / 65536;
    r := 65535 - (sum / 65536 + sum % 65536) % 65536;
  }

  /** The loop of both C functions: whole words are added, a lone byte is left over. */
  method AddHostWords(o: ByteOrder, mem: array<byte>, start: nat, size: nat, sum0: nat, ghost tail: nat)
    returns (sum: nat)
    requires start + size <= mem.Length
    ensures sum + (if size % 2 == 1 then tail else 0) == sum0 + HostSum(o, mem[start..start + size], tail)
  {
    var p: nat, left: nat := start, size;
    sum := sum0;
    while left > 1
      invariant p + left == start + size && left % 2 == size % 2
      invariant sum + HostSum(o, mem[p..p + left], tail) == sum0 + HostSum(o, mem[start..start + size], tail)
    {
      assert mem[p..p + left][2..] == mem[p + 2..p + left];
      sum := sum + HostWord(o, mem[p], mem[p + 1]);
      p, left := p + 2, left - 2;
    }
  }

  /** The 0xff00 half of the word at the lone byte and the byte after it. */
  function OddTail(o: ByteOrder, last: byte, next: byte): (r: nat)
    ensures r < 65536
  {
    (if o.BigEndian? then last else next) as int * 256
  }

  /** What `in_cksum` adds for a lone last byte, with the byte behind the buffer. */
  function OverRead(o: ByteOrder, s: seq<byte>, next: byte): (r: nat)
    ensures r < 65536
  {
    if |s| % 2 == 1 then OddTail(o, s[|s| - 1], next) else 0
  }

  /** What `in_cksum2` adds for it. */
  function LowTail(s: seq<byte>): (r: nat)
    ensures r < 65536
  {
    if |s| % 2 == 1 then s[|s| - 1] else 0
  }

  /** The over-reading odd turn, judged. */
  lemma OddTailChecks(o: ByteOrder, s: seq<byte>, next: byte, tail: nat)
    requires |s| <= 131000
    requires tail == OverRead(o, s, next)
    ensures HostSum(o, s, tail) < 0x1_0000_0000
    ensures Checks(o, s, HostResult(o, s, tail))
       <==> |s| % 2 == 0 || o.BigEndian? || (s[|s| - 1] == 0 && next == 0)
  {
    HostSumBound(o, s, tail);
    if |s| % 2 == 1 {
      OddTailRight(o, s, next);
    }
    HostChecksum(o, s, tail);
  }

  lemma OddTailRight(o: ByteOrder, s: seq<byte>, next: byte)
    requires |s| % 2 == 1
    ensures -65535 < OddTail(o, s[|s| - 1], next) - RightTail(o, s) < 65535
    ensures OddTail(o, s[|s| - 1], next) == RightTail(o, s) <==> o.BigEndian? || (s[|s| - 1] == 0 && next == 0)
  {
  }

  lemma LowTailRight(o: ByteOrder, s: seq<byte>)
    requires |s| % 2 == 1
    ensures -65535 < s[|s| - 1] as int - RightTail(o, s) < 65535
    ensures s[|s| - 1] as int == RightTail(o, s) <==> o.LittleEndian? || s[|s| - 1] == 0
  {
  }

  /** `in_cksum` on the bytes mem[start..start + size]. On an odd size the last turn
      loads a word that reaches one byte further and keeps its 0xff00 half. It yields
      the RFC 1071 checksum exactly when that half is the byte it should be. The sum
      stays below 2^32, as the C type needs, up to the size required here. */
  method InCksum(o: ByteOrder, mem: array<byte>, start: nat, size: nat) returns (r: nat)
    requires size <= 131000
    requires start + size + size % 2 <= mem.Length
    ensures var s := mem[start..start + size];
            r == HostResult(o, s, OverRead(o, s, if size % 2 == 1 then mem[start + size] else 0))
    ensures r < 65536
    ensures Checks(o, mem[start..start + size], r)
       <==> size % 2 == 0 || o.BigEndian? || (mem[start + size - 1] == 0 && mem[start + size] == 0)
  {
    ghost var s := mem[start..start + size];
    ghost var next: byte := if size % 2 == 1 then mem[start + size] else 0;
    OddTailChecks(o, s, next, OverRead(o, s, next));
    hide Checks, HostSum, Residue;
    var tail: nat := 0;
    if size % 2 > 0 {
      tail := OddTail(o, mem[start + size - 1], mem[start + size]);
    }
    assert tail == OverRead(o, s, next);
    hide OddTail, OverRead;
    var sum := AddHostWords(o, mem, start, size, 0, tail);
    sum := sum + tail;
    r := ComplementTwice(sum);
  }

  /** A single byte that a little-endian host gets wrong: its word is never added. */
  lemma InCksumMissesByte(s: seq<byte>, r: nat)
    requires s == [1] && r == HostResult(LittleEndian, s, OverRead(LittleEndian, s, 0))
    ensures r == 65535 && !Checks(LittleEndian, s, r)
  {
    OddTailChecks(LittleEndian, s, 0, OverRead(LittleEndian, s, 0));
  }

  /** The bytes that `in_cksum2` covers: the pseudo header, then the data. `len` is the
      length field as its callers pass it, already in network order. */
  function PseudoHeader(o: ByteOrder, addresses: seq<byte>, protocol: byte, len: nat): (r: seq<byte>)
    requires |addresses| == 8 && len < 65536
    ensures |r| == 12
  {
    addresses + [0, protocol] + Stored(o, len)
  }

  /** `in_cksum2`: here the lone last byte is added as a low byte. That is the RFC 1071
      checksum of pseudo header and data exactly for even sizes, on little-endian hosts,
      or when that byte is zero. */
  method InCksum2(o: ByteOrder, addresses: seq<byte>, protocol: byte, len: nat,
                  mem: array<byte>, start: nat, size: nat) returns (r: nat)
    requires |addresses| == 8 && len < 65536 && size <= 131000
    requires start + size <= mem.Length
    ensures var s := PseudoHeader(o, addresses, protocol, len) + mem[start..start + size];
            r == HostResult(o, s, LowTail(s))
    ensures r < 65536
    ensures Checks(o, PseudoHeader(o, addresses, protocol, len) + mem[start..start + size], r)
       <==> size % 2 == 0 || o.LittleEndian? || mem[start + size - 1] == 0
  {
    ghost var head := PseudoHeader(o, addresses, protocol, len);
    ghost var s := head + mem[start..start + size];
    LowTailChecks(o, s, LowTail(s));
    hide Checks, Residue, PseudoHeader;
    var sum := AddPseudoHeader(o, addresses, protocol, len);
    var tail: nat := 0;
    if size % 2 > 0 {
      tail := mem[start + size - 1] as int;
    }
    assert tail == LowTail(s);
    hide HostSum, LowTail;
    sum := AddHostWords(o, mem, start, size, sum, tail);
    sum := sum + tail;
    HostSumConcat(o, head, mem[start..start + size], tail);
    r := ComplementTwice(sum);
  }

  /** One byte of data that a big-endian host gets wrong, for any pseudo header. */
  lemma InCksum2SwapsByte(addresses: seq<byte>, protocol: byte, len: nat)
    requires |addresses| == 8 && len < 65536
    ensures var s := PseudoHeader(BigEndian, addresses, protocol, len) + [1];
            !Checks(BigEndian, s, HostResult(BigEndian, s, LowTail(s)))
  {
    var s := PseudoHeader(BigEndian, addresses, protocol, len) + [1];
    LowTailChecks(BigEndian, s, LowTail(s));
  }

  method AddPseudoHeader(o: ByteOrder, addresses: seq<byte>, protocol: byte, len: nat) returns (sum: nat)
    requires |addresses| == 8 && len < 65536
    ensures sum == HostSum(o, PseudoHeader(o, addresses, protocol, len), 0)
  {
    sum := HostWord(o, addresses[0], addresses[1]) + HostWord(o, addresses[2], addresses[3]);
    sum := sum + HostWord(o, addresses[4], addresses[5]) + HostWord(o, addresses[6], addresses[7]);
    sum := sum + HostWord(o, 0, protocol) + len;
    PseudoHeaderSum(o, addresses, protocol, len);
  }

  /** The odd turn of `in_cksum2`, judged. */
  lemma LowTailChecks(o: ByteOrder, s: seq<byte>, tail: nat)
    requires |s| <= 131072
    requires tail == LowTail(s)
    ensures HostSum(o, s, tail) < 0x1_0000_0000
    ensures Checks(o, s, HostResult(o, s, tail))
       <==> |s| % 2 == 0 || o.LittleEndian? || s[|s| - 1] == 0
  {
    HostSumBound(o, s, tail);
    if |s| % 2 == 1 {
      LowTailRight(o, s);
    }
    HostChecksum(o, s, tail);
  }

  lemma PseudoHeaderSum(o: ByteOrder, a: seq<byte>, protocol: byte, len: nat)
    requires |a| == 8 && len < 65536
    ensures HostSum(o, PseudoHeader(o, a, protocol, len), 0)
         == HostWord(o, a[0], a[1]) + HostWord(o, a[2], a[3]) + HostWord(o, a[4], a[5])
          + HostWord(o, a[6], a[7]) + HostWord(o, 0, protocol) + len
  {
    var w := Stored(o, len);
    var h := PseudoHeader(o, a, protocol, len);
    assert h[2..] == a[2..] + [0, protocol] + w;
    assert h[2..][2..] == a[4..] + [0, protocol] + w;
    assert h[2..][2..][2..] == a[6..] + [0, protocol] + w;
    assert h[2..][2..][2..][2..] == [0, protocol] + w;
    assert h[2..][2..][2..][2..][2..] == w;
    assert w[2..] == [];
    assert HostSum(o, w, 0) == len;
    assert HostSum(o, h[2..][2..], 0)
        == HostWord(o, a[4], a[5]) + HostWord(o, a[6], a[7]) + HostWord(o, 0, protocol) + len by {
      assert HostSum(o, h[2..][2..][2..][2..], 0) == HostWord(o, 0, protocol) + len;
    }
  }
}
