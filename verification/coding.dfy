/**
 * coding.cpp, coding.h: little-endian fixed-width integers, varints (unsigned LEB128, section 7.6
 * of DWARF Version 5) and length-prefixed byte strings.
 *
 * A `const char*` into a buffer is an index into the buffer's bytes. Shifts are written as
 * multiplications and divisions by powers of two, and `x | 128` on a byte as `x % 128 + 128`.
 */
module Coding {
  import opened Options
  import opened Bits
  import opened Bytes
  import opened Sequences

  // ---------- Fixed width ----------

  function Fixed(v: nat, n: nat): (s: seq<byte>)
    ensures |s| == n
  {
    if n == 0 then [] else [v % 256] + Fixed(v / 256, n - 1)
  }

  function FixedValue(s: seq<byte>): nat {
    if s == [] then 0 else s[0] + 256 * FixedValue(s[1..])
  }

  function Pow256(n: nat): (p: nat)
    ensures p > 0
  {
    if n == 0 then 1 else 256 * Pow256(n - 1)
  }

  /** Decoding undoes encoding on every value that fits. */
  lemma {:induction false} FixedRoundTrip(v: nat, n: nat)
    requires v < Pow256(n)
    ensures FixedValue(Fixed(v, n)) == v
  {
    if n > 0 {
      FixedRoundTrip(v / 256, n - 1);
    }
  }

  /** Encoding undoes decoding on every byte string. */
  lemma {:induction false} FixedValueRoundTrip(s: seq<byte>)
    ensures FixedValue(s) < Pow256(|s|)
    ensures Fixed(FixedValue(s), |s|) == s
  {
    if s != [] {
      FixedValueRoundTrip(s[1..]);
      assert FixedValue(s) / 256 == FixedValue(s[1..]);
    }
  }

  lemma Pow256Of4And8()
    ensures Pow256(4) == 0x1_0000_0000 && Pow256(8) == 0x1_0000_0000_0000_0000
  {
    assert Pow256(2) == 0x1_0000;
    assert Pow256(3) == 0x100_0000;
    assert Pow256(4) == 0x1_0000_0000;
    assert Pow256(6) == 0x1_0000_0000_0000;
  }

  method EncodeFixed64(buf: array<byte>, at: nat, value: u64)
    requires at + 8 <= buf.Length
    modifies buf
    ensures buf[..at + 8] == old(buf[..at]) + Fixed(value, 8) && buf[at + 8..] == old(buf[at + 8..])
  {
    buf[at] := value % 0x100;
    buf[at + 1] := value / 0x100 % 0x100;
    buf[at + 2] := value / 0x1_0000 % 0x100;
    buf[at + 3] := value / 0x100_0000 % 0x100;
    buf[at + 4] := value / 0x1_0000_0000 % 0x100;
    buf[at + 5] := value / 0x100_0000_0000 % 0x100;
    buf[at + 6] := value / 0x1_0000_0000_0000 % 0x100;
    buf[at + 7] := value / 0x100_0000_0000_0000 % 0x100;
    FixedOf8(value);
  }

  /** Shifting by whole bytes, one byte at a time. */
  lemma ByteShifts(v: nat)
    ensures v / 0x100 / 0x100 == v / 0x1_0000
    ensures v / 0x1_0000 / 0x100 == v / 0x100_0000
    ensures v / 0x100_0000 / 0x100 == v / 0x1_0000_0000
  {
  }

  /** The encoding of `v`, given `v` shifted right by one to four bytes. */
  lemma FixedOfBytes(v: nat, a: nat, b: nat, c: nat, d: nat, n: nat)
    requires a == v / 0x100 && b == a / 0x100 && c == b / 0x100 && d == c / 0x100
    ensures Fixed(v, n + 4) == [v % 0x100, a % 0x100, b % 0x100, c % 0x100] + Fixed(d, n)
  {
    assert Fixed(c, n + 1) == [c % 0x100] + Fixed(d, n);
    assert Fixed(b, n + 2) == [b % 0x100] + Fixed(c, n + 1);
    assert Fixed(a, n + 3) == [a % 0x100] + Fixed(b, n + 2);
  }

  lemma FixedOf8(v: nat)
    ensures Fixed(v, 8) == [v % 0x100, v / 0x100 % 0x100, v / 0x1_0000 % 0x100, v / 0x100_0000 % 0x100,
                            v / 0x1_0000_0000 % 0x100, v / 0x100_0000_0000 % 0x100,
                            v / 0x1_0000_0000_0000 % 0x100, v / 0x100_0000_0000_0000 % 0x100]
  {
    var hi := v / 0x1_0000_0000;
    ByteShifts(v);
    FixedOfBytes(v, v / 0x100, v / 0x1_0000, v / 0x100_0000, hi, 4);
    ByteShifts(hi);
    FixedOfBytes(hi, hi / 0x100, hi / 0x1_0000, hi / 0x100_0000, hi / 0x1_0000_0000, 0);
    HighByteShifts(v);
  }

  lemma HighByteShifts(v: nat)
    ensures v / 0x1_0000_0000 / 0x100 == v / 0x100_0000_0000
    ensures v / 0x1_0000_0000 / 0x1_0000 == v / 0x1_0000_0000_0000
    ensures v / 0x1_0000_0000 / 0x100_0000 == v / 0x100_0000_0000_0000
  {
  }

  method PutFixed64(dst: String, value: u64)
    modifies dst
    ensures dst.bytes == old(dst.bytes) + Fixed(value, 8)
  {
    var buf := new byte[8];
    EncodeFixed64(buf, 0, value);
    assert buf[..] == buf[..8];
    dst.Append(buf[..]);
  }

  /** memcpy of eight bytes into a little-endian integer. */
  function DecodeFixed64(s: seq<byte>): (v: u64)
    requires |s| == 8
    ensures Fixed(v, 8) == s
  {
    FixedValueRoundTrip(s);
    Pow256Of4And8();
    FixedValue(s)
  }

  /** memcpy into a buffer. */
  method CopyBytes(dst: array<byte>, at: nat, s: seq<byte>)
    requires at + |s| <= dst.Length
    modifies dst
    ensures dst[..at + |s|] == old(dst[..at]) + s && dst[at + |s|..] == old(dst[at + |s|..])
  {
    forall i | 0 <= i < |s| {
      dst[at + i] := s[i];
    }
  }

  // ---------- Varints: encoding ----------

  /** Seven bits a byte, low first; every byte but the last has its top bit set. */
  function Varint(v: nat): (s: seq<byte>)
    ensures |s| > 0
  {
    if v < 128 then [v] else [v % 128 + 128] + Varint(v / 128)
  }

  function Pow128(n: nat): (p: nat)
    ensures p > 0
  {
    if n == 0 then 1 else 128 * Pow128(n - 1)
  }

  /** An encoding has as many bytes as the value has groups of seven bits, and at least one. */
  lemma {:induction false} VarintSize(v: nat, n: nat)
    requires n > 0
    ensures |Varint(v)| <= n <==> v < Pow128(n)
  {
    if v >= 128 && n > 1 {
      VarintSize(v / 128, n - 1);
    } else if n > 1 {
      assert Pow128(n) >= 128 by { assert Pow128(n - 1) > 0; }
    } else {
      assert Pow128(1) == 128;
    }
  }

  lemma VarintSizes(v: nat)
    ensures v < 0x1_0000_0000 ==> |Varint(v)| <= 5
    ensures v < 0x1_0000_0000_0000_0000 ==> |Varint(v)| <= 10
    ensures |Varint(v)| <= 5 ==> v < 0x8_0000_0000
  {
    VarintSize(v, 5);
    VarintSize(v, 10);
    assert Pow128(2) == 0x4000;
    assert Pow128(3) == 0x20_0000;
    assert Pow128(4) == 0x1000_0000;
    assert Pow128(5) == 0x8_0000_0000;
    assert Pow128(7) == 128 * (128 * Pow128(5));
    assert Pow128(9) == 128 * (128 * Pow128(7));
  }

  /** `static_cast<unsigned char>(v | 128)`, as arithmetic. */
  function WithMore(v: nat): byte {
    v % 128 + 128
  }

  lemma Shl7(x: nat, j: nat)
    requires j == 7
    ensures Shl(x, j) == 128 * x && Shl(x, j + 1) == 256 * x
  {
    ShlBy7(x, 0);
  }

  lemma OrBit7(v: nat, bit: nat, j: nat)
    requires bit == 128 && j == 7
    ensures Or(v, bit) == v % 128 + bit + 256 * (v / 128 / 2)
  {
    Shl7(1, j);
    Shl7(v / 128, j);
    Shl7(v / 128 / 2, j);
    OrSetsBit(v % 128, v / 128, j);
  }

  /** Or-ing bit 7 in, before or after the bits above it are cut off, gives that byte. */
  lemma WithMoreIsOr(v: nat, bit: nat)
    requires bit == 128
    ensures Or(v, bit) % 256 == WithMore(v)
    ensures Or(v % 128, bit) == WithMore(v)
  {
    OrBit7(v, bit, 7);
    CutToByte(v % 128, v / 128 / 2);
    OrBit7(v % 128, bit, 7);
  }

  lemma CutToByte(lo: nat, q: nat)
    requires lo < 128
    ensures (lo + 128 + 256 * q) % 256 == lo + 128
    ensures lo / 128 == 0 && lo % 128 == lo
  {
  }

  method EncodeVarint32(dst: array<byte>, at: nat, v: u32) returns (end: nat)
    requires at + |Varint(v)| <= dst.Length
    modifies dst
    ensures end == at + |Varint(v)|
    ensures dst[..end] == old(dst[..at]) + Varint(v) && dst[end..] == old(dst[end..])
  {
    GroupShifts(v);
    VarintOfGroups(v, v / 0x80, v / 0x4000, v / 0x20_0000, v / 0x1000_0000);
    if v < 0x80 {
      dst[at] := v;
      end := at + 1;
    } else if v < 0x4000 {
      dst[at], dst[at + 1] := WithMore(v), v / 0x80;
      end := at + 2;
    } else if v < 0x20_0000 {
      dst[at], dst[at + 1], dst[at + 2] := WithMore(v), WithMore(v / 0x80), v / 0x4000;
      end := at + 3;
    } else if v < 0x1000_0000 {
      dst[at], dst[at + 1], dst[at + 2], dst[at + 3] :=
        WithMore(v), WithMore(v / 0x80), WithMore(v / 0x4000), v / 0x20_0000;
      end := at + 4;
    } else {
      dst[at], dst[at + 1], dst[at + 2], dst[at + 3], dst[at + 4] :=
        WithMore(v), WithMore(v / 0x80), WithMore(v / 0x4000), WithMore(v / 0x20_0000), v / 0x1000_0000;
      end := at + 5;
    }
  }

  /** Shifting by whole groups of seven bits, one group at a time. */
  lemma GroupShifts(v: u32)
    ensures v / 0x80 / 0x80 == v / 0x4000
    ensures v / 0x4000 / 0x80 == v / 0x20_0000
    ensures v / 0x20_0000 / 0x80 == v / 0x1000_0000 < 0x80
    ensures v < 0x4000 <==> v / 0x80 < 0x80
    ensures v < 0x20_0000 <==> v / 0x4000 < 0x80
    ensures v < 0x1000_0000 <==> v / 0x20_0000 < 0x80
  {
  }

  /** The encoding of `v`, given `v` shifted right by one to four groups. */
  lemma VarintOfGroups(v: nat, a: nat, b: nat, c: nat, d: nat)
    requires a == v / 0x80 && b == a / 0x80 && c == b / 0x80 && d == c / 0x80 && d < 0x80
    ensures v < 0x80 ==> Varint(v) == [v]
    ensures v >= 0x80 > a ==> Varint(v) == [WithMore(v), a]
    ensures a >= 0x80 > b ==> Varint(v) == [WithMore(v), WithMore(a), b]
    ensures b >= 0x80 > c ==> Varint(v) == [WithMore(v), WithMore(a), WithMore(b), c]
    ensures c >= 0x80 ==> Varint(v) == [WithMore(v), WithMore(a), WithMore(b), WithMore(c), d]
  {
    assert Varint(d) == [d];
    assert Varint(c) == if c < 0x80 then [c] else [WithMore(c), d];
    assert Varint(b) == if b < 0x80 then [b] else [WithMore(b)] + Varint(c);
    assert Varint(a) == if a < 0x80 then [a] else [WithMore(a)] + Varint(b);
    assert Varint(v) == if v < 0x80 then [v] else [WithMore(v)] + Varint(a);
  }

  method EncodeVarint64(dst: array<byte>, at: nat, value: u64) returns (end: nat)
    requires at + |Varint(value)| <= dst.Length
    modifies dst
    ensures end == at + |Varint(value)|
    ensures dst[..end] == old(dst[..at]) + Varint(value) && dst[end..] == old(dst[end..])
  {
    var v := value;
    end := at;
    ghost var done: seq<byte> := [];
    while v >= 128
      invariant 0 <= v && done + Varint(v) == Varint(value)
      invariant at <= end == at + |done| && dst[..end] == old(dst[..at]) + done
      invariant forall i :: end <= i < dst.Length ==> dst[i] == old(dst[i])
    {
      AppendAssociates(done, [WithMore(v)], Varint(v / 128));
      AppendAssociates(old(dst[..at]), done, [WithMore(v)]);
      dst[end] := WithMore(v);
      end := end + 1;
      done := done + [WithMore(v)];
      v := v / 128;
    }
    dst[end] := v;
    end := end + 1;
  }

  method PutVarint32(dst: String, value: u32)
    modifies dst
    ensures dst.bytes == old(dst.bytes) + Varint(value)
  {
    VarintSizes(value);
    var buf := new byte[5];
    var end := EncodeVarint32(buf, 0, value);
    dst.Append(buf[..end]);
  }

  method PutVarint64(dst: String, value: u64)
    modifies dst
    ensures dst.bytes == old(dst.bytes) + Varint(value)
  {
    VarintSizes(value);
    var buf := new byte[10];
    var end := EncodeVarint64(buf, 0, value);
    dst.Append(buf[..end]);
  }

  method VarintLength(value: u64) returns (len: nat)
    ensures len == |Varint(value)|
  {
    var v := value;
    len := 1;
    while v >= 128
      invariant 0 <= v && len + |Varint(v)| == 1 + |Varint(value)|
    {
      v := v / 128;
      len := len + 1;
    }
  }

  // ---------- Varints: decoding ----------

  /** What a varint says and how many bytes it takes. */
  datatype Decoded = Decoded(value: nat, size: nat)

  /** The varint at the front of `s`, of at most `max` bytes, as an unbounded number. */
  function Leb(s: seq<byte>, max: nat): (d: Option<Decoded>)
    ensures d.Some? ==> 0 < d.value.size <= max && d.value.size <= |s| && d.value.value < Pow128(d.value.size)
  {
    if max == 0 || s == [] then None
    else if s[0] < 128 then Some(Decoded(s[0], 1))
    else
      match Leb(s[1..], max - 1)
      case None => None
      case Some(d) => Some(Decoded(s[0] - 128 + 128 * d.value, d.size + 1))
  }

  /** An encoding is read back, whatever follows it. */
  lemma {:induction false} LebOfVarint(v: nat, rest: seq<byte>, max: nat)
    requires |Varint(v)| <= max
    ensures Leb(Varint(v) + rest, max) == Some(Decoded(v, |Varint(v)|))
  {
    if v >= 128 {
      assert (Varint(v) + rest)[1..] == Varint(v / 128) + rest;
      LebOfVarint(v / 128, rest, max - 1);
    }
  }

  /** A varint cut short is rejected. */
  lemma {:induction false} LebOfPrefix(v: nat, n: nat, max: nat)
    requires n < |Varint(v)|
    ensures Leb(Varint(v)[..n], max) == None
  {
    if n > 0 && max > 0 {
      assert Varint(v)[..n][1..] == Varint(v / 128)[..n - 1];
      LebOfPrefix(v / 128, n - 1, max - 1);
    }
  }

  /** So is one that does not end within the bytes allowed. */
  lemma {:induction false} LebOfContinuations(s: seq<byte>, max: nat)
    requires forall i :: 0 <= i < |s| && i < max ==> s[i] >= 128
    ensures Leb(s, max) == None
  {
    if max > 0 && s != [] {
      LebOfContinuations(s[1..], max - 1);
    }
  }

  /** A longer limit reads the same varint. */
  lemma {:induction false} LebWithMore(s: seq<byte>, max: nat, more: nat)
    requires max <= more && Leb(s, max).Some?
    ensures Leb(s, more) == Leb(s, max)
  {
    if s[0] >= 128 {
      LebWithMore(s[1..], max - 1, more - 1);
    }
  }

  /** Only the bytes of the varint matter. */
  lemma {:induction false} LebOfTake(s: seq<byte>, max: nat, n: nat)
    requires Leb(s, max).Some? && Leb(s, max).value.size <= n <= |s|
    ensures Leb(s[..n], max) == Leb(s, max)
  {
    if s[0] >= 128 {
      assert s[..n][1..] == s[1..][..n - 1];
      LebOfTake(s[1..], max - 1, n - 1);
    }
  }

  /** The value carried by the first `k` bytes, without their continuation bits. */
  function LowBits(s: seq<byte>, k: nat): (v: nat)
    requires k <= |s|
    ensures v < Pow128(k)
  {
    if k == 0 then 0 else s[0] % 128 + 128 * LowBits(s[1..], k - 1)
  }

  /** `x` moved up by `k` groups of seven bits. */
  function Up(x: nat, k: nat): nat {
    if k == 0 then x else 128 * Up(x, k - 1)
  }

  /** `k` continuation bytes carry the low bits of a varint; the rest of it carries the high bits. */
  lemma {:induction false} LebSplit(s: seq<byte>, max: nat, k: nat)
    requires k <= max && k <= |s|
    requires forall i :: 0 <= i < k ==> s[i] >= 128
    ensures Leb(s, max) ==
      match Leb(s[k..], max - k)
      case None => None
      case Some(d) => Some(Decoded(LowBits(s, k) + Up(d.value, k), d.size + k))
  {
    hide Pow128;
    if k == 0 {
      assert s[0..] == s;
    } else {
      var rest := Leb(s[k..], max - k);
      LebSplit(s[1..], max - 1, k - 1);
      assert s[1..][k - 1..] == s[k..];
      if rest.Some? { LowGroupsJoin(s, k, rest.value.value); }
    }
  }

  lemma LowGroupsJoin(s: seq<byte>, k: nat, high: nat)
    requires 0 < k <= |s|
    ensures s[0] % 128 + 128 * (LowBits(s[1..], k - 1) + Up(high, k - 1)) == LowBits(s, k) + Up(high, k)
  {
  }

  lemma {:induction false} LowBitsStep(s: seq<byte>, k: nat)
    requires k < |s|
    ensures LowBits(s, k + 1) == LowBits(s, k) + Up(s[k] % 128, k)
  {
    if k > 0 { LowBitsStep(s[1..], k - 1); }
  }

  /** `x << 7 * k` in 32 bits. */
  function Shl32(x: nat, k: nat): u32 {
    Up(x, k) % 0x1_0000_0000
  }

  /** `x << 7 * k` in 64 bits. */
  function Shl64(x: nat, k: nat): u64 {
    Up(x, k) % 0x1_0000_0000_0000_0000
  }

  lemma {:induction false} GroupFits(low: nat, x: nat, k: nat)
    requires low < Pow128(k) && x < 128
    ensures low + Up(x, k) < Pow128(k + 1)
  {
    if k > 0 { GroupFits(low / 128, x, k - 1); }
  }

  lemma {:induction false} Pow128Grows(k: nat, n: nat)
    requires k <= n
    ensures Pow128(k) <= Pow128(n)
  {
    if k < n { Pow128Grows(k, n - 1); }
  }

  lemma UpBy4(x: nat)
    ensures Pow128(4) == 0x1000_0000 && Up(x, 4) == 0x1000_0000 * x
  {
    assert Pow128(1) == 128 && Up(x, 1) == 128 * x;
    assert Pow128(2) == 128 * Pow128(1) && Up(x, 2) == 128 * Up(x, 1);
    assert Pow128(3) == 128 * Pow128(2) && Up(x, 3) == 128 * Up(x, 2);
  }

  lemma UpBy9(x: nat)
    ensures Pow128(9) == 0x8000_0000_0000_0000 && Up(x, 9) == 0x8000_0000_0000_0000 * x
  {
    UpBy4(x);
    assert Pow128(5) == 128 * Pow128(4) && Up(x, 5) == 128 * Up(x, 4);
    assert Pow128(6) == 128 * Pow128(5) && Up(x, 6) == 128 * Up(x, 5);
    assert Pow128(7) == 128 * Pow128(6) && Up(x, 7) == 128 * Up(x, 6);
    assert Pow128(8) == 128 * Pow128(7) && Up(x, 8) == 128 * Up(x, 7);
  }

  lemma Mod32(q: nat, r: nat)
    requires r < 0x1_0000_0000
    ensures (0x1_0000_0000 * q + r) % 0x1_0000_0000 == r
  {
  }

  lemma Mod64(q: nat, r: nat)
    requires r < 0x1_0000_0000_0000_0000
    ensures (0x1_0000_0000_0000_0000 * q + r) % 0x1_0000_0000_0000_0000 == r
  {
  }

  lemma {:induction false} UpIsShl(x: nat, k: nat)
    ensures Up(x, k) == Shl(x, 7 * k) && Pow128(k) == Shl(1, 7 * k)
  {
    if k > 0 {
      UpIsShl(x, k - 1);
      ShlBy7(x, 7 * (k - 1));
      ShlBy7(1, 7 * (k - 1));
    }
  }

  lemma ShlBy7(x: nat, j: nat)
    ensures Shl(x, j + 7) == 128 * Shl(x, j)
  {
    assert Shl(x, j + 3) == 8 * Shl(x, j) by { assert Shl(x, j + 1) == 2 * Shl(x, j); }
    assert Shl(x, j + 5) == 4 * Shl(x, j + 3) by { assert Shl(x, j + 4) == 2 * Shl(x, j + 3); }
    assert Shl(x, j + 6) == 2 * Shl(x, j + 5);
  }

  /** A group moved up by `k` groups shares no bits with the `k` groups below it. */
  lemma OrWithGroup(low: nat, x: nat, k: nat)
    requires low < Pow128(k)
    ensures Or(low, Up(x, k)) == low + Up(x, k)
  {
    UpIsShl(x, k);
    OrOfDisjoint(low, x, 7 * k);
  }

  /** Below the top group nothing is cut off. */
  lemma OrInside(low: nat, x: nat, k: nat, n: nat)
    requires k < n && low < Pow128(k) && x < 128
    ensures Or(low, Up(x, k)) == low + Up(x, k) < Pow128(n)
  {
    GroupFits(low, x, k);
    Pow128Grows(k + 1, n);
    OrWithGroup(low, x, k);
  }

  lemma OrTop32(low: nat, x: nat, q: nat, r: nat)
    requires low < 0x1000_0000 && x == 16 * q + r && r < 16
    ensures Or(low, 0x1000_0000 * x % 0x1_0000_0000) == (low + 0x1000_0000 * x) % 0x1_0000_0000
  {
    var top := 0x1000_0000 * r;
    assert 0x1000_0000 * x == 0x1_0000_0000 * q + top;
    Mod32(q, top);
    Mod32(q, low + top);
    OrWithTop32(low, r, top);
  }

  lemma OrWithTop32(low: nat, r: nat, top: nat)
    requires low < 0x1000_0000 && top == 0x1000_0000 * r
    ensures Or(low, top) == low + top
  {
    UpBy4(r);
    OrWithGroup(low, r, 4);
  }

  lemma OrTop64(low: nat, x: nat, q: nat, r: nat)
    requires low < 0x8000_0000_0000_0000 && x == 2 * q + r && r < 2
    ensures Or(low, 0x8000_0000_0000_0000 * x % 0x1_0000_0000_0000_0000) ==
            (low + 0x8000_0000_0000_0000 * x) % 0x1_0000_0000_0000_0000
  {
    var top := 0x8000_0000_0000_0000 * r;
    assert 0x8000_0000_0000_0000 * x == 0x1_0000_0000_0000_0000 * q + top;
    Mod64(q, top);
    Mod64(q, low + top);
    OrWithTop64(low, r, top);
  }

  lemma OrWithTop64(low: nat, r: nat, top: nat)
    requires low < 0x8000_0000_0000_0000 && top == 0x8000_0000_0000_0000 * r
    ensures Or(low, top) == low + top
  {
    UpBy9(r);
    OrWithGroup(low, r, 9);
  }

  /** `result |= x << 7 * k` in 32 bits adds the group to the low bits, cut to 32 bits. */
  lemma Or32(low: nat, x: nat, k: nat)
    requires k <= 4 && low < Pow128(k) && x < 128
    ensures Or(low, Shl32(x, k)) == (low + Up(x, k)) % 0x1_0000_0000
    ensures k < 4 ==> Or(low, Shl32(x, k)) == low + Up(x, k)
  {
    UpBy4(x);
    if k < 4 {
      OrInside(low, x, k, 4);
      Mod32(0, Up(x, k));
      Mod32(0, low + Up(x, k));
    } else {
      OrTop32(low, x, x / 16, x % 16);
    }
  }

  /** The same in 64 bits. */
  lemma Or64(low: nat, x: nat, k: nat)
    requires k <= 9 && low < Pow128(k) && x < 128
    ensures Or(low, Shl64(x, k)) == (low + Up(x, k)) % 0x1_0000_0000_0000_0000
    ensures k < 9 ==> Or(low, Shl64(x, k)) == low + Up(x, k)
  {
    UpBy9(x);
    if k < 9 {
      OrInside(low, x, k, 9);
      Mod64(0, Up(x, k));
      Mod64(0, low + Up(x, k));
    } else {
      OrTop64(low, x, x / 2, x % 2);
    }
  }

  /** `result |= x << 7 * k` */
  method OrGroup32(low: u32, x: u32, k: nat) returns (r: u32)
    requires k <= 4 && low < Pow128(k) && x < 128
    ensures r == (low + Up(x, k)) % 0x1_0000_0000 && (k < 4 ==> r == low + Up(x, k))
  {
    Or32(low, x, k);
    r := Or(low, Shl32(x, k));
  }

  method OrGroup64(low: u64, x: u64, k: nat) returns (r: u64)
    requires k <= 9 && low < Pow128(k) && x < 128
    ensures r == (low + Up(x, k)) % 0x1_0000_0000_0000_0000 && (k < 9 ==> r == low + Up(x, k))
  {
    Or64(low, x, k);
    r := Or(low, Shl64(x, k));
  }

  /** Where a varint of `s` ends when byte `k` is the first without a continuation bit. */
  lemma LebEnds(s: seq<byte>, max: nat, k: nat)
    requires k < max && k < |s| && s[k] < 128
    requires forall i :: 0 <= i < k ==> s[i] >= 128
    ensures Leb(s, max) == Some(Decoded(LowBits(s, k) + Up(s[k], k), k + 1))
  {
    assert Leb(s[k..], max - k) == Some(Decoded(s[k], 1));
    LebSplit(s, max, k);
  }

  /** Reads a varint of at most five bytes between `p` and `limit`; a fifth byte is cut to its low four bits. */
  method GetVarint32PtrFallback(data: seq<byte>, p: nat, limit: nat) returns (next: Option<nat>, value: u32)
    requires p <= limit <= |data|
    ensures match Leb(data[p..limit], 5)
      case None => next == None
      case Some(d) => next == Some(p + d.size) && value == d.value % 0x1_0000_0000
  {
    ghost var s := data[p..limit];
    var result: u32 := 0;
    var at, k := p, 0;  // the source's shift is 7 * k
    while k <= 4 && at < limit
      invariant 0 <= k <= 5 && at == p + k <= limit
      invariant forall i :: 0 <= i < k ==> s[i] >= 128
      invariant k <= 4 ==> result == LowBits(s, k)
    {
      var byte := data[at];
      at := at + 1;
      if byte >= 128 {
        LowBitsStep(s, k);
        result := OrGroup32(result, byte % 128, k);
      } else {
        LebEnds(s, 5, k);
        result := OrGroup32(result, byte, k);
        return Some(at), result;
      }
      k := k + 1;
    }
    LebContinues(s, 5, k);
    return None, 0;
  }

  lemma {:induction false} LebContinues(s: seq<byte>, max: nat, k: nat)
    requires k <= |s| && (k == |s| || k >= max)
    requires forall i :: 0 <= i < k ==> s[i] >= 128
    ensures Leb(s, max) == None
  {
    LebOfContinuations(s, max);
  }

  /** The same with ten bytes and 64 bits: a tenth byte is cut to its lowest bit. */
  method GetVarint64Ptr(data: seq<byte>, p: nat, limit: nat) returns (next: Option<nat>, value: u64)
    requires p <= limit <= |data|
    ensures match Leb(data[p..limit], 10)
      case None => next == None
      case Some(d) => next == Some(p + d.size) && value == d.value % 0x1_0000_0000_0000_0000
  {
    ghost var s := data[p..limit];
    var result: u64 := 0;
    var at, k := p, 0;
    while k <= 9 && at < limit
      invariant 0 <= k <= 10 && at == p + k <= limit
      invariant forall i :: 0 <= i < k ==> s[i] >= 128
      invariant k <= 9 ==> result == LowBits(s, k)
    {
      var byte := data[at];
      at := at + 1;
      if byte >= 128 {
        LowBitsStep(s, k);
        result := OrGroup64(result, byte % 128, k);
      } else {
        LebEnds(s, 10, k);
        result := OrGroup64(result, byte, k);
        return Some(at), result;
      }
      k := k + 1;
    }
    LebContinues(s, 10, k);
    return None, 0;
  }

  /** coding.h: one byte inline, the rest in the fallback. */
  method GetVarint32Ptr(data: seq<byte>, p: nat, limit: nat) returns (next: Option<nat>, value: u32)
    requires p <= limit <= |data|
    ensures match Leb(data[p..limit], 5)
      case None => next == None
      case Some(d) => next == Some(p + d.size) && value == d.value % 0x1_0000_0000
  {
    if p < limit {
      assert data[p..limit][0] == data[p];
      if data[p] < 128 {
        assert Leb(data[p..limit], 5) == Some(Decoded(data[p], 1));
        return Some(p + 1), data[p];
      }
    }
    next, value := GetVarint32PtrFallback(data, p, limit);
  }

  /**
   * On any bytes at all, what the 32-bit reader accepts the 64-bit reader accepts too, ending at
   * the same byte, and the 32-bit result is the low half of the 64-bit one.
   */
  lemma NarrowReadsAreWideReads(s: seq<byte>)
    requires Leb(s, 5).Some?
    ensures Leb(s, 10) == Leb(s, 5)
    ensures var v := Leb(s, 5).value.value;
      v % 0x1_0000_0000 == v % 0x1_0000_0000_0000_0000 % 0x1_0000_0000
  {
    LebWithMore(s, 5, 10);
    var v := Leb(s, 5).value.value;
    Pow128Grows(Leb(s, 5).value.size, 5);
    UpBy9(0);
    Pow128Grows(5, 9);
    ModOfSmall(v, 0x1_0000_0000_0000_0000);
  }

  method GetVarint32(input: Slice) returns (ok: bool, value: u32)
    modifies input
    ensures match Leb(old(input.bytes), 5)
      case None => !ok && input.bytes == old(input.bytes)
      case Some(d) => ok && value == d.value % 0x1_0000_0000 && input.bytes == old(input.bytes)[d.size..]
  {
    var data := input.bytes;
    assert data[0..|data|] == data;
    var q;
    q, value := GetVarint32Ptr(data, 0, |data|);
    if q.None? { return false, value; }
    input.RemovePrefix(q.value);
    ok := true;
  }

  method GetVarint64(input: Slice) returns (ok: bool, value: u64)
    modifies input
    ensures match Leb(old(input.bytes), 10)
      case None => !ok && input.bytes == old(input.bytes)
      case Some(d) =>
        ok && value == d.value % 0x1_0000_0000_0000_0000 && input.bytes == old(input.bytes)[d.size..]
  {
    var data := input.bytes;
    assert data[0..|data|] == data;
    var q;
    q, value := GetVarint64Ptr(data, 0, |data|);
    if q.None? { return false, value; }
    input.RemovePrefix(q.value);
    ok := true;
  }

  // ---------- Streams of varints ----------

  function VarintStream(vs: seq<nat>): seq<byte> {
    if vs == [] then [] else Varint(vs[0]) + VarintStream(vs[1..])
  }

  /** Varints of at most `max` bytes read off the front until nothing is left, each cut to `modulus`. */
  function ReadStream(s: seq<byte>, max: nat, modulus: nat): Option<seq<nat>>
    requires modulus > 0
    decreases |s|
  {
    if s == [] then Some([])
    else
      match Leb(s, max)
      case None => None
      case Some(d) =>
        match ReadStream(s[d.size..], max, modulus)
        case None => None
        case Some(vs) => Some([d.value % modulus] + vs)
  }

  lemma {:induction false} StreamRoundTrip(vs: seq<nat>, max: nat, modulus: nat)
    requires modulus > 0 && forall v :: v in vs ==> v < modulus && |Varint(v)| <= max
    ensures ReadStream(VarintStream(vs), max, modulus) == Some(vs)
  {
    if vs != [] {
      var v, rest := vs[0], VarintStream(vs[1..]);
      LebOfVarint(v, rest, max);
      assert (Varint(v) + rest)[|Varint(v)|..] == rest;
      assert forall x :: x in vs[1..] ==> x in vs;
      StreamRoundTrip(vs[1..], max, modulus);
      ModOfSmall(v, modulus);
      assert [v] + vs[1..] == vs;
    }
  }

  lemma ModOfSmall(v: nat, m: nat)
    requires v < m
    ensures v % m == v
  {
  }

  /** Both widths read back every stream of values of that width. */
  lemma VarintStreams(vs: seq<nat>)
    ensures (forall v :: v in vs ==> v < 0x1_0000_0000) ==> ReadStream(VarintStream(vs), 5, 0x1_0000_0000) == Some(vs)
    ensures (forall v :: v in vs ==> v < 0x1_0000_0000_0000_0000) ==>
              ReadStream(VarintStream(vs), 10, 0x1_0000_0000_0000_0000) == Some(vs)
  {
    forall v | v in vs
      ensures v < 0x1_0000_0000 ==> |Varint(v)| <= 5
      ensures v < 0x1_0000_0000_0000_0000 ==> |Varint(v)| <= 10
    {
      VarintSizes(v);
    }
    if forall v :: v in vs ==> v < 0x1_0000_0000 { StreamRoundTrip(vs, 5, 0x1_0000_0000); }
    if forall v :: v in vs ==> v < 0x1_0000_0000_0000_0000 { StreamRoundTrip(vs, 10, 0x1_0000_0000_0000_0000); }
  }

  // ---------- Length-prefixed byte strings ----------

  function Prefixed(s: seq<byte>): seq<byte> {
    Varint(|s|) + s
  }

  /** A byte string and how many bytes it took with its length. */
  datatype Framed = Framed(payload: seq<byte>, size: nat)

  function ReadPrefixed(s: seq<byte>): (f: Option<Framed>)
    ensures f.Some? ==> 0 < f.value.size <= |s|
  {
    match Leb(s, 5)
    case None => None
    case Some(d) =>
      var len := d.value % 0x1_0000_0000;
      if d.size + len > |s| then None else Some(Framed(s[d.size..d.size + len], d.size + len))
  }

  /** Without a whole length, or with fewer bytes than it says, nothing is read. */
  lemma ReadPrefixedRefuses(s: seq<byte>)
    ensures ReadPrefixed(s).None? <==>
              Leb(s, 5).None? || |s| < Leb(s, 5).value.size + Leb(s, 5).value.value % 0x1_0000_0000
    ensures forall n :: 0 <= n < |s| && ReadPrefixed(s).Some? && n < ReadPrefixed(s).value.size ==>
              ReadPrefixed(s[..n]).None?
  {
    forall n | 0 <= n < |s| && ReadPrefixed(s).Some? && n < ReadPrefixed(s).value.size
      ensures ReadPrefixed(s[..n]).None?
    {
      if Leb(s[..n], 5).Some? {
        LebOfAppend(s[..n], s[n..], 5);
        assert s[..n] + s[n..] == s;
      }
    }
  }

  /** What has been read stays so with more bytes behind it. */
  lemma {:induction false} LebOfAppend(s: seq<byte>, t: seq<byte>, max: nat)
    requires Leb(s, max).Some?
    ensures Leb(s + t, max) == Leb(s, max)
  {
    if s[0] >= 128 {
      assert (s + t)[1..] == s[1..] + t;
      LebOfAppend(s[1..], t, max - 1);
    }
  }

  lemma ReadPrefixedOfPrefixed(s: seq<byte>, rest: seq<byte>)
    requires |s| < 0x1_0000_0000
    ensures ReadPrefixed(Prefixed(s) + rest) == Some(Framed(s, |Prefixed(s)|))
  {
    VarintSizes(|s|);
    assert Prefixed(s) + rest == Varint(|s|) + (s + rest);
    LebOfVarint(|s|, s + rest, 5);
  }

  method PutLengthPrefixedSlice(dst: String, value: seq<byte>)
    requires |value| < 0x1_0000_0000
    modifies dst
    ensures dst.bytes == old(dst.bytes) + Prefixed(value)
  {
    PutVarint32(dst, |value|);
    dst.Append(value);
  }

  /** The pointer overload: the payload and where it ends. */
  method GetLengthPrefixedSlicePtr(data: seq<byte>, p: nat, limit: nat) returns (next: Option<nat>, result: seq<byte>)
    requires p <= limit <= |data|
    ensures match ReadPrefixed(data[p..limit])
      case None => next == None
      case Some(f) => next == Some(p + f.size) && result == f.payload
  {
    var q, len := GetVarint32Ptr(data, p, limit);
    if q.None? { return None, []; }
    if q.value + len > limit { return None, []; }
    result := data[q.value..q.value + len];
    SliceOfSlice(data, p, limit, q.value - p, q.value - p + len);
    next := Some(q.value + len);
  }

  /** What is left once a varint has been read off the front, if there is one to read. */
  function AfterVarint32(s: seq<byte>): seq<byte> {
    match Leb(s, 5)
    case None => s
    case Some(d) => s[d.size..]
  }

  /** The Slice overload. When the length reads but the payload is short the length is consumed all the same. */
  method GetLengthPrefixedSlice(input: Slice) returns (ok: bool, result: seq<byte>)
    modifies input
    ensures match ReadPrefixed(old(input.bytes))
      case Some(f) => ok && result == f.payload && input.bytes == old(input.bytes)[f.size..]
      case None => !ok && input.bytes == AfterVarint32(old(input.bytes))
  {
    var len;
    ok, len := GetVarint32(input);
    if ok && |input.bytes| >= len {
      result := input.bytes[..len];
      input.RemovePrefix(len);
    } else {
      ok, result := false, [];
    }
  }

  function PrefixedStream(ss: seq<seq<byte>>): seq<byte> {
    if ss == [] then [] else Prefixed(ss[0]) + PrefixedStream(ss[1..])
  }

  function ReadPrefixedStream(s: seq<byte>): Option<seq<seq<byte>>>
    decreases |s|
  {
    if s == [] then Some([])
    else
      match ReadPrefixed(s)
      case None => None
      case Some(f) =>
        match ReadPrefixedStream(s[f.size..])
        case None => None
        case Some(ss) => Some([f.payload] + ss)
  }

  lemma {:induction false} PrefixedStreamRoundTrip(ss: seq<seq<byte>>)
    requires forall s :: s in ss ==> |s| < 0x1_0000_0000
    ensures ReadPrefixedStream(PrefixedStream(ss)) == Some(ss)
  {
    if ss != [] {
      var s, rest := ss[0], PrefixedStream(ss[1..]);
      ReadPrefixedOfPrefixed(s, rest);
      assert (Prefixed(s) + rest)[|Prefixed(s)|..] == rest;
      PrefixedStreamRoundTrip(ss[1..]);
      assert [s] + ss[1..] == ss;
    }
  }
}
