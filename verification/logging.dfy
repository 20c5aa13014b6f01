/** logging.cc: printing a number in decimal, and the parser that refuses numbers of more than 64 bits. */
module Logging {
  import opened Bytes
  import opened Options
  import opened Sequences

  const MAX_UINT64: nat := 0xFFFF_FFFF_FFFF_FFFF

  predicate IsDigit(c: byte) {
    48 <= c <= 57
  }

  ghost predicate IsRun(s: seq<byte>, n: nat) {
    n <= |s| && (forall i :: 0 <= i < n ==> IsDigit(s[i])) && (n < |s| ==> !IsDigit(s[n]))
  }

  lemma RunExists(s: seq<byte>) returns (n: nat)
    ensures IsRun(s, n)
  {
    n := 0;
    while n < |s| && IsDigit(s[n])
      invariant n <= |s| && forall i :: 0 <= i < n ==> IsDigit(s[i])
    {
      n := n + 1;
    }
  }

  /** How many digits `s` starts with. */
  ghost function DigitRun(s: seq<byte>): (n: nat)
    ensures IsRun(s, n)
  {
    assert exists n: nat :: IsRun(s, n) by { var n := RunExists(s); }
    var n: nat :| IsRun(s, n);
    n
  }

  /** The number a string of digits spells, however large. */
  function Value(s: seq<byte>): nat
    requires forall i :: 0 <= i < |s| ==> IsDigit(s[i])
  {
    if s == [] then 0
    else
      assert IsDigit(s[|s| - 1]);
      10 * Value(s[..|s| - 1]) + (s[|s| - 1] as int - 48)
  }

  lemma ValueOfNext(s: seq<byte>, k: nat)
    requires k < |s| && forall i :: 0 <= i <= k ==> IsDigit(s[i])
    ensures Value(s[..k + 1]) == 10 * Value(s[..k]) + (s[k] as int - 48)
  {
    assert s[..k + 1][..k] == s[..k];
  }

  lemma {:induction false} ValueGrows(s: seq<byte>, k: nat, n: nat)
    requires k <= n <= |s| && forall i :: 0 <= i < n ==> IsDigit(s[i])
    ensures Value(s[..k]) <= Value(s[..n])
    decreases n - k
  {
    if k < n {
      ValueGrows(s, k, n - 1);
      ValueOfNext(s, n - 1);
    }
  }

  datatype Number = Number(value: u64, size: nat)

  /** The number that the leading digits of `s` spell. */
  ghost function Spelled(s: seq<byte>): nat {
    Value(s[..DigitRun(s)])
  }

  /** The number at the front of `s`: all its leading digits, if there are any and they spell a 64-bit number. */
  ghost function ReadDecimal(s: seq<byte>): (r: Option<Number>)
    ensures r.Some? ==> 0 < r.value.size <= |s|
  {
    var n := DigitRun(s);
    if n == 0 || Spelled(s) > MAX_UINT64 then None else Some(Number(Spelled(s), n))
  }

  /** Where parsing stops short: `k` digits fit in 64 bits and one more does not. */
  ghost predicate OverflowsAt(s: seq<byte>, k: nat) {
    && k < DigitRun(s)
    && Value(s[..k]) <= MAX_UINT64 < Value(s[..k + 1])
  }

  /**
   * A number is read and removed exactly when `ReadDecimal` finds one. Without digits the input is
   * left alone; on overflow it is left at the digit that does not fit, and `val` as it was.
   */
  method ConsumeDecimalNumber(input: Slice, val: u64) returns (ok: bool, val': u64)
    modifies input
    ensures ok == ReadDecimal(old(input.bytes)).Some?
    ensures ok ==> var d := ReadDecimal(old(input.bytes)).value;
                   val' == d.value && input.bytes == old(input.bytes)[d.size..]
    ensures !ok && DigitRun(old(input.bytes)) == 0 ==> val' == 0 && input.bytes == old(input.bytes)
    ensures !ok && DigitRun(old(input.bytes)) > 0 ==>
              val' == val && exists k: nat :: OverflowsAt(old(input.bytes), k) && input.bytes == old(input.bytes)[k..]
  {
    ghost var s := input.bytes;
    ghost var n := DigitRun(s);
    var v: u64, digits := 0, 0;
    while |input.bytes| > 0
      invariant 0 <= digits <= n && input.bytes == s[digits..] && v == Value(s[..digits])
      decreases |input.bytes|
    {
      var c := input.bytes[0];
      if '0' as int <= c <= '9' as int {
        ghost var k := digits;
        digits := digits + 1;
        var delta := c - '0' as int;
        ValueOfNext(s, k);
        if v > MAX_UINT64 / 10 || (v == MAX_UINT64 / 10 && delta > MAX_UINT64 % 10) {
          ValueGrows(s, k + 1, n);
          assert OverflowsAt(s, k);
          return false, val;
        }
        v := v * 10 + delta;
        input.RemovePrefix(1);
      } else {
        break;
      }
    }
    val', ok := v, digits > 0;
  }

  // ---------- Printing, and back ----------

  /** What snprintf's %llu prints. */
  function Decimal(v: nat): (s: seq<byte>)
    ensures |s| > 0 && forall i :: 0 <= i < |s| ==> IsDigit(s[i])
  {
    (if v < 10 then [] else Decimal(v / 10)) + [48 + v % 10]
  }

  method AppendNumberTo(str: String, num: u64)
    modifies str
    ensures str.bytes == old(str.bytes) + Decimal(num)
  {
    str.Append(Decimal(num));
  }

  method NumberToString(num: u64) returns (r: String)
    ensures fresh(r) && r.bytes == Decimal(num)
  {
    r := new String([]);
    AppendNumberTo(r, num);
  }

  lemma {:induction false} DecimalValue(v: nat)
    ensures Value(Decimal(v)) == v
  {
    var s := Decimal(v);
    if v < 10 {
      assert s[..0] == [];
    } else {
      DecimalValue(v / 10);
      assert s[..|s| - 1] == Decimal(v / 10);
    }
  }

  function Pow10(n: nat): nat {
    if n == 0 then 1 else 10 * Pow10(n - 1)
  }

  lemma {:induction false} DecimalFits(v: nat, n: nat)
    requires v < Pow10(n) && n > 0
    ensures |Decimal(v)| <= n
  {
    if n > 1 && v >= 10 { DecimalFits(v / 10, n - 1); }
  }

  /** A printed 64-bit number and its terminator fit the buffer of 30 with room to spare. */
  lemma DecimalFitsBuffer(v: u64)
    ensures |Decimal(v)| <= 20
  {
    assert Pow10(20) == 100_000_000_000_000_000_000 by {
      assert Pow10(5) == 100_000;
      assert Pow10(10) == 10_000_000_000;
      assert Pow10(15) == 1_000_000_000_000_000;
    }
    DecimalFits(v, 20);
  }

  lemma DigitRunIs(s: seq<byte>, n: nat)
    requires IsRun(s, n)
    ensures DigitRun(s) == n
  {
  }

  /** Parsing what was printed gives the number back and leaves what followed it. */
  lemma PrintThenParse(v: u64, rest: seq<byte>)
    requires rest != [] ==> !IsDigit(rest[0])
    ensures ReadDecimal(Decimal(v) + rest) == Some(Number(v, |Decimal(v)|))
    ensures (Decimal(v) + rest)[|Decimal(v)|..] == rest
  {
    DecimalValue(v);
    ReadsFront(Decimal(v), rest, v);
  }

  lemma ReadsFront(d: seq<byte>, rest: seq<byte>, v: u64)
    requires |d| > 0 && (forall i :: 0 <= i < |d| ==> IsDigit(d[i])) && Value(d) == v
    requires rest != [] ==> !IsDigit(rest[0])
    ensures ReadDecimal(d + rest) == Some(Number(v, |d|)) && (d + rest)[|d|..] == rest
  {
    DigitRunIs(d + rest, |d|);
    assert (d + rest)[..|d|] == d;
  }

  predicate AllZeros(s: seq<byte>) {
    forall i :: 0 <= i < |s| ==> s[i] == 48
  }

  /** `s` is `d` behind zeros. */
  predicate Padded(s: seq<byte>, d: seq<byte>) {
    |d| <= |s| && AllZeros(s[..|s| - |d|]) && s[|s| - |d|..] == d
  }

  lemma {:induction false} DigitsArePadded(s: seq<byte>)
    requires |s| > 0 && forall i :: 0 <= i < |s| ==> IsDigit(s[i])
    ensures Padded(s, Decimal(Value(s)))
    decreases |s|
  {
    var front, c := s[..|s| - 1], s[|s| - 1];
    assert s == front + [c];
    if front == [] {
      OneDigitPadded(c);
    } else {
      var v := Value(front);
      DigitsArePadded(front);
      PaddedExtends(front, v, c);
      ValueIs(s, v, c);
    }
  }

  lemma ValueIs(s: seq<byte>, v: nat, c: byte)
    requires |s| > 0 && (forall i :: 0 <= i < |s| ==> IsDigit(s[i])) && v == Value(s[..|s| - 1]) && c == s[|s| - 1]
    ensures Value(s) == 10 * v + (c as int - 48)
  {
  }

  lemma OneDigitPadded(c: byte)
    requires IsDigit(c)
    ensures Value([c]) == c as int - 48 && Padded([c], Decimal(Value([c])))
  {
    assert [c][..0] == [];
  }

  lemma PaddedExtends(front: seq<byte>, v: nat, c: byte)
    requires IsDigit(c) && Padded(front, Decimal(v))
    ensures Padded(front + [c], Decimal(10 * v + (c as int - 48)))
  {
    var d, s := Decimal(v), front + [c];
    if v > 0 {
      assert s[|front| - |d|..] == d + [c];
      assert s[..|front| - |d|] == front[..|front| - |d|];
    } else {
      assert forall i :: 0 <= i < |front| - 1 ==> front[i] == front[..|front| - 1][i];
      assert front[|front| - 1] == front[|front| - 1..][0];
    }
  }

  /** And printing what was parsed gives the digits back, less the leading zeros. */
  lemma ParseThenPrint(s: seq<byte>)
    requires ReadDecimal(s).Some?
    ensures var d := ReadDecimal(s).value; Padded(s[..d.size], Decimal(d.value))
  {
    DigitsArePadded(s[..DigitRun(s)]);
  }

  lemma {:induction false} ZerosCountNothing(z: seq<byte>, s: seq<byte>)
    requires AllZeros(z) && forall i :: 0 <= i < |s| ==> IsDigit(s[i])
    ensures Value(z + s) == Value(s)
    decreases |s|, |z|
  {
    var t := z + s;
    if s != [] {
      ZerosCountNothing(z, s[..|s| - 1]);
      assert t[..|t| - 1] == z + s[..|s| - 1];
    } else if z != [] {
      ZerosCountNothing(z[..|z| - 1], s);
      assert t[..|t| - 1] == z[..|z| - 1] + s;
    }
  }

  /** Any number of leading zeros makes no difference to what is accepted and to its value. */
  lemma LeadingZeros(z: seq<byte>, s: seq<byte>)
    requires AllZeros(z) && DigitRun(s) > 0
    ensures match ReadDecimal(s)
      case None => ReadDecimal(z + s) == None
      case Some(d) => ReadDecimal(z + s) == Some(Number(d.value, |z| + d.size))
  {
    var t := z + s;
    LeadingZerosRun(z, s, t);
    SameNumber(s, t);
  }

  /** Digits that spell the same number read as the same number. */
  lemma SameNumber(s: seq<byte>, t: seq<byte>)
    requires DigitRun(s) > 0 && DigitRun(t) > 0 && Spelled(s) == Spelled(t)
    ensures match ReadDecimal(s)
      case None => ReadDecimal(t) == None
      case Some(d) => d.size == DigitRun(s) && ReadDecimal(t) == Some(Number(d.value, DigitRun(t)))
  {
  }

  lemma LeadingZerosRun(z: seq<byte>, s: seq<byte>, t: seq<byte>)
    requires AllZeros(z) && t == z + s
    ensures DigitRun(t) == |z| + DigitRun(s) && Spelled(t) == Spelled(s)
  {
    var k := DigitRun(s);
    DigitRunIs(t, |z| + k);
    LeadingZerosValue(z, s, k);
  }

  lemma LeadingZerosValue(z: seq<byte>, s: seq<byte>, k: nat)
    requires AllZeros(z) && k <= |s| && forall i :: 0 <= i < k ==> IsDigit(s[i])
    requires forall i :: 0 <= i < |z| + k ==> IsDigit((z + s)[i])
    ensures Value((z + s)[..|z| + k]) == Value(s[..k])
  {
    TakeOfAppend(z, s, k);
    ZerosCountNothing(z, s[..k]);
  }
}
