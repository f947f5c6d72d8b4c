/** Integer printing into a fixed buffer (muduo/base/LogStream.h, LogStream.cc). */
module LogStreams {
  import opened CppArithmetic

  const DIGITS := "9876543210123456789"
  const ZERO := 9
  const DIGITS_HEX := "0123456789ABCDEF"

  const SMALL_BUFFER := 4000
  const LARGE_BUFFER := 4000 * 1000
  const MAX_NUMERIC_SIZE := 48

  /** What `long long` and `unsigned long long` hold between them. */
  predicate IsNumeric(v: int) {
    -0x8000_0000_0000_0000 <= v <= 0xffff_ffff_ffff_ffff
  }

  predicate IsAddress(v: int) {
    0 <= v <= 0xffff_ffff_ffff_ffff
  }

  // --------------------------------------------------------------- numerals

  function Numeral(n: nat, base: nat): (s: string)
    requires base == 10 || base == 16
    ensures |s| > 0
    decreases n
  {
    if n < base then [DIGITS_HEX[n]] else Numeral(n / base, base) + [DIGITS_HEX[n % base]]
  }

  function Abs(v: int): nat {
    if v < 0 then -v else v
  }

  function Decimal(v: int): string {
    (if v < 0 then "-" else "") + Numeral(Abs(v), 10)
  }

  function DigitValue(c: char): int {
    if '0' <= c <= '9' then c as int - '0' as int
    else if 'A' <= c <= 'F' then c as int - 'A' as int + 10
    else -1
  }

  function ValueOf(s: string, base: nat): int {
    if s == [] then 0 else ValueOf(s[..|s| - 1], base) * base + DigitValue(s[|s| - 1])
  }

  function ReadDecimal(s: string): int {
    if s != [] && s[0] == '-' then -ValueOf(s[1..], 10) else ValueOf(s, 10)
  }

  lemma DigitReadsBack(d: nat)
    requires d < 16
    ensures DigitValue(DIGITS_HEX[d]) == d
    ensures DIGITS_HEX[d] == '0' <==> d == 0
  {
  }

  lemma DivideBack(n: nat, base: nat)
    requires base == 10 || base == 16
    ensures n / base * base + n % base == n
    ensures n >= base ==> 0 < n / base < n
  {
  }

  lemma {:induction false} NumeralReadsBack(n: nat, base: nat)
    requires base == 10 || base == 16
    ensures ValueOf(Numeral(n, base), base) == n
    ensures DigitValue(Numeral(n, base)[0]) >= 0
    ensures Numeral(n, base)[0] == '0' ==> n == 0
    decreases n
  {
    hide DigitValue, ValueOf;
    DigitReadsBack(n % base);
    if n < base {
      assert n % base == n;
      assert "" + [DIGITS_HEX[n]] == [DIGITS_HEX[n]];
      ValueAppend("", DIGITS_HEX[n], base);
      ValueNone(base);
    } else {
      DivideBack(n, base);
      NumeralReadsBack(n / base, base);
      ValueAppend(Numeral(n / base, base), DIGITS_HEX[n % base], base);
    }
  }

  lemma ValueNone(base: nat)
    ensures ValueOf("", base) == 0
  {
  }

  lemma ValueAppend(s: string, c: char, base: nat)
    ensures ValueOf(s + [c], base) == ValueOf(s, base) * base + DigitValue(c)
  {
    assert (s + [c])[..|s|] == s;
  }

  /** Printed text reads back as the value, with no superfluous leading zero. */
  lemma DecimalRoundTrip(v: int)
    ensures ReadDecimal(Decimal(v)) == v
    ensures var digits := if v < 0 then Decimal(v)[1..] else Decimal(v);
            digits != [] && (digits[0] == '0' ==> v == 0)
  {
    NumeralReadsBack(Abs(v), 10);
    if v < 0 {
      assert Decimal(v)[1..] == Numeral(Abs(v), 10);
    } else {
      assert Decimal(v) == Numeral(Abs(v), 10);
    }
  }

  function Power(base: nat, k: nat): nat
    requires base == 10 || base == 16
  {
    if k == 0 then 1 else base * Power(base, k - 1)
  }

  lemma {:induction false} NumeralLength(n: nat, base: nat, k: nat)
    requires base == 10 || base == 16
    requires k > 0 && n < Power(base, k)
    ensures |Numeral(n, base)| <= k
    decreases n
  {
    if n >= base {
      assert Power(base, k) == if base == 10 then 10 * Power(10, k - 1) else 16 * Power(16, k - 1);
      assert k == 1 ==> Power(base, k - 1) == 1;
      NumeralLength(n / base, base, k - 1);
    }
  }

  /** Every 64-bit integer, the most negative included, fits with its terminator. */
  lemma DecimalFits(v: int)
    requires IsNumeric(v)
    ensures |Decimal(v)| <= 20
  {
    assert Power(10, 5) == 100_000;
    assert Power(10, 10) == 100_000 * Power(10, 5);
    assert Power(10, 15) == 100_000 * Power(10, 10);
    assert Power(10, 19) == 10_000 * Power(10, 15);
    assert Power(10, 20) == 10 * Power(10, 19);
    NumeralLength(Abs(v), 10, if v < 0 then 19 else 20);
  }

  lemma HexFits(v: int)
    requires IsAddress(v)
    ensures |Numeral(v, 16)| <= 16
  {
    assert Power(16, 4) == 0x1_0000;
    assert Power(16, 8) == 0x1_0000 * Power(16, 4);
    assert Power(16, 12) == 0x1_0000 * Power(16, 8);
    assert Power(16, 16) == 0x1_0000 * Power(16, 12);
    NumeralLength(v, 16, 16);
  }

  // -------------------------------------------------------------- conversion

  function Reversed(s: string): (r: string)
    ensures |r| == |s|
    ensures forall i :: 0 <= i < |s| ==> r[i] == s[|s| - 1 - i]
  {
    if s == [] then [] else [s[|s| - 1]] + Reversed(s[..|s| - 1])
  }

  method Reverse(a: array<char>, lo: nat, hi: nat)
    requires lo <= hi <= a.Length
    modifies a
    ensures a[lo..hi] == Reversed(old(a[lo..hi]))
    ensures forall i :: 0 <= i < a.Length && !(lo <= i < hi) ==> a[i] == old(a[i])
  {
    hide Reversed;
    ghost var was := a[..];
    var first, last := lo, hi;
    while first < last
      invariant lo <= first <= hi && last == lo + hi - first && first <= last + 1
      invariant forall i :: 0 <= i < a.Length && !(lo <= i < hi) ==> a[i] == was[i]
      invariant forall i :: first <= i < last ==> a[i] == was[i]
      invariant forall i :: lo <= i < first ==> a[i] == was[lo + hi - 1 - i]
      invariant forall i :: last <= i < hi ==> a[i] == was[lo + hi - 1 - i]
    {
      last := last - 1;
      a[first], a[last] := a[last], a[first];
      first := first + 1;
    }
    MirroredIsReversed(was, a[..], lo, hi);
    assert was[lo..hi] == old(a[lo..hi]) && a[..][lo..hi] == a[lo..hi];
  }

  lemma MirroredIsReversed(s: string, r: string, lo: nat, hi: nat)
    requires lo <= hi <= |s| == |r|
    requires forall i :: lo <= i < hi ==> r[i] == s[lo + hi - 1 - i]
    ensures r[lo..hi] == Reversed(s[lo..hi])
  {
    assert |r[lo..hi]| == |Reversed(s[lo..hi])|;
  }

  /** What a digit loop has still to print: all of `i`, or nothing. */
  function Pending(i: int, more: bool, base: nat): string
    requires base == 10 || base == 16
  {
    if more then Numeral(Abs(i), base) else ""
  }

  /** Truncating division peels off the last digit of either sign. */
  lemma PeelDigit(i: int)
    ensures Abs(Quot(i, 10)) == Abs(i) / 10
    ensures 0 <= ZERO + Rem(i, 10) < |DIGITS|
    ensures Pending(i, true, 10) == Pending(Quot(i, 10), Quot(i, 10) != 0, 10) + [DIGITS[ZERO + Rem(i, 10)]]
  {
    assert Abs(Rem(i, 10)) == Abs(i) % 10;
    assert DIGITS[ZERO + Rem(i, 10)] == DIGITS_HEX[Abs(i) % 10];
  }

  lemma PeelHexDigit(i: nat)
    ensures Pending(i, true, 16) == Pending(i / 16, i / 16 != 0, 16) + [DIGITS_HEX[i % 16]]
  {
  }

  lemma ReversedCons(rest: string, c: char)
    ensures Reversed(rest + [c]) == [c] + Reversed(rest)
  {
    assert (rest + [c])[..|rest|] == rest;
  }

  /** Writing the last digit keeps pending and reversed output together. */
  lemma DigitOut(before: string, after: string, c: char, written: string, out: string)
    requires before == after + [c] && out == written + [c]
    ensures before + Reversed(written) == after + Reversed(out)
  {
    ReversedCons(written, c);
    assert after + ([c] + Reversed(written)) == after + [c] + Reversed(written);
  }

  /** Digits in reverse, then the sign. */
  function WithSign(value: int, digits: string): string {
    digits + if value < 0 then "-" else ""
  }

  lemma SignOut(value: int, digits: string)
    requires Numeral(Abs(value), 10) == Reversed(digits)
    ensures Reversed(WithSign(value, digits)) == Decimal(value)
  {
    if value < 0 {
      ReversedCons(digits, '-');
    } else {
      assert WithSign(value, digits) == digits;
    }
  }

  lemma DecimalLength(value: int)
    ensures |Decimal(value)| == |Numeral(Abs(value), 10)| + if value < 0 then 1 else 0
  {
    hide Numeral;
  }

  method Convert(buf: array<char>, start: nat, value: int) returns (length: nat)
    requires start + |Decimal(value)| < buf.Length
    modifies buf
    ensures length == |Decimal(value)|
    ensures buf[start..start + length] == Decimal(value) && buf[start + length] == '\0'
    ensures forall k :: 0 <= k < start ==> buf[k] == old(buf[k])
  {
    hide Decimal, Numeral, Quot, Rem, Reversed;
    DecimalLength(value);
    var i := value;
    var p := start;
    var more := true;
    while more
      invariant start <= p && p - start + |Pending(i, more, 10)| == |Numeral(Abs(value), 10)|
      invariant Numeral(Abs(value), 10) == Pending(i, more, 10) + Reversed(buf[start..p])
      invariant forall k :: 0 <= k < start ==> buf[k] == old(buf[k])
      decreases more, Abs(i)
    {
      PeelDigit(i);
      ghost var before, written := Pending(i, more, 10), buf[start..p];
      var lsd := Rem(i, 10);
      i := Quot(i, 10);
      buf[p] := DIGITS[ZERO + lsd];
      p := p + 1;
      more := i != 0;
      assert buf[start..p] == written + [DIGITS[ZERO + lsd]];
      DigitOut(before, Pending(i, more, 10), DIGITS[ZERO + lsd], written, buf[start..p]);
    }
    ghost var digits := buf[start..p];
    SignOut(value, digits);
    if value < 0 {
      buf[p] := '-';
      p := p + 1;
    }
    buf[p] := '\0';
    assert buf[start..p] == WithSign(value, digits);
    Reverse(buf, start, p);
    length := p - start;
  }

  method ConvertHex(buf: array<char>, start: nat, value: nat) returns (length: nat)
    requires start + |Numeral(value, 16)| < buf.Length
    modifies buf
    ensures length == |Numeral(value, 16)|
    ensures buf[start..start + length] == Numeral(value, 16) && buf[start + length] == '\0'
    ensures forall k :: 0 <= k < start ==> buf[k] == old(buf[k])
  {
    hide Numeral, Reversed;
    var i := value;
    var p := start;
    var more := true;
    while more
      invariant start <= p && p - start + |Pending(i, more, 16)| == |Numeral(value, 16)|
      invariant Numeral(value, 16) == Pending(i, more, 16) + Reversed(buf[start..p])
      invariant forall k :: 0 <= k < start ==> buf[k] == old(buf[k])
      decreases more, i
    {
      PeelHexDigit(i);
      ghost var before, written := Pending(i, more, 16), buf[start..p];
      var lsd := i % 16;
      i := i / 16;
      buf[p] := DIGITS_HEX[lsd];
      p := p + 1;
      more := i != 0;
      assert buf[start..p] == written + [DIGITS_HEX[lsd]];
      DigitOut(before, Pending(i, more, 16), DIGITS_HEX[lsd], written, buf[start..p]);
    }
    ghost var digits := buf[start..p];
    buf[p] := '\0';
    assert buf[start..p] == digits;
    Reverse(buf, start, p);
    length := p - start;
  }

  // ------------------------------------------------------------ fixed buffer

  class FixedBuffer {
    const data: array<char>
    var cur: nat

    ghost predicate Valid()
      reads this
    {
      cur < data.Length
    }

    ghost function Text(): string
      requires Valid()
      reads this, data
    {
      data[..cur]
    }

    constructor (size: nat)
      requires size > 0
      ensures Valid() && Text() == "" && data.Length == size && fresh(data)
    {
      data := new char[size](_ => '\0');
      cur := 0;
    }

    function Avail(): nat
      requires Valid()
      reads this
    {
      data.Length - cur
    }

    /** All of the text or, when it does not fit, none of it. */
    method Append(text: string)
      requires Valid()
      modifies this, data
      ensures Valid()
      ensures Text() == old(Text()) + if |text| < old(Avail()) then text else ""
    {
      if Avail() > |text| {
        forall i | 0 <= i < |text| {
          data[cur + i] := text[i];
        }
        cur := cur + |text|;
        assert data[..cur] == old(data[..cur]) + text;
      }
    }

    /** Counts in what was written at the current position. Nothing tests the
        length, so the caller must have kept it below what is free. */
    method Add(length: nat)
      requires Valid()
      modifies this`cur
      ensures cur == old(cur) + length
      ensures Valid() <==> length < old(Avail())
    {
      cur := cur + length;
    }

    method Reset()
      requires Valid()
      modifies this
      ensures Valid() && Text() == ""
    {
      cur := 0;
    }
  }

  class LogStream {
    const buffer: FixedBuffer

    constructor ()
      ensures buffer.Valid() && buffer.Text() == "" && buffer.data.Length == SMALL_BUFFER
      ensures fresh(buffer) && fresh(buffer.data)
    {
      buffer := new FixedBuffer(SMALL_BUFFER);
    }

    /** Integers and pointers only start with room for the longest of them, so
        the digits never pass the end of the buffer. */
    method FormatInteger(v: int)
      requires IsNumeric(v) && buffer.Valid()
      modifies buffer, buffer.data
      ensures buffer.Valid()
      ensures buffer.Text() == old(buffer.Text()) + if old(buffer.Avail()) >= MAX_NUMERIC_SIZE then Decimal(v) else ""
    {
      hide Decimal, Numeral;
      if buffer.Avail() >= MAX_NUMERIC_SIZE {
        DecimalFits(v);
        ghost var before := buffer.Text();
        var length := Convert(buffer.data, buffer.cur, v);
        assert buffer.data[..buffer.cur] == before;
        buffer.Add(length);
        assert buffer.Text() == before + Decimal(v);
      }
    }

    method FormatPointer(v: nat)
      requires IsAddress(v) && buffer.Valid()
      modifies buffer, buffer.data
      ensures buffer.Valid()
      ensures buffer.Text() == old(buffer.Text())
                             + if old(buffer.Avail()) >= MAX_NUMERIC_SIZE then "0x" + Numeral(v, 16) else ""
    {
      hide Numeral;
      if buffer.Avail() >= MAX_NUMERIC_SIZE {
        HexFits(v);
        ghost var before := buffer.Text();
        buffer.data[buffer.cur] := '0';
        buffer.data[buffer.cur + 1] := 'x';
        ghost var prefix := buffer.data[..buffer.cur + 2];
        assert prefix == before + "0x";
        var length := ConvertHex(buffer.data, buffer.cur + 2, v);
        assert buffer.data[..buffer.cur + 2] == prefix;
        buffer.Add(length + 2);
        assert buffer.Text() == prefix + Numeral(v, 16);
      }
    }
  }
}
