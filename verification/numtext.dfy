/** Integer, date and time text formatting of str.c. Every routine writes
    into a caller-supplied character array through a cursor; here the cursor
    is the array plus an offset `at`, and each routine is specified by the
    pure text function it produces. */
module NumText {
  import opened CTypes

  predicate IsDigit(c: char) { '0' <= c <= '9' }

  predicate AllDigits(s: string) { forall i :: 0 <= i < |s| ==> IsDigit(s[i]) }

  function DigitValue(c: char): nat
    requires IsDigit(c)
  {
    c as int - '0' as int
  }

  function DigitChar(d: nat): (c: char)
    requires d < 10
    ensures IsDigit(c) && DigitValue(c) == d
  {
    ('0' as int + d) as char
  }

  function Pow10(k: nat): (r: nat)
    ensures r >= 1
  {
    if k == 0 then 1 else 10 * Pow10(k - 1)
  }

  /** The decimal form of n: most significant digit first, no leading
      zero, "0" for zero. */
  function Decimal(n: nat): (r: string)
    ensures 1 <= |r| && AllDigits(r)
    ensures r[0] == '0' ==> n == 0
  {
    if n < 10 then [DigitChar(n)] else Decimal(n / 10) + [DigitChar(n % 10)]
  }

  /** The number a digit string denotes (leading zeros allowed). */
  function Value(s: string): nat
    requires AllDigits(s)
  {
    if |s| == 0 then 0 else 10 * Value(s[.. |s| - 1]) + DigitValue(s[|s| - 1])
  }

  /** Decimal and Value are inverse. */
  lemma {:induction false} DecimalRoundTrip(n: nat)
    ensures Value(Decimal(n)) == n
  {
    if n >= 10 {
      DecimalRoundTrip(n / 10);
      var r := Decimal(n);
      assert r[.. |r| - 1] == Decimal(n / 10);
    }
  }

  /** A leading zero does not change the value. */
  lemma {:induction false} ValueLeadingZero(s: string)
    requires AllDigits(s)
    ensures AllDigits("0" + s) && Value("0" + s) == Value(s)
  {
    var t := "0" + s;
    if |s| > 0 {
      assert t[.. |t| - 1] == "0" + s[.. |s| - 1];
      ValueLeadingZero(s[.. |s| - 1]);
    }
  }

  /** |Decimal(n)| is the number of decimal digits of n. */
  lemma {:induction false} DecimalLength(n: nat)
    ensures n < Pow10(|Decimal(n)|)
    ensures n > 0 ==> Pow10(|Decimal(n)| - 1) <= n
  {
    if n >= 10 {
      DecimalLength(n / 10);
    }
  }

  /** The digit count is determined by the power-of-ten bounds. */
  lemma {:induction false} DecimalLengthIs(n: nat, k: nat)
    requires 1 <= k && n < Pow10(k) && (k > 1 ==> Pow10(k - 1) <= n)
    ensures |Decimal(n)| == k
  {
    if k > 1 {
      DecimalLengthIs(n / 10, k - 1);
    }
  }

  /** At most k digits below 10^k. */
  lemma {:induction false} DecimalAtMost(x: nat, k: nat)
    requires 1 <= k && x < Pow10(k)
    ensures |Decimal(x)| <= k
  {
    if x >= 10 {
      DecimalAtMost(x / 10, k - 1);
    }
  }

  /** An unsigned 32-bit value has at most ten digits. */
  lemma DecimalShort(v: nat)
    requires IsUint32(v)
    ensures |Decimal(v)| <= 10
  {
    assert Pow10(10) == 10_000_000_000 by {
      assert Pow10(5) == 100_000;
      assert Pow10(10) == 100_000 * Pow10(5) by {
        assert Pow10(10) == 10 * (10 * (10 * (10 * (10 * Pow10(5)))));
      }
    }
    DecimalAtMost(v, 10);
  }

  /** The sign-and-digits text of a signed value. */
  function SignedText(v: int): (r: string)
    ensures |r| >= 1 && (r[0] == '-' <==> v < 0)
    ensures v < 0 ==> r[1 ..] == Decimal(-v)
    ensures v >= 0 ==> r == Decimal(v)
  {
    if v < 0 then "-" + Decimal(-v) else Decimal(v)
  }

  /** A signed 32-bit value prints in at most eleven bytes. */
  lemma SignedTextShort(v: int)
    requires IsInt32(v)
    ensures |SignedText(v)| <= 11
  {
    DecimalShort(Abs(v));
  }

  /** The two-digit table `digits` of 200 bytes, held as ten rows of 20:
      row t is the stretch of the table that covers the entries 10t .. 10t+9. */
  function DigitsRow(t: nat): (r: string)
    requires t < 10
    ensures |r| == 20
  {
    match t
    case 0 => "00010203040506070809"
    case 1 => "10111213141516171819"
    case 2 => "20212223242526272829"
    case 3 => "30313233343536373839"
    case 4 => "40414243444546474849"
    case 5 => "50515253545556575859"
    case 6 => "60616263646566676869"
    case 7 => "70717273747576777879"
    case 8 => "80818283848586878889"
    case 9 => "90919293949596979899"
  }

  /** The shape every row has: the tens digit t alternating with 0 .. 9. */
  function TensRow(t: nat): (r: string)
    requires t < 10
    ensures |r| == 20
  {
    var d := DigitChar(t);
    [d, '0', d, '1', d, '2', d, '3', d, '4', d, '5', d, '6', d, '7', d, '8', d, '9']
  }

  lemma RowsHaveTensShape(t: nat)
    requires t < 10
    ensures DigitsRow(t) == TensRow(t)
  {
  }

  lemma {:induction false} TensRowEntry(t: nat, u: nat)
    requires t < 10 && u < 10
    ensures TensRow(t)[2 * u] == DigitChar(t) && TensRow(t)[2 * u + 1] == DigitChar(u)
  {
    if u == 0 {} else if u == 1 {} else if u == 2 {} else if u == 3 {} else if u == 4 {}
    else if u == 5 {} else if u == 6 {} else if u == 7 {} else if u == 8 {}
  }

  /** Byte i of the table: even bytes hold the tens digit, odd bytes the
      units digit of entry i / 2 (DigitsRowsAgree checks this against the
      literal rows). */
  function Digits(i: nat): (c: char)
    requires i < 200
    ensures IsDigit(c)
  {
    if i % 2 == 0 then DigitChar(i / 20) else DigitChar(i / 2 % 10)
  }

  /** The literal rows of the table agree with Digits: entry k sits in
      row k / 10 at columns 2 (k % 10) and 2 (k % 10) + 1. */
  lemma DigitsRowsAgree(k: nat)
    requires k < 100
    ensures Digits(2 * k) == DigitsRow(k / 10)[2 * (k % 10)]
    ensures Digits(2 * k + 1) == DigitsRow(k / 10)[2 * (k % 10) + 1]
  {
    DigitsTable(k);
    RowsHaveTensShape(k / 10);
    TensRowEntry(k / 10, k % 10);
  }

  /** digits[2k] and digits[2k+1] are the tens and the units digit of k. */
  lemma DigitsTable(k: nat)
    requires k < 100
    ensures Digits(2 * k) == DigitChar(k / 10) && Digits(2 * k + 1) == DigitChar(k % 10)
  {
    assert (2 * k) % 2 == 0 && (2 * k) / 20 == k / 10;
    assert (2 * k + 1) % 2 == 1 && (2 * k + 1) / 2 == k;
  }

  /** xint_len: the number of decimal digits of |value|, 1 for zero. The
      loop divides with C's truncating division, so a negative value counts
      the digits of its magnitude. */
  method XintLen(value: int) returns (l: nat)
    ensures l == |Decimal(Abs(value))|
  {
    l := if value == 0 then 1 else 0;
    var v := value;
    while v != 0
      invariant v != 0 ==> l + |Decimal(Abs(v))| == |Decimal(Abs(value))|
      invariant v == 0 ==> l == |Decimal(Abs(value))|
      decreases Abs(v)
    {
      l := l + 1;
      v := CDiv(v, 10);
    }
  }

  /** The two characters of table entry k. */
  function Pair(k: nat): string
    requires k < 100
  {
    [DigitChar(k / 10), DigitChar(k % 10)]
  }

  /** Peeling two digits off the end of a number of three digits or more. */
  lemma DecimalLastTwo(v: nat)
    requires v >= 100
    ensures Decimal(v) == Decimal(v / 100) + Pair(v % 100)
  {
    assert v / 10 / 10 == v / 100;
    assert v / 10 % 10 == v % 100 / 10;
    assert v % 10 == v % 100 % 10;
    assert Decimal(v / 10) == Decimal(v / 100) + [DigitChar(v / 10 % 10)];
  }

  /** One turn of the emission loop on the bytes `a`: entry k of the table
      goes to a[next - 1] and a[next]. */
  function PairAt(a: seq<char>, next: nat, k: nat): seq<char>
    requires 1 <= next < |a| && k < 100
  {
    a[next := Digits(k * 2 + 1)][next - 1 := Digits(k * 2)]
  }

  /** What the emission loop of xultoa and xltoa leaves in `a` when it
      resumes with `v` still to write and its last digit due at `next`:
      a table entry per turn while v >= 100, then the one digit '0' + v or
      a last table entry. */
  function Emitted(a: seq<char>, next: nat, v: nat): seq<char>
    requires next < |a|
    decreases v
  {
    if v >= 100 then
      if next < 2 then a  // not reached: the buffer holds every digit
      else Emitted(PairAt(a, next, v % 100), next - 2, v / 100)
    else if v < 10 then
      a[next := ('0' as int + v) as char]
    else if next < 1 then a  // not reached
    else
      PairAt(a, next, v)
  }

  lemma PairWritten(a: seq<char>, next: nat, k: nat)
    requires 1 <= next < |a| && k < 100
    ensures PairAt(a, next, k) == Overlay(a, next - 1, Pair(k))
  {
    assert k * 2 == 2 * k;
    DigitsTable(k);
  }

  lemma OneWritten(a: seq<char>, at: nat, c: char)
    requires at < |a|
    ensures a[at := c] == Overlay(a, at, [c])
  {
  }

  /** The emission writes exactly the digits of v, the last one at next. */
  lemma {:induction false} EmittedPlaces(a: seq<char>, next: nat, v: nat)
    requires |Decimal(v)| <= next + 1 <= |a|
    ensures Emitted(a, next, v) == Overlay(a, next + 1 - |Decimal(v)|, Decimal(v))
    decreases v
  {
    if v >= 100 {
      EmittedTurn(a, next, v);
    } else if v >= 10 {
      assert Decimal(v) == Pair(v) by {
        assert Decimal(v / 10) == [DigitChar(v / 10)];
      }
      PairWritten(a, next, v);
    } else {
      assert Decimal(v) == [DigitChar(v)];
      OneWritten(a, next, DigitChar(v));
    }
  }

  /** A turn of the loop, then the rest of the emission by induction. */
  lemma {:induction false} EmittedTurn(a: seq<char>, next: nat, v: nat)
    requires v >= 100 && |Decimal(v)| <= next + 1 <= |a|
    ensures Emitted(a, next, v) == Overlay(a, next + 1 - |Decimal(v)|, Decimal(v))
    decreases v, 0
  {
    var k, d := v % 100, Decimal(v / 100);
    var f := next + 1 - |Decimal(v)|;
    assert Decimal(v) == d + Pair(k) by { DecimalLastTwo(v); }
    assert f + |d| + 2 == next + 1;
    var b := PairAt(a, next, k);
    assert Emitted(b, next - 2, v / 100) == Overlay(b, f, d) by { EmittedPlaces(b, next - 2, v / 100); }
    assert b == Overlay(a, f + |d|, Pair(k)) by { PairWritten(a, next, k); }
    OverlayAdjacentBackward(a, f, d, Pair(k));
  }

  /** Table entry k lands at dst[next - 1] and dst[next]: the loop passes
      value % 100 and the last step the value itself, below 100. */
  method EmitPair(dst: array<char>, next: nat, k: nat)
    requires 1 <= next < dst.Length && k < 100
    modifies dst
    ensures dst[..] == PairAt(old(dst[..]), next, k)
  {
    var i := k * 2;
    dst[next] := Digits(i + 1);
    dst[next - 1] := Digits(i);
  }

  /** The digit-emission loop that xultoa and xltoa share: the digits of
      `value` are written backwards so that the last one lands at dst[last]. */
  method EmitDigits(dst: array<char>, last: nat, value: nat)
    requires |Decimal(value)| <= last + 1 && last < dst.Length
    modifies dst
    ensures dst[..] == Overlay(old(dst[..]), last + 1 - |Decimal(value)|, Decimal(value))
  {
    ghost var goal := Emitted(dst[..], last, value);
    var v := value;
    var next := last;
    while v >= 100
      invariant |Decimal(v)| <= next + 1 <= last + 1
      invariant Emitted(dst[..], next, v) == goal
    {
      assert |Decimal(v / 100)| + 2 == |Decimal(v)| by { DecimalLastTwo(v); }
      EmitPair(dst, next, v % 100);
      v := v / 100;
      next := next - 2;
    }
    ghost var before := dst[..];
    if v < 10 {
      dst[next] := ('0' as int + v) as char;
      assert dst[..] == before[next := ('0' as int + v) as char];
    } else {
      EmitPair(dst, next, v);
    }
    assert dst[..] == Emitted(before, next, v);
    EmittedPlaces(old(dst[..]), last, value);
  }

  /** Whether xint_len, applied to the int32_t reinterpretation of an
      unsigned value, still counts its digits. */
  predicate XintLenAgrees(value: nat)
    requires IsUint32(value)
  {
    |Decimal(Abs(ToInt32(value)))| == |Decimal(value)|
  }

  /** Up to 2^31 - 1 the int32_t view is the value itself. */
  lemma XintLenAgreesBelow(value: nat)
    requires value < INT32_LIMIT
    ensures XintLenAgrees(value)
  {
    assert ToInt32(value) == value && Abs(value) == value;
  }

  /** xultoa as written: the length comes from xint_len on the value seen as
      int32_t, so it is right only where XintLenAgrees holds; elsewhere the
      write position runs off the front of dst. Writes the digits and a NUL
      from dst[at] on and returns the number of digits. */
  method Xultoa(value: nat, dst: array<char>, at: nat) returns (length: nat)
    requires IsUint32(value) && XintLenAgrees(value)
    requires at + |Decimal(value)| < dst.Length
    modifies dst
    ensures length == |Decimal(value)|
    ensures dst[..] == Overlay(old(dst[..]), at, Decimal(value) + [NUL])
  {
    length := XintLen(ToInt32(value));
    Terminate(dst, at, value, length);
  }

  /** The common tail of xultoa and xltoa: the digits of `value` end at
      dst[at + length - 1] and a NUL follows them. */
  method Terminate(dst: array<char>, at: nat, value: nat, length: nat)
    requires length == |Decimal(value)| && at + length < dst.Length
    modifies dst
    ensures dst[..] == Overlay(old(dst[..]), at, Decimal(value) + [NUL])
  {
    EmitDigits(dst, at + length - 1, value);
    ghost var before := dst[..];
    dst[at + length] := NUL;
    assert dst[..] == before[at + length := NUL];
    NulAfter(old(dst[..]), at, Decimal(value));
  }

  /** The unsigned values xultoa handles are exactly those up to
      2^32 - 10^9; 0xFFFFFFFF is counted as one digit instead of ten. */
  lemma XintLenAgreesIff(value: nat)
    requires IsUint32(value)
    ensures XintLenAgrees(value) <==> value <= 3_294_967_296
    ensures !XintLenAgrees(0xFFFF_FFFF)
  {
    XintLenAgreesHigh(0xFFFF_FFFF);
    if value >= INT32_LIMIT {
      XintLenAgreesHigh(value);
    } else {
      XintLenAgreesBelow(value);
    }
  }

  /** From 2^31 on the int32_t view is value - 2^32, whose magnitude has
      ten digits exactly when value is at most 2^32 - 10^9. */
  lemma XintLenAgreesHigh(value: nat)
    requires INT32_LIMIT <= value < UINT32_LIMIT
    ensures XintLenAgrees(value) <==> value <= 3_294_967_296
  {
    Pow10NineTen();
    DecimalLengthIs(value, 10);
    var w := UINT32_LIMIT - value;
    assert Abs(ToInt32(value)) == w;
    if value <= 3_294_967_296 {
      DecimalLengthIs(w, 10);
    } else {
      DecimalAtMost(w, 9);
    }
  }

  lemma Pow10NineTen()
    ensures Pow10(9) == 1_000_000_000 && Pow10(10) == 10_000_000_000
  {
    assert Pow10(3) == 1000;
    assert Pow10(6) == 1000 * Pow10(3) by { assert Pow10(6) == 10 * (10 * (10 * Pow10(3))); }
    assert Pow10(9) == 1000 * Pow10(6) by { assert Pow10(9) == 10 * (10 * (10 * Pow10(6))); }
  }

  /** strbf_putul hands its unsigned value to xltoa, which takes int32_t:
      the text is the value's decimal exactly below 2^31; from there on it
      is the text of value - 2^32, a minus sign first, so 0xFFFFFFFF reads
      "-1". */
  lemma SignedViewIff(v: nat)
    requires IsUint32(v)
    ensures SignedText(ToInt32(v)) == Decimal(v) <==> v < INT32_LIMIT
    ensures SignedText(ToInt32(0xFFFF_FFFF)) == "-1"
  {
    if v >= INT32_LIMIT {
      assert SignedText(ToInt32(v))[0] == '-';
      assert IsDigit(Decimal(v)[0]);
    }
    assert ToInt32(0xFFFF_FFFF) == -1;
    assert Decimal(1) == "1";
  }

  /** xultoa with the length counted on the unsigned value itself. */
  method XultoaIntended(value: nat, dst: array<char>, at: nat) returns (length: nat)
    requires IsUint32(value)
    requires at + |Decimal(value)| < dst.Length
    modifies dst
    ensures length == |Decimal(value)|
    ensures dst[..] == Overlay(old(dst[..]), at, Decimal(value) + [NUL])
  {
    length := XintLen(value);
    Terminate(dst, at, value, length);
  }

  /** xltoa: a '-' for a negative value, then the digits of its magnitude,
      then a NUL. INT32_MIN is excluded: its negation overflows. */
  method Xltoa(value: int, dst: array<char>, at: nat) returns (length: nat)
    requires IsInt32(value) && value != INT32_MIN
    requires at + |SignedText(value)| < dst.Length
    modifies dst
    ensures length == |SignedText(value)|
    ensures dst[..] == Overlay(old(dst[..]), at, SignedText(value) + [NUL])
  {
    length := XintLen(value);
    if value < 0 {
      ghost var before := dst[..];
      ghost var digits := Decimal(-value) + [NUL];
      dst[at] := '-';
      assert dst[..] == Overlay(before, at, "-") by {
        assert dst[..] == before[at := '-'];
        OneWritten(before, at, '-');
      }
      Terminate(dst, at + 1, -value, length);
      assert dst[..] == Overlay(before, at, SignedText(value) + [NUL]) by {
        OverlayAdjacent(before, at, "-", digits);
        assert "-" + digits == SignedText(value) + [NUL];
      }
      length := length + 1;
    } else {
      Terminate(dst, at, value, length);
    }
  }

  /** uint_to_char: the decimal text of f; zero takes the explicit "0"
      branch, which writes the same text as Decimal(0). Positive values go
      through xultoa as written, so f must be one whose length it counts
      right. */
  method UintToChar(f: nat, dst: array<char>, at: nat) returns (length: nat)
    requires IsUint32(f) && XintLenAgrees(f)
    requires at + |Decimal(f)| < dst.Length
    modifies dst
    ensures length == |Decimal(f)|
    ensures dst[..] == Overlay(old(dst[..]), at, Decimal(f) + [NUL])
  {
    if f > 0 {
      length := Xultoa(f, dst, at);
    } else {
      dst[at] := '0';
      dst[at + 1] := NUL;
      length := 1;
      TwoWritten(old(dst[..]), at, '0', NUL);
    }
  }

  /** The text int_to_char writes: the decimal digits of f when f is
      positive, and "0" for every other value, negative ones included. */
  function IntText(f: int): (r: string)
    ensures AllDigits(r) && Value(r) == (if f > 0 then f else 0)
    ensures f < 0 ==> r == "0"
  {
    var n := if f > 0 then f else 0;
    DecimalRoundTrip(n);
    Decimal(n)
  }

  /** int_to_char: xltoa for positive values, "0" otherwise. */
  method IntToChar(f: int, dst: array<char>, at: nat) returns (length: nat)
    requires IsInt32(f)
    requires at + |IntText(f)| < dst.Length
    modifies dst
    ensures length == |IntText(f)|
    ensures dst[..] == Overlay(old(dst[..]), at, IntText(f) + [NUL])
  {
    if f > 0 {
      assert IntText(f) == SignedText(f);
      length := Xltoa(f, dst, at);
    } else {
      assert IntText(f) == "0";
      dst[at] := '0';
      dst[at + 1] := NUL;
      length := 1;
      TwoWritten(old(dst[..]), at, '0', NUL);
    }
  }

  /** The text uint_to_char_pad_zero writes: a '0' before a single digit. */
  function PadText(f: nat): (r: string)
    ensures AllDigits(r) && |r| >= 2
  {
    (if f < 10 then "0" else "") + Decimal(f)
  }

  /** Below 100 the padded text is exactly two digits denoting f. */
  lemma PadTextTwoDigits(f: nat)
    requires f < 100
    ensures |PadText(f)| == 2 && Value(PadText(f)) == f
  {
    DecimalRoundTrip(f);
    if f < 10 {
      ValueLeadingZero(Decimal(f));
    } else {
      DecimalLengthIs(f, 2);
    }
  }

  /** uint_to_char_pad_zero */
  method UintToCharPadZero(f: nat, dst: array<char>, at: nat) returns (length: nat)
    requires IsUint8(f)
    requires at + |PadText(f)| < dst.Length
    modifies dst
    ensures length == |PadText(f)|
    ensures dst[..] == Overlay(old(dst[..]), at, PadText(f) + [NUL])
  {
    var p := at;
    if f < 10 {
      dst[p] := '0';
      p := p + 1;
      OneWritten(old(dst[..]), at, '0');
    }
    ghost var mid := dst[..];
    XintLenAgreesBelow(f);
    var n := UintToChar(f, dst, p);
    length := p + n - at;
    if f < 10 {
      OverlayAdjacent(old(dst[..]), at, "0", Decimal(f) + [NUL]);
      assert "0" + (Decimal(f) + [NUL]) == PadText(f) + [NUL];
    }
  }

  /** concat: the len bytes of src land at dst[dlen], then a NUL; returns the
      new length. */
  method Concat(dst: array<char>, dlen: nat, src: seq<char>, len: nat) returns (r: nat)
    requires len <= |src| && dlen + len < dst.Length
    modifies dst
    ensures r == dlen + len
    ensures dst[..] == Overlay(old(dst[..]), dlen, src[.. len] + [NUL])
  {
    MemCpy(dst, dlen, src, len);
    ghost var before := dst[..];
    r := dlen + len;
    dst[r] := NUL;
    NulAfter(old(dst[..]), dlen, src[.. len]);
  }

  /** Appending to a C string with concat yields the joined C string, when
      neither part holds a NUL. */
  lemma ConcatJoins(a: seq<char>, dlen: nat, src: seq<char>, len: nat)
    requires len <= |src| && dlen + len < |a|
    requires NoNul(a[.. dlen]) && NoNul(src[.. len])
    ensures CStr(Overlay(a, dlen, src[.. len] + [NUL])) == a[.. dlen] + src[.. len]
  {
    var b := Overlay(a, dlen, src[.. len] + [NUL]);
    var joined := a[.. dlen] + src[.. len];
    assert b == joined + [NUL] + a[dlen + len + 1 ..];
    assert NoNul(joined);
    StrLenOfNoNul(joined);
    CStrOfTerminated(joined, a[dlen + len + 1 ..]);
  }
}
