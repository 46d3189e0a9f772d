/** The time and date formatters of str.c. Each writes its text into a
    caller-supplied array from offset `at` and returns the number of
    characters written before the terminator. */
module DateTimeText {
  import opened CTypes
  import opened NumText

  /** "HH:MM" as time_to_char_hm writes it, from the two fields already
      narrowed to uint8_t. */
  function HmText(h: nat, m: nat): string
  {
    PadText(h) + ":" + PadText(m)
  }

  /** The fields written by the first i turns of time_to_char_hm's loop. */
  function HmFields(h: nat, m: nat, i: nat): string
    requires i <= 2
  {
    if i == 0 then "" else if i == 1 then PadText(h) else HmText(h, m)
  }

  /** Below 100 the time is five characters: two digits for each field
      around a colon, which read back as the fields. */
  lemma HmTextFields(h: nat, m: nat)
    requires h < 100 && m < 100
    ensures var r := HmText(h, m);
      |r| == 5 && r[2] == ':' && Value(r[.. 2]) == h && Value(r[3 ..]) == m
  {
    PadTextTwoDigits(h);
    PadTextTwoDigits(m);
    var r := HmText(h, m);
    assert r[.. 2] == PadText(h) && r[3 ..] == PadText(m);
  }

  /** time_to_char_hm: the int16_t fields are passed to the uint8_t
      parameter of uint_to_char_pad_zero, so each is reduced modulo 256. */
  method TimeToCharHm(h: int, m: int, dst: array<char>, at: nat) returns (length: nat)
    requires IsInt16(h) && IsInt16(m)
    requires at + |HmText(ToUint8(h), ToUint8(m))| < dst.Length
    modifies dst
    ensures length == |HmText(ToUint8(h), ToUint8(m))|
    ensures dst[..] == Overlay(old(dst[..]), at, HmText(ToUint8(h), ToUint8(m)) + [NUL])
  {
    ghost var a := dst[..];
    ghost var h8, m8 := ToUint8(h), ToUint8(m);
    var p := at;
    var i := 0;
    while i < 2
      invariant i <= 2 && p == at + |HmFields(h8, m8, i)|
      invariant i == 0 ==> dst[..] == a
      invariant i > 0 ==> dst[..] == Overlay(a, at, HmFields(h8, m8, i) + [NUL])
    {
      ghost var done := HmFields(h8, m8, i);
      if i > 0 {
        dst[p] := ':';
        p := p + 1;
        OverlayThenByte(a, at, done, [NUL], ':');
      }
      ghost var field := PadText(if i == 0 then h8 else m8);
      var n := UintToCharPadZero(ToUint8(if i == 0 then h else m), dst, p);
      if i > 0 {
        OverlayAdjacent(a, at, done + ":", field + [NUL]);
        assert done + ":" + (field + [NUL]) == HmFields(h8, m8, i + 1) + [NUL];
      } else {
        assert dst[..] == Overlay(a, at, HmFields(h8, m8, 1) + [NUL]);
      }
      p := p + n;
      i := i + 1;
    }
    length := p - at;
  }

  /** "HH:MM:SS" as time_to_char_hms writes it. */
  function HmsText(h: nat, m: nat, s: nat): string
  {
    HmText(h, m) + ":" + PadText(s)
  }

  /** Below 100 each field takes two digits, so the time is eight
      characters that read back as the three fields. */
  lemma HmsTextFields(h: nat, m: nat, s: nat)
    requires h < 100 && m < 100 && s < 100
    ensures var r := HmsText(h, m, s);
      |r| == 8 && r[2] == ':' && r[5] == ':' &&
      Value(r[.. 2]) == h && Value(r[3 .. 5]) == m && Value(r[6 ..]) == s
  {
    HmTextFields(h, m);
    PadTextTwoDigits(s);
    var r := HmsText(h, m, s);
    var hm := HmText(h, m);
    assert r[.. 2] == hm[.. 2] && r[3 .. 5] == hm[3 ..] && r[6 ..] == PadText(s);
  }

  /** time_to_char_hms */
  method TimeToCharHms(h: nat, m: nat, s: nat, dst: array<char>, at: nat) returns (length: nat)
    requires IsUint8(h) && IsUint8(m) && IsUint8(s)
    requires at + |HmsText(h, m, s)| < dst.Length
    modifies dst
    ensures length == |HmsText(h, m, s)|
    ensures dst[..] == Overlay(old(dst[..]), at, HmsText(h, m, s) + [NUL])
  {
    ghost var a := dst[..];
    var p := at;
    var n := TimeToCharHm(h, m, dst, p);
    p := p + n;
    dst[p] := ':';
    p := p + 1;
    OverlayThenByte(a, at, HmText(h, m), [NUL], ':');
    n := UintToCharPadZero(s, dst, p);
    p := p + n;
    OverlayAdjacent(a, at, HmText(h, m) + ":", PadText(s) + [NUL]);
    assert HmText(h, m) + ":" + (PadText(s) + [NUL]) == HmsText(h, m, s) + [NUL];
    length := p - at;
  }

  /** The year field: "0000" for zero, and a year from 100 to 1900 taken
      as counted from 1900 (so 124 is 2024); any other year as it is. */
  function YearText(t: nat): (r: string)
    ensures |r| >= 1 && AllDigits(r)
  {
    if t == 0 then "0000" else Decimal(if 99 < t <= 1900 then t + 1900 else t)
  }

  /** Whether turn i of date_to_char's loop writes the year: only formats
      0 and 1 have a year slot. */
  predicate IsYearSlot(format: nat, i: nat)
  {
    (format == 1 && i == 0) || (format == 0 && i == 2)
  }

  function DateSeparator(format: nat): char
  {
    if format == 1 then '-' else '.'
  }

  /** The three fields in output order, narrowed to uint16_t. */
  function DateOrder(d: int, m: int, y: int, format: nat): (t: seq<nat>)
    ensures |t| == 3
  {
    if format == 1 then [ToUint16(y), ToUint16(m), ToUint16(d)]
    else [ToUint16(d), ToUint16(m), ToUint16(y)]
  }

  /** The text of one field; a field that is not the year is zero-padded
      below 10. */
  function DateField(t: nat, year: bool): string
  {
    if year then YearText(t) else PadText(t)
  }

  /** The three field texts in output order. */
  function DateFieldTexts(d: int, m: int, y: int, format: nat): (f: seq<string>)
    ensures |f| == 3
  {
    var t := DateOrder(d, m, y, format);
    [DateField(t[0], IsYearSlot(format, 0)), DateField(t[1], IsYearSlot(format, 1)),
     DateField(t[2], IsYearSlot(format, 2))]
  }

  /** The first i of the texts f, with c between neighbours. */
  function Joined(f: seq<string>, c: char, i: nat): string
    requires i <= |f|
  {
    if i == 0 then ""
    else Joined(f, c, i - 1) + (if i > 1 then [c] else []) + f[i - 1]
  }

  lemma {:induction false} JoinedGrows(f: seq<string>, c: char, i: nat, j: nat)
    requires i <= j <= |f|
    ensures |Joined(f, c, i)| <= |Joined(f, c, j)|
    decreases j
  {
    if i < j {
      JoinedGrows(f, c, i, j - 1);
    }
  }

  function DateText(d: int, m: int, y: int, format: nat): string
  {
    Joined(DateFieldTexts(d, m, y, format), DateSeparator(format), 3)
  }

  /** The bytes after the date: no terminator when format 0 ends in the
      year 0. */
  function DateEnd(d: int, m: int, y: int, format: nat): seq<char>
  {
    if format == 0 && ToUint16(y) == 0 then [] else [NUL]
  }

  /** The body of date_to_char's loop for one field: "0000" for a zero
      year, copied without a terminator; otherwise the year (adjusted) or
      the padded field through uint_to_char or uint_to_char_pad_zero. */
  method PutDateField(t: nat, year: bool, dst: array<char>, p: nat, ghost field: string, ghost end: seq<char>)
    returns (n: nat)
    requires t < 0x1_0000 && field == DateField(t, year) && end == FieldTerminator(t, year)
    requires p + |field| + |end| <= dst.Length
    modifies dst
    ensures n == |field|
    ensures dst[..] == Overlay(old(dst[..]), p, field + end)
  {
    if year {
      if t == 0 {
        MemCpy(dst, p, "0000", 4);
        n := 4;
        assert DateField(t, year) + FieldTerminator(t, year) == "0000"[.. 4];
      } else {
        XintLenAgreesBelow(if t > 99 && t <= 1900 then t + 1900 else t);
        n := UintToChar(if t > 99 && t <= 1900 then t + 1900 else t, dst, p);
        assert DateField(t, year) == Decimal(if t > 99 && t <= 1900 then t + 1900 else t);
      }
    } else if t < 10 {
      n := UintToCharPadZero(t, dst, p);
    } else {
      XintLenAgreesBelow(t);
      n := UintToChar(t, dst, p);
      assert DateField(t, year) == Decimal(t);
    }
  }

  function FieldTerminator(t: nat, year: bool): seq<char>
  {
    if year && t == 0 then [] else [NUL]
  }

  /** A field and its terminator written right after the text before it
      extend that text. */
  lemma Appended(a: seq<char>, at: nat, x: seq<char>, pos: nat, f: seq<char>, e: seq<char>, joined: seq<char>)
    requires pos == at + |x| && pos + |f| + |e| <= |a| && joined == x + f
    ensures Overlay(Overlay(a, at, x), pos, f + e) == Overlay(a, at, joined + e)
  {
    OverlayAdjacent(a, at, x, f + e);
    assert x + (f + e) == joined + e;
  }

  /** The terminators written after each of the three fields. */
  function DateEnds(d: int, m: int, y: int, format: nat): (e: seq<seq<char>>)
    ensures |e| == 3
  {
    var t := DateOrder(d, m, y, format);
    [FieldTerminator(t[0], IsYearSlot(format, 0)), FieldTerminator(t[1], IsYearSlot(format, 1)),
     FieldTerminator(t[2], IsYearSlot(format, 2))]
  }

  function Separator(i: nat, separator: char): seq<char>
  {
    if i > 0 then [separator] else []
  }

  /** One turn of date_to_char's loop: the separator before every field but
      the first, stored over the previous field's terminator (`prev`), then
      the field. The texts are those the earlier turns joined, so the turn
      extends the written text by one field. */
  method DateStep(t: nat, year: bool, dst: array<char>, p: nat, i: nat, separator: char,
                  at: nat, ghost a: seq<char>, ghost fields: seq<string>, ghost ends: seq<seq<char>>,
                  ghost prev: seq<char>)
    returns (q: nat)
    requires t < 0x1_0000 && i < |fields| && i < |ends| && |a| == dst.Length && |prev| <= 1
    requires fields[i] == DateField(t, year) && ends[i] == FieldTerminator(t, year)
    requires p == at + |Joined(fields, separator, i)|
    requires at + |Joined(fields, separator, i + 1)| + |ends[i]| <= dst.Length
    requires i == 0 ==> prev == []
    requires dst[..] == Overlay(a, at, Joined(fields, separator, i) + prev)
    modifies dst
    ensures q == at + |Joined(fields, separator, i + 1)|
    ensures dst[..] == Overlay(a, at, Joined(fields, separator, i + 1) + ends[i])
  {
    ghost var done := Joined(fields, separator, i);
    ghost var lead := done + Separator(i, separator);
    assert Joined(fields, separator, i + 1) == lead + fields[i];
    q := PutSeparator(dst, p, i, separator, at, a, done, prev);
    var n := PutDateField(t, year, dst, q, fields[i], ends[i]);
    Appended(a, at, lead, q, fields[i], ends[i], Joined(fields, separator, i + 1));
    q := q + n;
  }

  /** The separator date_to_char stores before every field but the first,
      over the terminator of the field before it (`prev`). */
  method PutSeparator(dst: array<char>, p: nat, i: nat, separator: char, at: nat,
                      ghost a: seq<char>, ghost done: string, ghost prev: seq<char>)
    returns (q: nat)
    requires |a| == dst.Length && p == at + |done| && p < dst.Length && |prev| <= 1 && p + |prev| <= |a|
    requires i == 0 ==> prev == []
    requires dst[..] == Overlay(a, at, done + prev)
    modifies dst
    ensures q == p + |Separator(i, separator)|
    ensures dst[..] == Overlay(a, at, done + Separator(i, separator))
  {
    q := p;
    if i > 0 {
      StoreAfter(dst, at, q, separator, a, done, prev);
      q := q + 1;
    } else {
      assert done + prev == done + Separator(i, separator);
    }
  }

  /** The head of date_to_char's loop: the value of field i, narrowed to
      uint16_t, and whether it is the year. */
  method PickField(d: int, m: int, y: int, format: nat, i: nat) returns (t: nat, year: bool)
    requires i < 3
    ensures t < 0x1_0000 && year == IsYearSlot(format, i)
    ensures DateFieldTexts(d, m, y, format)[i] == DateField(t, year)
    ensures DateEnds(d, m, y, format)[i] == FieldTerminator(t, year)
  {
    if format == 1 {
      t := ToUint16(if i == 0 then y else if i == 1 then m else d);
    } else {
      t := ToUint16(if i == 0 then d else if i == 1 then m else y);
    }
    year := (format == 1 && i == 0) || (format == 0 && i == 2);
    assert t == DateOrder(d, m, y, format)[i];
  }

  lemma LastEnd(d: int, m: int, y: int, format: nat)
    ensures DateEnds(d, m, y, format)[2] == DateEnd(d, m, y, format)
  {
  }

  /** Room for the whole date and its last terminator is room for the
      first i + 1 fields and the terminator of field i, which a separator
      or the last terminator overwrites or follows. */
  lemma FieldRoom(f: seq<string>, c: char, e: seq<seq<char>>, i: nat, room: nat)
    requires |f| == 3 && |e| == 3 && i < 3 && |e[i]| <= 1
    requires |Joined(f, c, 3)| + |e[2]| <= room
    ensures |Joined(f, c, i + 1)| + |e[i]| <= room
  {
    if i < 2 {
      JoinedGrows(f, c, i + 2, 3);
      assert |Joined(f, c, i + 2)| == |Joined(f, c, i + 1)| + 1 + |f[i + 1]|;
    }
  }

  /** date_to_char */
  method DateToChar(d: int, m: int, y: int, format: nat, dst: array<char>, at: nat) returns (length: nat)
    requires IsInt16(d) && IsInt16(m) && IsInt16(y) && IsUint8(format)
    requires at + |DateText(d, m, y, format)| + |DateEnd(d, m, y, format)| <= dst.Length
    modifies dst
    ensures length == |DateText(d, m, y, format)|
    ensures dst[..] == Overlay(old(dst[..]), at, DateText(d, m, y, format) + DateEnd(d, m, y, format))
  {
    var separator := if format == 1 then '-' else '.';
    LastEnd(d, m, y, format);
    var p := DateFields(d, m, y, format, separator, dst, at, DateFieldTexts(d, m, y, format), DateEnds(d, m, y, format));
    length := p - at;
  }

  /** date_to_char's loop over the three fields: the fields joined by the
      separator, then the last field's terminator. */
  method DateFields(d: int, m: int, y: int, format: nat, separator: char, dst: array<char>, at: nat,
                    ghost fields: seq<string>, ghost ends: seq<seq<char>>)
    returns (p: nat)
    requires fields == DateFieldTexts(d, m, y, format) && ends == DateEnds(d, m, y, format)
    requires at + |Joined(fields, separator, 3)| + |ends[2]| <= dst.Length
    modifies dst
    ensures p == at + |Joined(fields, separator, 3)|
    ensures dst[..] == Overlay(old(dst[..]), at, Joined(fields, separator, 3) + ends[2])
  {
    ghost var a := dst[..];
    p := at;
    var i := 0;
    ghost var prev: seq<char> := [];
    assert |ends[0]| <= 1 && |ends[1]| <= 1 && |ends[2]| <= 1;
    assert Overlay(a, at, Joined(fields, separator, 0) + prev) == a;
    while i < 3
      invariant i <= 3 && p == at + |Joined(fields, separator, i)|
      invariant |prev| <= 1 && (i == 0 ==> prev == []) && (i > 0 ==> prev == ends[i - 1])
      invariant dst[..] == Overlay(a, at, Joined(fields, separator, i) + prev)
    {
      var t, year := PickField(d, m, y, format, i);
      FieldRoom(fields, separator, ends, i, dst.Length - at);
      p := DateStep(t, year, dst, p, i, separator, at, a, fields, ends, prev);
      prev := ends[i];
      i := i + 1;
    }
  }

  /** The date as three fields around two separators, in the order the
      format selects. */
  lemma DateTextFields(d: int, m: int, y: int, format: nat)
    ensures format == 1 ==> (DateText(d, m, y, format) ==
      YearText(ToUint16(y)) + "-" + PadText(ToUint16(m)) + "-" + PadText(ToUint16(d)))
    ensures format != 1 ==> (DateText(d, m, y, format) ==
      PadText(ToUint16(d)) + "." + PadText(ToUint16(m)) + "." + DateField(ToUint16(y), format == 0))
  {
    var f := DateFieldTexts(d, m, y, format);
    var c := DateSeparator(format);
    assert Joined(f, c, 3) == f[0] + [c] + f[1] + [c] + f[2] by {
      assert Joined(f, c, 1) == f[0];
    }
  }

  /** A year from 100 to 1900 is printed as four digits denoting year + 1900. */
  lemma YearTextCentury(y: nat)
    requires 100 <= y <= 1900
    ensures |YearText(y)| == 4 && Value(YearText(y)) == y + 1900
  {
    assert Pow10(3) == 1000 && Pow10(4) == 10000;
    DecimalLengthIs(y + 1900, 4);
    DecimalRoundTrip(y + 1900);
  }

  /** Format 0 writes DD.MM.YYYY: day and month padded to two digits, a year
      from 100 to 1900 counted from 1900. */
  lemma DateTextDayFirst(d: int, m: int, y: int)
    requires 0 <= d < 100 && 0 <= m < 100 && 100 <= y <= 1900
    ensures var r := DateText(d, m, y, 0);
      |r| == 10 && r[2] == '.' && r[5] == '.' &&
      AllDigits(r[.. 2]) && Value(r[.. 2]) == d &&
      AllDigits(r[3 .. 5]) && Value(r[3 .. 5]) == m &&
      AllDigits(r[6 ..]) && Value(r[6 ..]) == y + 1900
    ensures DateEnd(d, m, y, 0) == [NUL]
  {
    PadTextTwoDigits(d);
    PadTextTwoDigits(m);
    YearTextCentury(y);
    DateTextFields(d, m, y, 0);
    FieldSlices(PadText(d), PadText(m), YearText(y), '.', DateText(d, m, y, 0));
  }

  /** Format 1 writes YYYY-MM-DD. */
  lemma DateTextYearFirst(d: int, m: int, y: int)
    requires 0 <= d < 100 && 0 <= m < 100 && 100 <= y <= 1900
    ensures var r := DateText(d, m, y, 1);
      |r| == 10 && r[4] == '-' && r[7] == '-' &&
      AllDigits(r[.. 4]) && Value(r[.. 4]) == y + 1900 &&
      AllDigits(r[5 .. 7]) && Value(r[5 .. 7]) == m &&
      AllDigits(r[8 ..]) && Value(r[8 ..]) == d
    ensures DateEnd(d, m, y, 1) == [NUL]
  {
    PadTextTwoDigits(d);
    PadTextTwoDigits(m);
    YearTextCentury(y);
    DateTextFields(d, m, y, 1);
    FieldSlices(YearText(y), PadText(m), PadText(d), '-', DateText(d, m, y, 1));
  }

  /** Where the three fields and two separators of a date lie. */
  lemma FieldSlices(a: string, b: string, c: string, s: char, r: string)
    requires r == a + [s] + b + [s] + c
    ensures |r| == |a| + |b| + |c| + 2
    ensures r[.. |a|] == a && r[|a|] == s && r[|a| + 1 .. |a| + 1 + |b|] == b
    ensures r[|a| + 1 + |b|] == s && r[|a| + |b| + 2 ..] == c
  {
  }

  /** A zero year is copied as "0000"; in format 0 it ends the date, which
      is then left without a terminator. */
  lemma DateTextZeroYear(d: int, m: int)
    requires 0 <= d < 100 && 0 <= m < 100
    ensures DateText(d, m, 0, 0) == PadText(d) + "." + PadText(m) + "." + "0000"
    ensures DateText(d, m, 0, 1) == "0000" + "-" + PadText(m) + "-" + PadText(d)
    ensures DateEnd(d, m, 0, 0) == [] && DateEnd(d, m, 0, 1) == [NUL]
  {
    DateTextFields(d, m, 0, 0);
    DateTextFields(d, m, 0, 1);
  }

  /** Formats other than 0 and 1 have no year slot: the year is printed
      like day and month, neither adjusted nor written as "0000". */
  lemma DateTextOtherFormat(d: int, m: int, y: int, format: nat)
    requires 0 <= d < 100 && 0 <= m < 100 && 0 <= y < 0x1_0000 && 2 <= format
    ensures DateText(d, m, y, format) == PadText(d) + "." + PadText(m) + "." + PadText(y)
    ensures DateEnd(d, m, y, format) == [NUL]
  {
    DateTextFields(d, m, y, format);
  }

  /** 11 October 2024, stored with the year counted from 1900. */
  lemma DateTextExamples(d: int, m: int, y: int)
    requires d == 11 && m == 10 && y == 124
    ensures DateText(d, m, y, 0) == "11" + "." + "10" + "." + "2024"
    ensures DateText(d, m, y, 1) == "2024" + "-" + "10" + "-" + "11"
    ensures DateText(d, m, y, 2) == "11" + "." + "10" + "." + "124"
  {
    assert ToUint16(d) == d && ToUint16(m) == m && ToUint16(y) == y;
    assert PadText(d) == "11" && PadText(m) == "10";
    var year := YearText(y);
    assert year == "2024" by {
      assert Decimal(20) == "20";
      assert Decimal(202) == "202";
    }
    var padded := PadText(y);
    assert padded == "124" by {
      assert Decimal(12) == "12";
    }
    assert DateText(d, m, y, 0) == "11" + "." + "10" + "." + year by {
      DateTextFields(d, m, y, 0);
    }
    assert DateText(d, m, y, 1) == year + "-" + "10" + "-" + "11" by {
      DateTextFields(d, m, y, 1);
    }
    assert DateText(d, m, y, 2) == "11" + "." + "10" + "." + padded by {
      DateTextFields(d, m, y, 2);
    }
  }

  /** The template sec_to_hms_str copies before writing any field. */
  const HmsTemplate: seq<char> := "00:00:00" + [NUL]

  /** Where the digits of a field start, relative to the field's slot: one
      place in for a single digit, so the template's '0' stays in front. */
  function FieldStart(x: nat): nat
  {
    if x < 10 then 1 else 0
  }

  /** One field of sec_to_hms_str written over t: when x is non-zero, the
      digits xultoa writes into the slot at `base` (one place in below 10,
      so the template's '0' stays in front) and the byte that follows them,
      `after`: the ':' stored over xultoa's NUL, or that NUL itself. */
  function FieldAt(t: seq<char>, base: nat, x: nat, after: char): (r: seq<char>)
    requires base + FieldStart(x) + |Decimal(x)| < |t|
    ensures |r| == |t|
  {
    if x > 0 then Overlay(t, base + FieldStart(x), Decimal(x) + [after]) else t
  }

  /** The nine bytes sec_to_hms_str leaves for hours h, minutes m and
      seconds s written over the template. */
  function HmsFields(h: nat, m: nat, s: nat): (r: seq<char>)
    requires h < 0x1_0000 && m < 100 && s < 100
    ensures |r| == 9
  {
    assert Pow10(2) == 100 && Pow10(5) == 100000;
    DecimalAtMost(h, 5);
    DecimalAtMost(m, 2);
    DecimalAtMost(s, 2);
    FieldAt(FieldAt(FieldAt(HmsTemplate, 0, h, ':'), 3, m, ':'), 6, s, NUL)
  }

  /** The bytes for `sec` seconds: the hours are narrowed to uint16_t. */
  function HmsBytes(sec: nat): (r: seq<char>)
    requires IsUint32(sec)
    ensures |r| == 9
  {
    HmsFields(ToUint16(sec / 3600), sec / 60 % 60, sec % 60)
  }

  /** Below 100, a field written over "00" followed by c leaves the field
      zero-padded to two digits, followed by c. */
  lemma FieldPadded(t: seq<char>, base: nat, x: nat, c: char)
    requires x < 100 && base + 3 <= |t| && t[base] == '0' && t[base + 1] == '0' && t[base + 2] == c
    ensures FieldStart(x) + |Decimal(x)| == 2
    ensures FieldAt(t, base, x, c) == Overlay(t, base, PadText(x) + [c])
  {
    PadTextTwoDigits(x);
    if x == 0 {
      assert Overlay(t, base, PadText(x) + [c]) == t;
    } else if x < 10 {
      assert Overlay(t, base, "0") == t;
      OverlayAdjacent(t, base, "0", Decimal(x) + [c]);
      assert "0" + (Decimal(x) + [c]) == PadText(x) + [c];
    }
  }

  /** The template as the hour's "00" slot and its colon, before the rest. */
  lemma HmsTemplateSlots()
    ensures HmsTemplate == [] + "00" + [':'] + ("00:00" + [NUL])
  {
  }

  /** A field below 100 written into the "00" slot at `base` of t, followed
      by c: the slot then holds the field zero-padded to two digits. */
  lemma SlotPadded(t: seq<char>, base: nat, x: nat, c: char, p: seq<char>, rest: seq<char>)
    requires x < 100 && t == p + "00" + [c] + rest && base == |p|
    ensures FieldStart(x) + |Decimal(x)| == 2
    ensures FieldAt(t, base, x, c) == p + PadText(x) + [c] + rest
  {
    FieldPadded(t, |p|, x, c);
    assert t[.. |p|] == p && t[|p| + 3 ..] == rest;
  }

  /** The hour written over the template: "HH:00:00" and the NUL. */
  lemma HmsHourSlot(h: nat)
    requires h < 100
    ensures FieldStart(h) + |Decimal(h)| == 2
    ensures FieldAt(HmsTemplate, 0, h, ':') == PadText(h) + ":00:00" + [NUL]
  {
    HmsTemplateSlots();
    SlotPadded(HmsTemplate, 0, h, ':', [], "00:00" + [NUL]);
    assert [] + PadText(h) + [':'] + ("00:00" + [NUL]) == PadText(h) + ":00:00" + [NUL];
  }

  /** The minutes written after a two-character hour. */
  lemma HmsMinuteSlot(a: string, m: nat)
    requires |a| == 2 && m < 100
    ensures FieldStart(m) + |Decimal(m)| == 2
    ensures FieldAt(a + ":00:00" + [NUL], 3, m, ':') == a + ":" + PadText(m) + ":00" + [NUL]
  {
    var p, rest := a + ":", "00" + [NUL];
    assert a + ":00:00" + [NUL] == p + "00" + [':'] + rest;
    SlotPadded(a + ":00:00" + [NUL], 3, m, ':', p, rest);
    assert p + PadText(m) + [':'] + rest == a + ":" + PadText(m) + ":00" + [NUL];
  }

  /** The seconds written after a five-character "HH:MM", with xultoa's
      NUL left after them. */
  lemma HmsSecondSlot(a: string, s: nat)
    requires |a| == 5 && s < 100
    ensures FieldStart(s) + |Decimal(s)| == 2
    ensures FieldAt(a + ":00" + [NUL], 6, s, NUL) == a + ":" + PadText(s) + [NUL]
  {
    assert a + ":00" + [NUL] == a + ":" + "00" + [NUL] + [];
    SlotPadded(a + ":00" + [NUL], 6, s, NUL, a + ":", []);
    assert a + ":" + PadText(s) + [NUL] + [] == a + ":" + PadText(s) + [NUL];
  }

  /** Hours, minutes and seconds below 100 give "HH:MM:SS" and its
      terminator. */
  lemma HmsFieldsPadded(h: nat, m: nat, s: nat)
    requires h < 100 && m < 100 && s < 100
    ensures HmsFields(h, m, s) == HmsText(h, m, s) + [NUL]
  {
    PadTextTwoDigits(h);
    PadTextTwoDigits(m);
    HmsHourSlot(h);
    HmsMinuteSlot(PadText(h), m);
    HmsSecondSlot(HmText(h, m), s);
  }

  /** sec_to_hms_str on fewer than 100 hours writes "HH:MM:SS". */
  lemma SecToHmsPadded(sec: nat)
    requires sec < 360000
    ensures HmsBytes(sec) == HmsText(sec / 3600, sec / 60 % 60, sec % 60) + [NUL]
  {
    HmsFieldsPadded(sec / 3600, sec / 60 % 60, sec % 60);
  }

  /** A field that ends before index 8 and is followed by a byte other than
      NUL keeps the first eight bytes free of NUL and the terminator at 8;
      so does one whose own NUL lands at 8. */
  lemma FieldKeepsTerminator(t: seq<char>, base: nat, x: nat, c: char)
    requires |t| == 9 && t[8] == NUL && NoNul(t[.. 8])
    requires x > 0 && c == NUL ==> base + FieldStart(x) + |Decimal(x)| == 8
    requires c != NUL ==> base + FieldStart(x) + |Decimal(x)| < 8
    requires base + FieldStart(x) + |Decimal(x)| <= 8
    ensures var r := FieldAt(t, base, x, c); r[8] == NUL && NoNul(r[.. 8])
  {
    if x > 0 {
      var r := FieldAt(t, base, x, c);
      var p := base + FieldStart(x);
      forall i | 0 <= i < 8
        ensures r[i] != NUL
      {
        if p <= i < p + |Decimal(x)| {
          assert r[i] == Decimal(x)[i - p];
        } else if i == p + |Decimal(x)| {
          assert r[i] == c;
        } else {
          assert r[i] == t[i];
        }
      }
    }
  }

  /** Every result has exactly eight characters before its terminator, the
      length sec_to_hms_str reports, whatever the hours. */
  lemma HmsFieldsTerminated(h: nat, m: nat, s: nat)
    requires h < 0x1_0000 && m < 100 && s < 100
    ensures StrLen(HmsFields(h, m, s)) == 8
  {
    var t0 := HmsTemplate;
    assert NoNul(t0[.. 8]) && t0[8] == NUL;
    assert Pow10(2) == 100 && Pow10(5) == 100000;
    DecimalAtMost(h, 5);
    PadTextTwoDigits(m);
    PadTextTwoDigits(s);
    FieldKeepsTerminator(t0, 0, h, ':');
    var t1 := FieldAt(t0, 0, h, ':');
    FieldKeepsTerminator(t1, 3, m, ':');
    var t2 := FieldAt(t1, 3, m, ':');
    FieldKeepsTerminator(t2, 6, s, NUL);
    var t3 := FieldAt(t2, 6, s, NUL);
    assert t3 == HmsFields(h, m, s);
    StrLenAt(t3, 8);
  }

  /** sec_to_hms_str's string is always 8 characters long, the length it
      returns. */
  lemma SecToHmsLength(sec: nat)
    requires IsUint32(sec)
    ensures StrLen(HmsBytes(sec)) == 8
  {
    HmsFieldsTerminated(ToUint16(sec / 3600), sec / 60 % 60, sec % 60);
  }

  /** 3661 seconds read "01:01:01". */
  lemma SecToHmsHourMinuteSecond(sec: nat)
    requires sec == 3661
    ensures HmsBytes(sec) == "01" + ":" + "01" + ":" + "01" + [NUL]
  {
    SecToHmsPadded(sec);
    assert sec / 3600 == 1 && sec / 60 % 60 == 1 && sec % 60 == 1;
    assert PadText(1) == "01";
    assert HmsText(1, 1, 1) == "01" + ":" + "01" + ":" + "01";
  }

  /** Zero seconds leave the template: "00:00:00". */
  lemma SecToHmsZero(sec: nat)
    requires sec == 0
    ensures HmsBytes(sec) == "00" + ":" + "00" + ":" + "00" + [NUL]
  {
    SecToHmsPadded(sec);
    assert PadText(0) == "00";
  }

  /** Text written over a part of the same length replaces that part. */
  lemma OverlayMiddle(p: seq<char>, q: seq<char>, r: seq<char>, x: seq<char>)
    requires |q| == |x|
    ensures Overlay(p + q + r, |p|, x) == p + x + r
  {
    var a := p + q + r;
    assert a[.. |p|] == p && a[|p| + |x| ..] == r;
  }

  /** 100 hours written over the template. */
  lemma HundredHoursField()
    ensures FieldAt(HmsTemplate, 0, 100, ':') == "100" + ":" + "0:00" + [NUL]
  {
    assert Decimal(100) == "100" by {
      assert Decimal(10) == "10";
    }
    assert HmsTemplate == [] + "00:0" + ("0:00" + [NUL]);
    OverlayMiddle([], "00:0", "0:00" + [NUL], "100" + ":");
  }

  /** From 100 hours on, the hours take more than two places: 100 hours
      reads "100:0:00". */
  lemma SecToHmsHundredHours(sec: nat)
    requires sec == 360000
    ensures HmsBytes(sec) == "100" + ":" + "0:00" + [NUL]
  {
    assert sec / 3600 == 100 && sec / 60 % 60 == 0 && sec % 60 == 0;
    assert HmsBytes(sec) == HmsFields(100, 0, 0);
    HundredHoursField();
  }

  /** ... and the minutes run into them: 100 hours and 30 minutes read
      "10030:00". */
  lemma SecToHmsMinutesOverrun(sec: nat)
    requires sec == 361800
    ensures HmsBytes(sec) == "100" + "30" + ":" + "00" + [NUL]
  {
    assert sec / 3600 == 100 && sec / 60 % 60 == 30 && sec % 60 == 0;
    assert HmsBytes(sec) == HmsFields(100, 30, 0);
    HundredHoursField();
    var t1 := "100" + ":" + "0:00" + [NUL];
    assert Decimal(30) == "30" && FieldStart(30) == 0;
    assert t1 == "100" + ":0:" + ("00" + [NUL]);
    OverlayMiddle("100", ":0:", "00" + [NUL], "30" + ":");
  }

  /** The digits and the byte after them, written into the nine bytes at
      `at`, are the field written into those nine bytes. */
  lemma FieldWritten(a: seq<char>, at: nat, t: seq<char>, base: nat, x: nat, after: char)
    requires at + |t| <= |a| && base + FieldStart(x) + |Decimal(x)| < |t| && x > 0
    ensures Overlay(Overlay(a, at, t), at + base + FieldStart(x), Decimal(x) + [after])
         == Overlay(a, at, FieldAt(t, base, x, after))
  {
    OverlayNested(a, at, t, base + FieldStart(x), Decimal(x) + [after]);
  }

  /** One field of sec_to_hms_str: xultoa writes the digits into the slot
      (one place in below 10), and for hours and minutes a ':' replaces the
      NUL that follows them. */
  method PutHmsField(dst: array<char>, at: nat, base: nat, x: nat, colon: bool,
                     ghost a: seq<char>, ghost t: seq<char>)
    requires 0 < x < 0x1_0000 && |t| == 9 && at + 9 <= dst.Length && |a| == dst.Length
    requires base + FieldStart(x) + |Decimal(x)| < 9
    requires dst[..] == Overlay(a, at, t)
    modifies dst
    ensures dst[..] == Overlay(a, at, FieldAt(t, base, x, if colon then ':' else NUL))
  {
    var p := at + base;
    if x < 10 {
      p := p + 1;
    }
    ghost var b := dst[..];
    XintLenAgreesBelow(x);
    var n := Xultoa(x, dst, p);
    if colon {
      StoreAfter(dst, p, p + n, ':', b, Decimal(x), [NUL]);
    }
    FieldWritten(a, at, t, base, x, if colon then ':' else NUL);
  }

  /** sec_to_hms_str: always reports 8 characters. */
  method SecToHmsStr(sec: nat, dst: array<char>, at: nat) returns (len: nat)
    requires IsUint32(sec) && at + 9 <= dst.Length
    modifies dst
    ensures len == 8
    ensures dst[..] == Overlay(old(dst[..]), at, HmsBytes(sec))
  {
    var h := ToUint16(sec / 3600);
    var m := sec / 60 % 60;
    var s := sec % 60;
    ghost var a := dst[..];
    len := 8;
    MemCpy(dst, at, "00:00:00", len);
    dst[at + len] := NUL;
    assert "00:00:00"[.. len] == "00:00:00";
    NulAfter(a, at, "00:00:00");
    ghost var t := HmsTemplate;
    assert Pow10(2) == 100 && Pow10(5) == 100000;
    if h > 0 {
      DecimalAtMost(h, 5);
      PutHmsField(dst, at, 0, h, true, a, t);
      t := FieldAt(t, 0, h, ':');
    }
    if m > 0 {
      DecimalAtMost(m, 2);
      PutHmsField(dst, at, len - 5, m, true, a, t);
      t := FieldAt(t, 3, m, ':');
    }
    if s > 0 {
      DecimalAtMost(s, 2);
      PutHmsField(dst, at, len - 2, s, false, a, t);
      t := FieldAt(t, 6, s, NUL);
    }
    assert t == HmsBytes(sec);
  }
}
