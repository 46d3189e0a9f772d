/** C-level conventions shared by strbf.c and str.c: null pointers,
    NUL-terminated strings and the fixed-width integer conversions the
    source relies on. */
module CTypes {

  /** The string terminator. */
  const NUL: char := '\0'

  const INT32_MIN: int := -0x8000_0000
  const INT32_LIMIT: int := 0x8000_0000
  const UINT32_LIMIT: int := 0x1_0000_0000

  /** A pointer that may be null: `None` is the null pointer. */
  datatype Option<+T> = None | Some(value: T)

  predicate IsInt16(x: int) { -0x8000 <= x < 0x8000 }
  predicate IsInt32(x: int) { INT32_MIN <= x < INT32_LIMIT }
  predicate IsUint8(x: int) { 0 <= x < 0x100 }
  predicate IsUint32(x: int) { 0 <= x < UINT32_LIMIT }

  /** Conversion to `uint8_t`: reduction modulo 2^8. */
  function ToUint8(x: int): (r: nat)
    ensures IsUint8(r) && (r - x) % 0x100 == 0
    ensures IsUint8(x) ==> r == x
  {
    x % 0x100
  }

  /** Conversion to `uint16_t`: reduction modulo 2^16. */
  function ToUint16(x: int): (r: nat)
    ensures r < 0x1_0000 && (r - x) % 0x1_0000 == 0
    ensures 0 <= x < 0x1_0000 ==> r == x
  {
    x % 0x1_0000
  }

  /** Conversion of an unsigned 32-bit value to `int32_t` (two's complement). */
  function ToInt32(x: int): (r: int)
    requires IsUint32(x)
    ensures IsInt32(r) && (r == x || r == x - UINT32_LIMIT)
    ensures x < INT32_LIMIT <==> r == x
  {
    if x < INT32_LIMIT then x else x - UINT32_LIMIT
  }

  /** `strlen`: the number of bytes before the first NUL. A sequence stands
      for the bytes a pointer may read, followed by a terminator. */
  function StrLen(s: seq<char>): (n: nat)
    ensures n <= |s|
    ensures n < |s| ==> s[n] == NUL
    ensures forall i :: 0 <= i < n ==> s[i] != NUL
  {
    if |s| == 0 || s[0] == NUL then 0 else 1 + StrLen(s[1..])
  }

  /** A NUL at n with none before it makes n the string's length. */
  lemma StrLenAt(s: seq<char>, n: nat)
    requires n < |s| && s[n] == NUL && NoNul(s[.. n])
    ensures StrLen(s) == n
  {
  }

  /** The C string a pointer to `s` denotes. */
  function CStr(s: seq<char>): (r: seq<char>)
    ensures |r| == StrLen(s) && r <= s && NoNul(r)
  {
    s[..StrLen(s)]
  }

  /** `*str`: the first byte of a C string, NUL for the empty string. */
  function FirstChar(s: seq<char>): char
  {
    if |s| == 0 then NUL else s[0]
  }

  predicate NoNul(s: seq<char>)
  {
    forall i :: 0 <= i < |s| ==> s[i] != NUL
  }

  lemma {:induction false} StrLenOfNoNul(s: seq<char>)
    requires NoNul(s)
    ensures StrLen(s) == |s| && CStr(s) == s
  {
    if |s| > 0 {
      StrLenOfNoNul(s[1..]);
    }
  }

  function Abs(x: int): (r: nat)
    ensures r == x || r == -x
  {
    if x < 0 then -x else x
  }

  /** C's `/` on signed integers: the quotient is truncated toward zero. */
  function CDiv(a: int, b: int): (q: int)
    requires b > 0
    ensures Abs(q) == Abs(a) / b
    ensures (q < 0 ==> a < 0) && (a < 0 ==> q <= 0)
  {
    var m: nat := Abs(a) / b;
    if a < 0 then -(m as int) else m
  }

  /** memcpy from a byte sequence: the first n bytes of src land at dst[at]. */
  method MemCpy(dst: array<char>, at: nat, src: seq<char>, n: nat)
    requires n <= |src| && at + n <= dst.Length
    modifies dst
    ensures dst[..] == Overlay(old(dst[..]), at, src[.. n])
  {
    forall i | 0 <= i < n {
      dst[at + i] := src[i];
    }
    assert dst[..] == Overlay(old(dst[..]), at, src[.. n]) by {
      forall j | 0 <= j < dst.Length
        ensures dst[j] == Overlay(old(dst[..]), at, src[.. n])[j]
      {
        if at <= j < at + n {
          assert dst[j] == src[j - at];
        }
      }
    }
  }

  /** memmove within one array: the n bytes at src land at dst, read before
      any is written, so overlapping ranges are handled. */
  method MemMove(a: array<char>, dst: nat, src: nat, n: nat)
    requires dst + n <= a.Length && src + n <= a.Length
    modifies a
    ensures a[..] == Overlay(old(a[..]), dst, old(a[src .. src + n]))
  {
    var moved := a[src .. src + n];
    MemCpy(a, dst, moved, n);
    assert moved[.. n] == moved;
  }

  /** memset(a, c, n) */
  method MemSet(a: array<char>, c: char, n: nat)
    requires n <= a.Length
    modifies a
    ensures forall i :: 0 <= i < n ==> a[i] == c
    ensures a[n ..] == old(a[n ..])
  {
    forall i | 0 <= i < n {
      a[i] := c;
    }
  }

  /** The bytes of `a` with `text` written over them from position `at`. */
  function Overlay(a: seq<char>, at: nat, text: seq<char>): (r: seq<char>)
    requires at + |text| <= |a|
    ensures |r| == |a|
  {
    a[.. at] + text + a[at + |text| ..]
  }

  /** The bytes up to the end of written text are those before it and the text. */
  lemma OverlayFront(a: seq<char>, at: nat, text: seq<char>)
    requires at + |text| <= |a|
    ensures Overlay(a, at, text)[.. at + |text|] == a[.. at] + text
  {
  }

  /** Appending in two steps is appending the joined text. */
  lemma AppendAssoc(a: seq<char>, b: seq<char>, c: seq<char>)
    ensures a + b + c == a + (b + c)
  {
  }

  /** A single store is a one-byte write. */
  lemma StoreIsOverlay(a: seq<char>, at: nat, c: char)
    requires at < |a|
    ensures a[at := c] == Overlay(a, at, [c])
  {
  }

  /** Two adjacent writes are one write of the joined text. */
  lemma OverlayAdjacent(a: seq<char>, at: nat, first: seq<char>, second: seq<char>)
    requires at + |first| + |second| <= |a|
    ensures Overlay(Overlay(a, at, first), at + |first|, second) == Overlay(a, at, first + second)
  {
    var b := Overlay(a, at, first);
    assert b[.. at + |first|] == a[.. at] + first;
    assert b[at + |first| + |second| ..] == a[at + |first| + |second| ..];
  }

  /** The same, with the later text written first. */
  lemma OverlayAdjacentBackward(a: seq<char>, at: nat, first: seq<char>, second: seq<char>)
    requires at + |first| + |second| <= |a|
    ensures Overlay(Overlay(a, at + |first|, second), at, first) == Overlay(a, at, first + second)
  {
    var b := Overlay(a, at + |first|, second);
    assert b[.. at] == a[.. at];
    assert b[at + |first| ..] == second + a[at + |first| + |second| ..];
  }

  /** A NUL stored right after written text extends the text by it. */
  lemma NulAfter(a: seq<char>, at: nat, text: seq<char>)
    requires at + |text| < |a|
    ensures Overlay(a, at, text)[at + |text| := NUL] == Overlay(a, at, text + [NUL])
  {
    var b := Overlay(a, at, text);
    assert b[at + |text| := NUL] == Overlay(b, at + |text|, [NUL]);
    OverlayAdjacent(a, at, text, [NUL]);
  }

  /** A byte stored right after written text, where the text's terminator
      (if it had one) stood, extends the text by that byte. */
  lemma OverlayThenByte(a: seq<char>, at: nat, text: seq<char>, tail: seq<char>, c: char)
    requires |tail| <= 1 && at + |text| < |a| && at + |text| + |tail| <= |a|
    ensures Overlay(a, at, text + tail)[at + |text| := c] == Overlay(a, at, text + [c])
  {
    var b := Overlay(a, at, text + tail);
    assert b[.. at + |text|] == a[.. at] + text;
    assert b[at + |text| + 1 ..] == a[at + |text| + 1 ..];
  }

  /** `*p = c` where p points just past text written at `at`, at its
      terminator if it has one (`tail`). */
  method StoreAfter(dst: array<char>, at: nat, p: nat, c: char,
                    ghost a: seq<char>, ghost text: seq<char>, ghost tail: seq<char>)
    requires p == at + |text| && p < dst.Length && |a| == dst.Length
    requires |tail| <= 1 && p + |tail| <= |a|
    requires dst[..] == Overlay(a, at, text + tail)
    modifies dst
    ensures dst[..] == Overlay(a, at, text + [c])
  {
    dst[p] := c;
    OverlayThenByte(a, at, text, tail, c);
  }

  /** Two bytes stored side by side are one write of both. */
  lemma TwoWritten(a: seq<char>, at: nat, x: char, y: char)
    requires at + 2 <= |a|
    ensures a[at := x][at + 1 := y] == Overlay(a, at, [x, y])
  {
  }

  /** The C string stored in front of a terminator is that text. */
  lemma {:induction false} CStrOfTerminated(text: seq<char>, rest: seq<char>)
    requires NoNul(text)
    ensures CStr(text + [NUL] + rest) == text
  {
    if |text| > 0 {
      assert (text + [NUL] + rest)[1 ..] == text[1 ..] + [NUL] + rest;
      CStrOfTerminated(text[1 ..], rest);
    }
  }

  /** Writing into a region already overwritten is writing into the text
      that overwrote it. */
  lemma OverlayNested(a: seq<char>, at: nat, t: seq<char>, pos: nat, text: seq<char>)
    requires at + |t| <= |a| && pos + |text| <= |t|
    ensures Overlay(Overlay(a, at, t), at + pos, text) == Overlay(a, at, Overlay(t, pos, text))
  {
    var b := Overlay(a, at, t);
    assert b[.. at + pos] == a[.. at] + t[.. pos];
    assert b[at + pos + |text| ..] == t[pos + |text| ..] + a[at + |t| ..];
  }
}
