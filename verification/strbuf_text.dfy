/** The value side of the string buffer in strbf.c: the numbers its
    capacity checks look at, the doubling rule of sb_grow, and the texts
    the path, splice and trimming operations produce. */
module StrBufText {
  import opened CTypes

  /** BUFSIZ as strbf.c falls back to it; strbf_init allocates half of it. */
  const BUFSIZ: nat := 512

  /** Dynamic buffers own heap storage that sb_grow replaces; Fixed buffers
      wrap caller storage (`max` set, `end` null) and never move. */
  datatype Mode = Dynamic | Fixed

  /** What the capacity checks compare: the mode, the offset of the last
      byte the buffer may use (`end - start` in Dynamic mode, `max - start`
      in Fixed mode) and the content length `cur - start`. */
  datatype Geometry = Geometry(mode: Mode, limit: nat, length: nat)

  predicate ValidGeometry(g: Geometry)
  {
    g.length <= g.limit && (g.mode == Dynamic ==> g.limit > 0)
  }

  /** sb_grow's assertion: a Fixed buffer must keep more than `need` bytes
      between the cursor and `max`. Dynamic buffers always pass it. */
  predicate Room(g: Geometry, need: nat)
  {
    g.mode == Fixed ==> g.length + need < g.limit
  }

  /** A Fixed buffer over `len` bytes has limit len - 1, so a write of
      need bytes passes the check only if the content then stays at least
      two bytes short of len. */
  lemma FixedCapacity(g: Geometry, need: nat, len: nat)
    requires g.mode == Fixed && g.limit + 1 == len && Room(g, need)
    ensures g.length + need <= len - 2
  {
  }

  function Pow2(k: nat): (r: nat)
    ensures r >= 1
  {
    if k == 0 then 1 else 2 * Pow2(k - 1)
  }

  /** `alloc` doubled until it is at least n. */
  function Grown(alloc: nat, n: nat): nat
    requires alloc > 0
    decreases n - alloc
  {
    if alloc >= n then alloc else Grown(2 * alloc, n)
  }

  /** How many doublings Grown performs. */
  function Doublings(alloc: nat, n: nat): nat
    requires alloc > 0
    decreases n - alloc
  {
    if alloc >= n then 0 else 1 + Doublings(2 * alloc, n)
  }

  /** sb_grow's do-while: the capacity is doubled once, then until it
      covers n bytes. */
  function Doubled(capacity: nat, n: nat): nat
    requires capacity > 0
  {
    Grown(2 * capacity, n)
  }

  lemma {:induction false} GrownIsLeastPower(alloc: nat, n: nat)
    requires alloc > 0
    ensures Grown(alloc, n) == alloc * Pow2(Doublings(alloc, n)) && Grown(alloc, n) >= n
    ensures forall j :: 0 <= j < Doublings(alloc, n) ==> alloc * Pow2(j) < n
    decreases n - alloc
  {
    if alloc < n {
      GrownIsLeastPower(2 * alloc, n);
      ScaleShift(alloc, Doublings(alloc, n));
      forall j | 0 < j < Doublings(alloc, n)
        ensures alloc * Pow2(j) < n
      {
        ScaleShift(alloc, j);
      }
    }
  }

  /** One doubling of the base is one fewer doubling of the power. */
  lemma ScaleShift(alloc: nat, j: nat)
    requires j > 0
    ensures alloc * Pow2(j) == 2 * alloc * Pow2(j - 1)
  {
    assert Pow2(j) == 2 * Pow2(j - 1);
  }

  /** sb_grow multiplies the capacity by 2^k for the least k >= 1 that
      makes it cover n bytes. */
  lemma DoubledIsLeastPower(capacity: nat, n: nat)
    requires capacity > 0
    ensures var k := 1 + Doublings(2 * capacity, n);
      Doubled(capacity, n) == capacity * Pow2(k) && Doubled(capacity, n) >= n &&
      forall j :: 1 <= j < k ==> capacity * Pow2(j) < n
  {
    GrownIsLeastPower(2 * capacity, n);
    var k := Doublings(2 * capacity, n);
    ScaleShift(capacity, k + 1);
    forall j | 1 <= j < k + 1
      ensures capacity * Pow2(j) < n
    {
      ScaleShift(capacity, j);
    }
  }

  /** Doubling never shrinks and ends covering n. */
  lemma {:induction false} GrownCovers(alloc: nat, n: nat)
    requires alloc > 0
    ensures alloc <= Grown(alloc, n) && n <= Grown(alloc, n)
    decreases n - alloc
  {
    if alloc < n {
      GrownCovers(2 * alloc, n);
    }
  }

  /** The limit after sb_grow(need); a Fixed buffer keeps its own. */
  function GrowLimit(g: Geometry, need: nat): nat
    requires ValidGeometry(g)
  {
    if g.mode == Fixed then g.limit else Doubled(g.limit, g.length + need)
  }

  /** The limit after sb_need(need): a Dynamic buffer grows only when fewer
      than need bytes remain; a Fixed one always goes through sb_grow's
      check. */
  function NeedLimit(g: Geometry, need: nat): nat
    requires ValidGeometry(g)
  {
    if g.mode == Fixed || g.limit - g.length < need then GrowLimit(g, need) else g.limit
  }

  /** The limit after the one-byte check of putc, insertc and prependc,
      which grow when the cursor has reached `end`. */
  function ByteLimit(g: Geometry): nat
    requires ValidGeometry(g)
  {
    if g.mode == Fixed || g.length >= g.limit then GrowLimit(g, 1) else g.limit
  }

  /** After sb_need the n bytes fit before the limit, which never shrinks. */
  lemma NeedLimitCovers(g: Geometry, need: nat)
    requires ValidGeometry(g) && Room(g, need)
    ensures g.length + need <= NeedLimit(g, need) && g.limit <= NeedLimit(g, need)
    ensures g.mode == Fixed ==> NeedLimit(g, need) == g.limit
  {
    if g.mode == Dynamic && g.limit - g.length < need {
      GrownCovers(2 * g.limit, g.length + need);
    }
  }

  /** The same for the one-byte check. */
  lemma ByteLimitCovers(g: Geometry)
    requires ValidGeometry(g) && Room(g, 1)
    ensures g.length + 1 <= ByteLimit(g) && g.limit <= ByteLimit(g)
    ensures g.mode == Fixed ==> ByteLimit(g) == g.limit
  {
    if g.mode == Dynamic && g.length >= g.limit {
      GrownCovers(2 * g.limit, g.length + 1);
    }
  }

  /** The byte count strbf_insert and strbf_prepend use: the one given, or
      the string's length when it is 0. */
  function InsertCount(s: seq<char>, count: nat): nat
  {
    if count == 0 then StrLen(s) else count
  }

  /** One past the last byte strbf_insert's memmove writes: it moves
      `cur - start + after` bytes to `after + count`. */
  function InsertMoveEnd(g: Geometry, after: nat, count: nat): nat
  {
    after + count + (g.length + after)
  }

  /** The same if only the tail after the insertion point were moved. */
  function TailMoveEnd(g: Geometry, after: nat, count: nat): nat
    requires after <= g.length
  {
    after + count + (g.length - after)
  }

  /** The move stays inside the storage once sb_need has run; the storage
      holds limit + 1 bytes. */
  predicate InsertFits(g: Geometry, after: nat, count: nat)
    requires ValidGeometry(g)
  {
    InsertMoveEnd(g, after, count) <= NeedLimit(g, count) + 1
  }

  /** The same for strbf_insertc, whose move is as long and whose growth
      is the one-byte check. */
  predicate InsertCFits(g: Geometry, after: nat)
    requires ValidGeometry(g)
  {
    InsertMoveEnd(g, after, 1) <= ByteLimit(g) + 1
  }

  /** Moving only the tail always fits once the capacity check passed. */
  lemma TailMoveFits(g: Geometry, after: nat, count: nat)
    requires ValidGeometry(g) && Room(g, count) && after <= g.length
    ensures TailMoveEnd(g, after, count) <= NeedLimit(g, count) + 1
    ensures count == 1 ==> TailMoveEnd(g, after, count) <= ByteLimit(g) + 1
  {
    NeedLimitCovers(g, count);
    if count == 1 {
      ByteLimitCovers(g);
    }
  }

  /** A Fixed buffer over 16 bytes holding 10, and a Dynamic one with 200
      of 255 used: inserting one byte in the middle passes the capacity
      check but the move runs past the storage. */
  lemma InsertOverCopyOverruns(g: Geometry, h: Geometry, after: nat)
    requires g == Geometry(Fixed, 15, 10) && h == Geometry(Dynamic, 255, 200) && after == 5
    ensures Room(g, 1) && ValidGeometry(g) && !InsertFits(g, after, 1) && !InsertCFits(g, after)
    ensures Room(h, 1) && ValidGeometry(h) && !InsertFits(h, 100, 1) && !InsertCFits(h, 100)
    ensures TailMoveEnd(g, after, 1) <= NeedLimit(g, 1) + 1
  {
  }

  // ---- path and URI segments ----

  /** _put_pathsep and _pop_path take NUL to mean '/'. */
  function SepOr(sep: char): char
  {
    if sep == NUL then '/' else sep
  }

  /** The content after _put_pathsep: sep appended unless the content is
      empty or already ends in it. */
  function WithSep(s: string, sep: char): (r: string)
    ensures r == s || (|s| > 0 && s[|s| - 1] != sep && r == s + [sep])
    ensures |s| > 0 ==> r[|r| - 1] == sep
  {
    if |s| > 0 && s[|s| - 1] != sep then s + [sep] else s
  }

  /** _put_pathsep twice is _put_pathsep once. */
  lemma WithSepIdempotent(s: string, sep: char)
    ensures WithSep(WithSep(s, sep), sep) == WithSep(s, sep)
  {
  }

  /** One trailing separator removed, as _put_path does before a segment
      that starts with one. */
  function DropSep(s: string, sep: char): (r: string)
    ensures r == s || (|s| > 0 && s[|s| - 1] == sep && r == s[.. |s| - 1])
  {
    if |s| > 0 && s[|s| - 1] == sep then s[.. |s| - 1] else s
  }

  /** The content _put_path and _put_path_n leave before appending a
      segment whose first byte is `first`: one trailing separator dropped
      when the segment starts with one, _put_pathsep otherwise. */
  function SegmentLead(s: string, first: char, sep: char): string
  {
    if first == sep then DropSep(s, sep) else WithSep(s, SepOr(sep))
  }

  /** The content after _put_path / _put_path_n with a segment whose first
      byte is `first` and whose appended bytes are `tail`. */
  function JoinSegment(s: string, first: char, tail: string, sep: char): string
  {
    SegmentLead(s, first, sep) + tail
  }

  /** The Fixed-mode checks _put_path and _put_path_n pass on content s:
      they write when the tail has bytes or a separator is added, and each
      write must end before the limit. */
  predicate SegmentFits(s: string, first: char, tail: string, sep: char, limit: nat)
  {
    var r := JoinSegment(s, first, tail, sep);
    |tail| > 0 || |r| > |s| ==> |r| < limit
  }

  /** A segment's bytes without one leading separator. */
  function DropLead(t: string, sep: char): string
  {
    if |t| > 0 && t[0] == sep then t[1 ..] else t
  }

  /** Onto a non-empty buffer, a non-empty segment lands behind exactly
      one separator of its own: one trailing separator of the buffer and
      one leading separator of the segment are merged into it. */
  lemma JoinSegmentOneSeparator(s: string, t: string, sep: char)
    requires sep != NUL && |s| > 0 && |t| > 0
    ensures JoinSegment(s, t[0], t, sep) == DropSep(s, sep) + [sep] + DropLead(t, sep)
  {
    if t[0] == sep {
      assert t == [sep] + t[1 ..];
    } else if s[|s| - 1] == sep {
      assert s == s[.. |s| - 1] + [sep];
    }
  }

  /** An empty segment only adds the separator. */
  lemma JoinEmptySegment(s: string, sep: char)
    requires sep != NUL
    ensures JoinSegment(s, NUL, [], sep) == WithSep(s, sep)
  {
  }

  /** Only one of several trailing separators is removed. */
  lemma JoinKeepsSecondSeparator(s: string, t: string)
    requires s == "a//" && t == "/b"
    ensures JoinSegment(s, t[0], t, '/') == "a/" + "/b"
  {
    assert DropSep(s, '/') == "a/";
  }

  /** From the empty buffer, "a", "/b" and "c" join to "a/b/c". */
  lemma JoinExample(a: string, b: string, c: string)
    requires a == "a" && b == "/b" && c == "c"
    ensures JoinSegment(JoinSegment(JoinSegment("", a[0], a, '/'), b[0], b, '/'), c[0], c, '/') == "a" + "/b" + "/" + "c"
  {
    assert JoinSegment("", a[0], a, '/') == a;
    assert JoinSegment(a, b[0], b, '/') == a + b;
  }

  /** The text a C string argument contributes: nothing for null. */
  function SegText(seg: Option<seq<char>>): string
  {
    if seg.None? then [] else CStr(seg.value)
  }

  /** The texts of several C strings, one after another (strbf_puts_v). */
  function SegTexts(segs: seq<Option<seq<char>>>): string
  {
    if |segs| == 0 then [] else SegTexts(segs[.. |segs| - 1]) + SegText(segs[|segs| - 1])
  }

  lemma {:induction false} SegTextsPrefix(segs: seq<Option<seq<char>>>, i: nat)
    requires i <= |segs|
    ensures |SegTexts(segs[.. i])| <= |SegTexts(segs)|
    decreases |segs|
  {
    if i < |segs| {
      assert segs[.. |segs| - 1][.. i] == segs[.. i];
      SegTextsPrefix(segs[.. |segs| - 1], i);
    } else {
      assert segs[.. i] == segs;
    }
  }

  /** One more argument appends its text. */
  lemma SegTextsStep(segs: seq<Option<seq<char>>>, i: nat)
    requires i < |segs|
    ensures SegTexts(segs[.. i + 1]) == SegTexts(segs[.. i]) + SegText(segs[i])
  {
    assert segs[.. i + 1][.. i] == segs[.. i];
  }

  /** The content after _put_path with one argument; null leaves it. */
  function JoinPath(s: string, seg: Option<seq<char>>, sep: char): string
  {
    if seg.None? then s else JoinSegment(s, FirstChar(seg.value), CStr(seg.value), sep)
  }

  /** The content after _put_path with each argument in turn. */
  function JoinPaths(s: string, segs: seq<Option<seq<char>>>, sep: char): string
  {
    if |segs| == 0 then s else JoinPath(JoinPaths(s, segs[.. |segs| - 1], sep), segs[|segs| - 1], sep)
  }

  /** One more argument is joined onto the content of the ones before. */
  lemma JoinPathsStep(s: string, segs: seq<Option<seq<char>>>, i: nat, sep: char)
    requires i < |segs|
    ensures JoinPaths(s, segs[.. i + 1], sep) == JoinPath(JoinPaths(s, segs[.. i], sep), segs[i], sep)
  {
    assert segs[.. i + 1][.. i] == segs[.. i];
  }

  /** The Fixed-mode checks _put_path passes for one argument. */
  predicate PathFits(s: string, seg: Option<seq<char>>, sep: char, limit: nat)
  {
    seg.Some? ==> SegmentFits(s, FirstChar(seg.value), CStr(seg.value), sep, limit)
  }

  /** The checks of every turn of strbf_put_path_v. */
  predicate PathsFit(s: string, segs: seq<Option<seq<char>>>, sep: char, limit: nat)
  {
    forall i :: 0 <= i < |segs| ==> PathFits(JoinPaths(s, segs[.. i], sep), segs[i], sep, limit)
  }

  /** _pop_path's backward scan from index c: it stops at index 0 or
      lower, or at a separator. */
  function ScanBack(s: string, c: int, sep: char): (r: int)
    requires -1 <= c < |s|
    ensures -1 <= r <= c && (r > 0 ==> s[r] == sep)
    ensures forall k :: r < k <= c && k > 0 ==> s[k] != sep
    decreases c + 1
  {
    if c > 0 && s[c] != sep then ScanBack(s, c - 1, sep) else c
  }

  /** Where _pop_path's scan starts: before one trailing separator. */
  function PopStart(s: string, sep: char): int
    requires |s| > 0
  {
    if s[|s| - 1] == sep then |s| - 2 else |s| - 1
  }

  /** The content after _pop_path on non-empty content. */
  function PopSegment(s: string, sep: char): string
    requires |s| > 0
  {
    var c := ScanBack(s, PopStart(s, sep), sep);
    if c > 0 && s[c] == sep then s[.. c] else s
  }

  /** _pop_path cuts the content at the last separator before its final
      segment (one trailing separator ignored), dropping the separator;
      with no such separator past index 0, the content is kept. */
  lemma PopSegmentCuts(s: string, sep: char)
    requires |s| > 0
    ensures var r := PopSegment(s, sep); var e := PopStart(s, sep) + 1;
      (r == s <==> forall k :: 0 < k < e ==> s[k] != sep) &&
      (r != s ==> 0 < |r| < e && r == s[.. |r|] && s[|r|] == sep &&
                  forall k :: |r| < k < e ==> s[k] != sep)
  {
    var c := ScanBack(s, PopStart(s, sep), sep);
    if c > 0 {
      assert |s[.. c]| != |s|;
    }
  }

  /** "a/b/c" pops to "a/b", then "a", then stays "a"; "a/b/" pops to "a". */
  lemma PopSegmentExamples(s: string, t: string)
    requires s == "a/b/c" && t == "a/b/"
    ensures PopSegment(s, '/') == "a/b"
    ensures PopSegment("a/b", '/') == "a" && PopSegment("a", '/') == "a"
    ensures PopSegment(t, '/') == "a"
  {
    assert ScanBack(s, 4, '/') == 3;
    assert ScanBack("a/b", 2, '/') == 1;
    assert ScanBack(t, 2, '/') == 1;
  }

  /** The content after _insert_pathsep at `at`: sep inserted unless at is
      0 or the byte before it is sep. */
  function InsertSep(s: string, sep: char, at: nat): string
    requires at <= |s|
  {
    if at > 0 && s[at - 1] != sep then s[.. at] + [sep] + s[at ..] else s
  }

  /** Where _insert_path puts the segment: one back over a separator
      before `at` when the segment starts with one, one on over a
      separator at `at` (`next`, the byte stored there) when it does
      not. */
  function InsertPathAt(s: string, next: char, first: char, at: nat, sep: char): nat
    requires at <= |s|
  {
    if first == sep then (if at > 0 && s[at - 1] == sep then at - 1 else at)
    else if at > 0 && next == sep then at + 1
    else at
  }

  /** The content after _insert_path: when it moved the insertion point it
      first runs _insert_pathsep there, then inserts the segment's text at
      that point. */
  function InsertPathText(s: string, next: char, first: char, tail: string, at: nat, sep: char): string
    requires at <= |s| && InsertPathAt(s, next, first, at, sep) <= |s|
  {
    var p := InsertPathAt(s, next, first, at, sep);
    var s1 := if p != at then InsertSep(s, sep, p) else s;
    s1[.. p] + tail + s1[p ..]
  }

  /** Whether _insert_path's two moves, as written, stay inside the
      storage: strbf_insertc's when _insert_pathsep adds a separator at the
      new point p, and then strbf_insert's for the segment's n bytes at p,
      measured on the buffer the first one leaves. */
  predicate InsertPathMovesFit(g: Geometry, s: string, next: char, first: char, n: nat, at: nat, sep: char)
    requires ValidGeometry(g) && g.length == |s| && at <= |s|
  {
    var p := InsertPathAt(s, next, first, at, sep);
    var added := p != at && 0 < p <= |s| && s[p - 1] != sep;
    var h := if added then Geometry(g.mode, ByteLimit(g), g.length + 1) else g;
    (added ==> InsertCFits(g, p)) && ValidGeometry(h) && InsertFits(h, p, n)
  }

  /** The two halves of InsertPathMovesFit, with the new point and the
      buffer after the separator named. */
  lemma InsertPathMovesSplit(g: Geometry, s: string, next: char, first: char, n: nat, at: nat, sep: char,
                             p: nat, added: bool, h: Geometry)
    requires ValidGeometry(g) && g.length == |s| && at <= |s|
    requires InsertPathMovesFit(g, s, next, first, n, at, sep)
    requires p == InsertPathAt(s, next, first, at, sep)
    requires added == (p != at && 0 < p <= |s| && s[p - 1] != sep)
    requires h == if added then Geometry(g.mode, ByteLimit(g), g.length + 1) else g
    ensures added ==> InsertCFits(g, p)
    ensures ValidGeometry(h) && InsertFits(h, p, n)
  {
  }

  /** A segment after no separator gets none: it is spliced in as is. */
  lemma InsertPathPlain(s: string, next: char, first: char, tail: string, at: nat, sep: char)
    requires at <= |s| && first != sep && (at == 0 || next != sep)
    ensures InsertPathText(s, next, first, tail, at, sep) == s[.. at] + tail + s[at ..]
  {
  }

  /** After a separator (next == s[at]), a segment without a leading one
      goes in behind that separator, and _insert_pathsep adds nothing. */
  lemma InsertPathAfterSeparator(s: string, first: char, tail: string, at: nat, sep: char)
    requires 0 < at < |s| && s[at] == sep && first != sep
    ensures InsertPathText(s, s[at], first, tail, at, sep) == s[.. at + 1] + tail + s[at + 1 ..]
  {
  }

  /** A segment with a leading separator, at a point after a separator that
      itself follows a non-separator, goes in before that separator, and
      the separator _insert_pathsep adds lands behind the segment. */
  lemma InsertPathLeadingSeparator(s: string, next: char, tail: string, at: nat, sep: char)
    requires 1 < at <= |s| && s[at - 1] == sep && s[at - 2] != sep
    ensures InsertPathText(s, next, sep, tail, at, sep) == s[.. at - 1] + tail + [sep] + s[at - 1 ..]
  {
    var s1 := InsertSep(s, sep, at - 1);
    assert s1 == s[.. at - 1] + [sep] + s[at - 1 ..];
    assert s1[.. at - 1] == s[.. at - 1];
    assert s1[at - 1 ..] == [sep] + s[at - 1 ..];
  }

  /** "x/" with "/b" inserted at 2 becomes "x/b//". */
  lemma InsertPathExample(s: string, t: string)
    requires s == "x/" && t == "/b"
    ensures InsertPathText(s, NUL, t[0], t, 2, '/') == "x" + "/b" + "//"
  {
    InsertPathLeadingSeparator(s, NUL, t, 2, '/');
  }

  // ---- trimming ----

  /** The bytes strbf_trim removes: space, tab, CR and LF. */
  predicate IsSpacing(c: char)
  {
    c == ' ' || c == '\t' || c == '\r' || c == '\n'
  }

  /** Some byte is not spacing, so the right trim stops inside the content. */
  predicate HasText(s: string)
  {
    exists k :: 0 <= k < |s| && !IsSpacing(s[k])
  }

  function TrimRight(s: string): string
  {
    if |s| > 0 && IsSpacing(s[|s| - 1]) then TrimRight(s[.. |s| - 1]) else s
  }

  function TrimLeft(s: string): string
  {
    if |s| > 0 && IsSpacing(s[0]) then TrimLeft(s[1 ..]) else s
  }

  /** The content after strbf_trim: trailing spacing first, then leading. */
  function TrimText(s: string): string
  {
    TrimLeft(TrimRight(s))
  }

  /** The number of spacing bytes that open s. */
  function LeadingSpacing(s: string): (n: nat)
    ensures n <= |s| && (n < |s| ==> !IsSpacing(s[n]))
    ensures forall k :: 0 <= k < n ==> IsSpacing(s[k])
  {
    if |s| > 0 && IsSpacing(s[0]) then 1 + LeadingSpacing(s[1 ..]) else 0
  }

  /** The number of spacing bytes that close s. */
  function TrailingSpacing(s: string): (n: nat)
    ensures n <= |s| && (n < |s| ==> !IsSpacing(s[|s| - 1 - n]))
    ensures forall k :: |s| - n <= k < |s| ==> IsSpacing(s[k])
  {
    if |s| > 0 && IsSpacing(s[|s| - 1]) then 1 + TrailingSpacing(s[.. |s| - 1]) else 0
  }

  lemma {:induction false} TrimRightDrops(s: string)
    ensures TrimRight(s) == s[.. |s| - TrailingSpacing(s)]
  {
    if |s| > 0 && IsSpacing(s[|s| - 1]) {
      TrimRightDrops(s[.. |s| - 1]);
      assert s[.. |s| - 1][.. |s| - 1 - TrailingSpacing(s[.. |s| - 1])] == s[.. |s| - TrailingSpacing(s)];
    }
  }

  lemma {:induction false} TrimLeftDrops(s: string)
    ensures TrimLeft(s) == s[LeadingSpacing(s) ..]
  {
    if |s| > 0 && IsSpacing(s[0]) {
      TrimLeftDrops(s[1 ..]);
      assert s[1 ..][LeadingSpacing(s[1 ..]) ..] == s[LeadingSpacing(s) ..];
    }
  }

  /** r is the slice of s that starts at a, neither starts nor ends with
      spacing, and has only spacing before and after it in s. */
  predicate TrimmedSlice(s: string, a: nat, r: string)
  {
    0 < |r| && !IsSpacing(r[0]) && !IsSpacing(r[|r| - 1]) &&
    a + |r| <= |s| && r == s[a .. a + |r|] &&
    (forall k :: 0 <= k < a ==> IsSpacing(s[k])) &&
    (forall k :: a + |r| <= k < |s| ==> IsSpacing(s[k]))
  }

  /** Trimming content that has text leaves the slice between its first
      and last non-spacing bytes, with only spacing cut on either side. */
  lemma TrimTextSlice(s: string)
    requires HasText(s)
    ensures TrimmedSlice(s, LeadingSpacing(TrimRight(s)), TrimText(s))
  {
    TrimRightDrops(s);
    TrimLeftDrops(TrimRight(s));
    SpacingAround(s, TrailingSpacing(s), TrimRight(s), LeadingSpacing(TrimRight(s)), TrimText(s));
  }

  /** The slice r left between a spacing prefix of length a and a spacing
      suffix of length n, when some byte of s is not spacing. */
  lemma SpacingAround(s: string, n: nat, u: string, a: nat, r: string)
    requires HasText(s)
    requires n <= |s| && (n < |s| ==> !IsSpacing(s[|s| - 1 - n]))
    requires forall k :: |s| - n <= k < |s| ==> IsSpacing(s[k])
    requires u == s[.. |s| - n]
    requires a <= |u| && (a < |u| ==> !IsSpacing(u[a]))
    requires forall k :: 0 <= k < a ==> IsSpacing(u[k])
    requires r == u[a ..]
    ensures TrimmedSlice(s, a, r)
  {
    var w :| 0 <= w < |s| && !IsSpacing(s[w]);
    assert w < |u|;
    assert u[w] == s[w];
    assert a <= w;
    assert r[|r| - 1] == s[|u| - 1];
    forall k | 0 <= k < a
      ensures IsSpacing(s[k])
    {
      assert s[k] == u[k];
    }
  }

  /** Trimming twice is trimming once. */
  lemma TrimTextIdempotent(s: string)
    requires HasText(s)
    ensures HasText(TrimText(s)) && TrimText(TrimText(s)) == TrimText(s)
  {
    TrimTextSlice(s);
    var r := TrimText(s);
    assert !IsSpacing(r[0]);
    TrimRightDrops(r);
    TrimLeftDrops(r);
  }

  predicate AllSpacing(t: string)
  {
    forall k :: 0 <= k < |t| ==> IsSpacing(t[k])
  }

  lemma {:induction false} TrimRightOf(u: string, t: string)
    requires (|u| == 0 || !IsSpacing(u[|u| - 1])) && AllSpacing(t)
    ensures TrimRight(u + t) == u
    decreases |t|
  {
    if |t| > 0 {
      assert (u + t)[.. |u + t| - 1] == u + t[.. |t| - 1];
      TrimRightOf(u, t[.. |t| - 1]);
    } else {
      assert u + t == u;
    }
  }

  lemma {:induction false} TrimLeftOf(t: string, u: string)
    requires (|u| == 0 || !IsSpacing(u[0])) && AllSpacing(t)
    ensures TrimLeft(t + u) == u
    decreases |t|
  {
    if |t| > 0 {
      assert (t + u)[1 ..] == t[1 ..] + u;
      TrimLeftOf(t[1 ..], u);
    } else {
      assert t + u == u;
    }
  }

  /** "  \t hello \n" trims to "hello". */
  lemma TrimTextExample(s: string)
    requires s == "  \t hello \n"
    ensures TrimText(s) == "hello"
  {
    assert s == "  \t " + "hello" + " \n";
    TrimRightOf("  \t " + "hello", " \n");
    TrimLeftOf("  \t ", "hello");
  }
}
