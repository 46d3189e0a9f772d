/** The growable string buffer strbf_t of strbf.c. */
module StrBuf {
  import opened CTypes
  import opened NumText
  import opened StrBufText

  /** The bytes of `b` with `s` spliced in at `after`, the tail having been
      moved right by |s|: the move may carry more than the tail (m bytes). */
  lemma SpliceFront(b: seq<char>, len: nat, after: nat, s: seq<char>, m: nat)
    requires after <= len && len - after <= m && after + |s| + m <= |b|
    ensures Overlay(Overlay(b, after + |s|, b[after .. after + m]), after, s)[.. len + |s|]
         == b[.. len][.. after] + s + b[.. len][after ..]
  {
    var x := b[after .. after + m];
    var c := Overlay(b, after + |s|, x);
    OverlayFront(b, after + |s|, x);
    var front := c[.. after + |s| + m];
    assert front == b[.. after + |s|] + x;
    assert front[after + |s| ..] == x;
    assert c[after + |s| .. len + |s|] == front[after + |s| .. len + |s|] == x[.. len - after];
    assert x[.. len - after] == b[after .. len] == b[.. len][after ..];
    assert c[.. after] == b[.. after] == b[.. len][.. after];
    var d := Overlay(c, after, s);
    OverlayFront(c, after, s);
    assert d[after + |s| ..] == c[after + |s| ..];
    assert d[.. len + |s|] == d[.. after + |s|] + d[after + |s| .. len + |s|];
  }

  /** The two moves of strbf_insert and strbf_prepend: `m` bytes from
      `after` moved right by n, then the first n bytes of `s` copied into
      the gap. The first len + n bytes are then the first len with those
      n spliced in, whenever the move carries at least the tail. */
  method SpliceIn(a: array<char>, len: nat, after: nat, s: seq<char>, n: nat, m: nat)
    requires after <= len && len - after <= m && n <= |s| && after + n + m <= a.Length
    modifies a
    ensures a[.. len + n] == old(a[.. len])[.. after] + s[.. n] + old(a[.. len])[after ..]
  {
    ghost var b := a[..];
    MemMove(a, after + n, after, m);
    ghost var c := a[..];
    assert c == Overlay(b, after + n, b[after .. after + m]);
    MemCpy(a, after, s, n);
    Spliced(b, c, a[..], len, after, s[.. n], n, m);
  }

  /** SpliceFront stated for the bytes c after the move and r after the
      copy. */
  lemma Spliced(b: seq<char>, c: seq<char>, r: seq<char>, len: nat, after: nat, x: seq<char>, n: nat, m: nat)
    requires after <= len && len - after <= m && |x| == n && after + n + m <= |b|
    requires c == Overlay(b, after + n, b[after .. after + m])
    requires r == Overlay(c, after, x)
    ensures r[.. len + n] == b[.. len][.. after] + x + b[.. len][after ..]
  {
    SpliceFront(b, len, after, x, m);
  }

  /** The same with one byte stored into the gap, as strbf_insertc and
      strbf_prependc do. */
  method SpliceByte(a: array<char>, len: nat, after: nat, c: char, m: nat)
    requires after <= len && len - after <= m && after + 1 + m <= a.Length
    modifies a
    ensures a[.. len + 1] == old(a[.. len])[.. after] + [c] + old(a[.. len])[after ..]
  {
    ghost var b := a[..];
    ghost var t := a[.. len];
    assert t == b[.. len];
    MemMove(a, after + 1, after, m);
    StoreIsOverlay(a[..], after, c);
    a[after] := c;
    SpliceFront(b, len, after, [c], m);
    assert a[.. len + 1] == a[..][.. len + 1];
  }

  /** strbf_t. `data` is the storage from `start`, `length` is
      `cur - start`, and `limit` is the offset of the last byte the buffer
      may use (`end` in Dynamic mode, `max` in Fixed mode); the byte there
      is kept for the terminator. */
  class Buffer {
    var data: array<char>
    var length: nat
    var limit: nat
    var mode: Mode

    predicate Valid()
      reads this
    {
      limit < data.Length && ValidGeometry(Geo()) && (mode == Dynamic ==> data.Length == limit + 1)
    }

    function Geo(): Geometry
      reads this
    {
      Geometry(mode, limit, length)
    }

    /** The bytes from `start` to `cur`. */
    ghost function Content(): seq<char>
      reads this, data
      requires Valid()
    {
      data[.. length]
    }

    /** strbf_init: 256 zeroed bytes, of which 255 are usable. */
    constructor Init()
      ensures Valid() && mode == Dynamic && Content() == [] && fresh(data)
      ensures data.Length == BUFSIZ / 2 && limit == BUFSIZ / 2 - 1
      ensures forall i :: 0 <= i < data.Length ==> data[i] == NUL
    {
      data := new char[BUFSIZ / 2](_ => NUL);
      length := 0;
      limit := BUFSIZ / 2 - 1;
      mode := Dynamic;
    }

    /** strbf_inits: the caller's `len` bytes, zeroed, as a Fixed buffer
        whose `max` is the last of them. */
    constructor InitStatic(str: array<char>, len: nat)
      requires 0 < len <= str.Length
      modifies str
      ensures Valid() && data == str && mode == Fixed && limit == len - 1 && Content() == []
      ensures forall i :: 0 <= i < len ==> str[i] == NUL
      ensures str[len ..] == old(str[len ..])
    {
      data := str;
      length := 0;
      limit := len - 1;
      mode := Fixed;
      new;
      MemSet(str, NUL, len);
    }

    /** strbf_reset on initialised storage: zero up to the limit and empty
        the content. */
    method Reset()
      requires Valid()
      modifies this, data
      ensures Valid() && Content() == [] && data == old(data) && mode == old(mode) && limit == old(limit)
      ensures forall i :: 0 <= i < limit ==> data[i] == NUL
      ensures data[limit ..] == old(data[limit ..])
    {
      MemSet(data, NUL, limit);
      length := 0;
    }

    /** sb_grow: a Fixed buffer only has its room asserted; a Dynamic one
        moves its content into zeroed storage of a doubled capacity. */
    method Grow(need: nat)
      requires Valid() && Room(Geo(), need)
      modifies this
      ensures Valid() && mode == old(mode) && length == old(length)
      ensures limit == GrowLimit(old(Geo()), need) && Content() == old(Content())
      ensures length + need <= limit
      ensures mode == Fixed ==> data == old(data)
      ensures mode == Dynamic ==> fresh(data) && forall i :: length <= i < data.Length ==> data[i] == NUL
    {
      if mode == Fixed {
        return;
      }
      var alloc := limit * 2;
      while alloc < length + need
        invariant alloc > 0 && Grown(alloc, length + need) == Doubled(limit, length + need)
        decreases length + need - alloc
      {
        alloc := alloc * 2;
      }
      var storage := new char[alloc + 1](_ => NUL);
      forall i | 0 <= i < length {
        storage[i] := data[i];
      }
      data := storage;
      limit := alloc;
    }

    /** sb_need: grow unless `need` bytes remain before `end`; a Fixed
        buffer always goes through sb_grow's check. */
    method Need(need: nat)
      requires Valid() && Room(Geo(), need)
      modifies this
      ensures Valid() && mode == old(mode) && length == old(length)
      ensures limit == NeedLimit(old(Geo()), need) && length + need <= limit
      ensures Content() == old(Content())
      ensures data == old(data) || (mode == Dynamic && fresh(data))
    {
      NeedLimitCovers(Geo(), need);
      if mode == Fixed || limit - length < need {
        Grow(need);
      }
    }

    /** strbf_put (and strbf_putu): append `count` bytes; nothing for a null
        pointer or a zero count. */
    method Put(bytes: Option<seq<char>>, count: nat)
      requires Valid()
      requires bytes.Some? ==> count <= |bytes.value|
      requires bytes.Some? && count > 0 ==> Room(Geo(), count)
      modifies this, data
      ensures Valid() && mode == old(mode) && (data == old(data) || (mode == Dynamic && fresh(data)))
      ensures bytes.Some? && count > 0 ==>
        Content() == old(Content()) + bytes.value[.. count] && limit == NeedLimit(old(Geo()), count)
      ensures bytes.None? || count == 0 ==> unchanged(this) && unchanged(data)
    {
      if bytes.Some? && count > 0 {
        Need(count);
        ghost var b := data[..];
        MemCpy(data, length, bytes.value, count);
        OverlayFront(b, length, bytes.value[.. count]);
        length := length + count;
      }
    }

    /** strbf_putc: append one byte, growing when the cursor is at `end`. */
    method PutC(c: char)
      requires Valid() && Room(Geo(), 1)
      modifies this, data
      ensures Valid() && mode == old(mode) && (data == old(data) || (mode == Dynamic && fresh(data)))
      ensures Content() == old(Content()) + [c] && limit == ByteLimit(old(Geo()))
    {
      ByteLimitCovers(Geo());
      if mode == Fixed || length >= limit {
        Grow(1);
      }
      data[length] := c;
      length := length + 1;
    }

    /** strbf_puts: append a C string; nothing for null. */
    method PutS(str: Option<seq<char>>)
      requires Valid()
      requires |SegText(str)| > 0 ==> Room(Geo(), |SegText(str)|)
      modifies this, data
      ensures Valid() && mode == old(mode) && (data == old(data) || (mode == Dynamic && fresh(data)))
      ensures Content() == old(Content()) + SegText(str)
      ensures limit == if |SegText(str)| > 0 then NeedLimit(old(Geo()), |SegText(str)|) else old(limit)
    {
      if str.Some? {
        Put(str, StrLen(str.value));
      }
    }

    /** strbf_puts_v: strbf_puts with each argument in turn. */
    method PutsV(strs: seq<Option<seq<char>>>)
      requires Valid()
      requires mode == Fixed && |SegTexts(strs)| > 0 ==> length + |SegTexts(strs)| < limit
      modifies this, data
      ensures Valid() && mode == old(mode) && (data == old(data) || (mode == Dynamic && fresh(data)))
      ensures Content() == old(Content()) + SegTexts(strs)
      ensures old(limit) <= limit && (mode == Fixed ==> limit == old(limit))
    {
      var i := 0;
      while i < |strs|
        invariant i <= |strs| && Valid() && mode == old(mode) && (data == old(data) || (mode == Dynamic && fresh(data)))
        invariant Content() == old(Content()) + SegTexts(strs[.. i])
        invariant old(limit) <= limit && (mode == Fixed ==> limit == old(limit))
      {
        PutsNext(strs, i, old(Content()));
        i := i + 1;
      }
      assert strs[.. i] == strs;
    }

    /** One round of strbf_puts_v's loop: the next argument appended. */
    method PutsNext(strs: seq<Option<seq<char>>>, i: nat, ghost before: string)
      requires Valid() && i < |strs| && Content() == before + SegTexts(strs[.. i])
      requires mode == Fixed && |SegTexts(strs)| > 0 ==> |before| + |SegTexts(strs)| < limit
      modifies this, data
      ensures Valid() && mode == old(mode) && (data == old(data) || (mode == Dynamic && fresh(data)))
      ensures Content() == before + SegTexts(strs[.. i + 1])
      ensures old(limit) <= limit && (mode == Fixed ==> limit == old(limit))
    {
      ghost var t := SegText(strs[i]);
      SegTextsStep(strs, i);
      SegTextsPrefix(strs, i + 1);
      assert |t| > 0 ==> Room(Geo(), |t|);
      if |t| > 0 {
        NeedLimitCovers(Geo(), |t|);
      }
      ghost var u := SegTexts(strs[.. i]);
      PutS(strs[i]);
      AppendAssoc(before, u, t);
    }

    /** strbf_putl: the signed text of a 32-bit `long`, formatted by xltoa
        into a 16-byte scratch array and appended. */
    method PutL(val: int)
      requires Valid() && IsInt32(val) && val != INT32_MIN
      requires Room(Geo(), |SignedText(val)|)
      modifies this, data
      ensures Valid() && mode == old(mode) && (data == old(data) || (mode == Dynamic && fresh(data)))
      ensures Content() == old(Content()) + SignedText(val)
      ensures limit == NeedLimit(old(Geo()), |SignedText(val)|)
    {
      SignedTextShort(val);
      var scratch := new char[16](_ => NUL);
      ghost var b := scratch[..];
      var len := Xltoa(val, scratch, 0);
      OverlayFront(b, 0, SignedText(val) + [NUL]);
      assert scratch[..][.. len] == SignedText(val);
      Put(Some(scratch[..]), len);
    }

    /** strbf_putul as written: the `unsigned long` goes through xltoa, whose
        parameter is int32_t, so values from 2^31 on print negative. */
    method PutUL(val: nat)
      requires Valid() && IsUint32(val) && ToInt32(val) != INT32_MIN
      requires Room(Geo(), |SignedText(ToInt32(val))|)
      modifies this, data
      ensures Valid() && mode == old(mode) && (data == old(data) || (mode == Dynamic && fresh(data)))
      ensures Content() == old(Content()) + SignedText(ToInt32(val))
      ensures limit == NeedLimit(old(Geo()), |SignedText(ToInt32(val))|)
    {
      PutL(ToInt32(val));
    }

    /** strbf_putul as intended: the unsigned value formatted by an unsigned
        converter. */
    method PutULIntended(val: nat)
      requires Valid() && IsUint32(val)
      requires Room(Geo(), |Decimal(val)|)
      modifies this, data
      ensures Valid() && mode == old(mode) && (data == old(data) || (mode == Dynamic && fresh(data)))
      ensures Content() == old(Content()) + Decimal(val)
      ensures limit == NeedLimit(old(Geo()), |Decimal(val)|)
    {
      DecimalShort(val);
      var scratch := new char[16](_ => NUL);
      ghost var b := scratch[..];
      var len := XultoaIntended(val, scratch, 0);
      OverlayFront(b, 0, Decimal(val) + [NUL]);
      assert scratch[..][.. len] == Decimal(val);
      Put(Some(scratch[..]), len);
    }

    // ---- path and URI segments ----

    /** _put_pathsep (strbf_put_pathsep with NUL, strbf_put_urisep with
        '/'): append the separator unless the content is empty or already
        ends in it. */
    method PutPathSep(sep: char)
      requires Valid()
      requires length > 0 && data[length - 1] != SepOr(sep) ==> Room(Geo(), 1)
      modifies this, data
      ensures Valid() && mode == old(mode) && (data == old(data) || (mode == Dynamic && fresh(data)))
      ensures Content() == WithSep(old(Content()), SepOr(sep))
      ensures old(limit) <= limit && (mode == Fixed ==> limit == old(limit))
    {
      var s := if sep == NUL then '/' else sep;
      if length > 0 && data[length - 1] != s {
        ByteLimitCovers(Geo());
        PutC(s);
      }
    }

    /** The part _put_path and _put_path_n share: before a segment starting
        with sep one trailing sep is dropped, before any other segment the
        separator is appended. */
    method PutSegmentLead(first: char, sep: char)
      requires Valid()
      requires first != sep && length > 0 && data[length - 1] != SepOr(sep) ==> Room(Geo(), 1)
      modifies this, data
      ensures Valid() && mode == old(mode) && (data == old(data) || (mode == Dynamic && fresh(data)))
      ensures Content() == SegmentLead(old(Content()), first, sep)
      ensures old(limit) <= limit && (mode == Fixed ==> limit == old(limit))
    {
      if first == sep {
        if length > 0 && data[length - 1] == sep {
          length := length - 1;
        }
      } else {
        PutPathSep(sep);
      }
    }

    /** _put_path (strbf_put_path and strbf_put_uri pass '/'): join a C
        string onto the content as a path segment; nothing for null. */
    method PutPath(str: Option<seq<char>>, sep: char)
      requires Valid()
      requires mode == Fixed ==> PathFits(Content(), str, sep, limit)
      modifies this, data
      ensures Valid() && mode == old(mode) && (data == old(data) || (mode == Dynamic && fresh(data)))
      ensures Content() == JoinPath(old(Content()), str, sep)
      ensures old(limit) <= limit && (mode == Fixed ==> limit == old(limit))
    {
      if str.Some? {
        PutSegmentLead(FirstChar(str.value), sep);
        PutS(str);
      }
    }

    /** _put_path_n (strbf_put_path_n passes '/'): the same with the first
        `len` bytes of the segment appended. */
    method PutPathN(str: Option<seq<char>>, sep: char, len: nat)
      requires Valid()
      requires str.Some? ==> len <= |str.value|
      requires str.Some? && mode == Fixed ==> SegmentFits(Content(), FirstChar(str.value), str.value[.. len], sep, limit)
      modifies this, data
      ensures Valid() && mode == old(mode) && (data == old(data) || (mode == Dynamic && fresh(data)))
      ensures str.Some? ==> Content() == JoinSegment(old(Content()), FirstChar(str.value), str.value[.. len], sep)
      ensures str.None? ==> unchanged(this) && unchanged(data)
      ensures old(limit) <= limit && (mode == Fixed ==> limit == old(limit))
    {
      if str.Some? {
        PutSegmentLead(FirstChar(str.value), sep);
        if len > 0 {
          NeedLimitCovers(Geo(), len);
        }
        Put(str, len);
      }
    }

    /** strbf_put_path_at (and strbf_put_uri_at): strbf_shape to `len`,
        then strbf_put_path. */
    method PutPathAt(str: Option<seq<char>>, len: nat)
      requires Valid() && len <= limit
      requires mode == Fixed ==> PathFits(data[.. len], str, '/', limit)
      modifies this, data
      ensures Valid() && mode == old(mode) && (data == old(data) || (mode == Dynamic && fresh(data)))
      ensures Content() == JoinPath(old(data[.. len]), str, '/')
      ensures old(limit) <= limit && (mode == Fixed ==> limit == old(limit))
    {
      Shape(len);
      PutPath(str, '/');
    }

    /** strbf_put_path_v (and strbf_put_uri_v): strbf_put_path with each
        argument in turn. */
    method PutPathV(strs: seq<Option<seq<char>>>)
      requires Valid()
      requires mode == Fixed ==> PathsFit(Content(), strs, '/', limit)
      modifies this, data
      ensures Valid() && mode == old(mode) && (data == old(data) || (mode == Dynamic && fresh(data)))
      ensures Content() == JoinPaths(old(Content()), strs, '/')
      ensures old(limit) <= limit && (mode == Fixed ==> limit == old(limit))
    {
      var i := 0;
      while i < |strs|
        invariant i <= |strs| && Valid() && mode == old(mode) && (data == old(data) || (mode == Dynamic && fresh(data)))
        invariant Content() == JoinPaths(old(Content()), strs[.. i], '/')
        invariant old(limit) <= limit && (mode == Fixed ==> limit == old(limit))
      {
        PutPathNext(strs, i, old(Content()));
        i := i + 1;
      }
      assert strs[.. i] == strs;
    }

    /** One round of strbf_put_path_v's loop. */
    method PutPathNext(strs: seq<Option<seq<char>>>, i: nat, ghost before: string)
      requires Valid() && i < |strs| && Content() == JoinPaths(before, strs[.. i], '/')
      requires mode == Fixed ==> PathsFit(before, strs, '/', limit)
      modifies this, data
      ensures Valid() && mode == old(mode) && (data == old(data) || (mode == Dynamic && fresh(data)))
      ensures Content() == JoinPaths(before, strs[.. i + 1], '/')
      ensures old(limit) <= limit && (mode == Fixed ==> limit == old(limit))
    {
      JoinPathsStep(before, strs, i, '/');
      PutPath(strs[i], '/');
    }

    /** _pop_path (strbf_pop_path with NUL, strbf_pop_url with '/'): step
        back over one trailing separator, scan back to the previous one and
        cut there, unless the scan reaches `start`. The scan begins at the
        byte before the cursor, so the content must not be empty. */
    method PopPath(sep: char)
      requires Valid() && length > 0
      modifies this
      ensures Valid() && mode == old(mode) && limit == old(limit) && data == old(data)
      ensures Content() == PopSegment(old(Content()), SepOr(sep))
    {
      var s := if sep == NUL then '/' else sep;
      var cur: int := length - 1;
      if data[cur] == s {
        cur := cur - 1;
      }
      assert cur == PopStart(Content(), s);
      while cur > 0 && data[cur] != s
        invariant -1 <= cur < length
        invariant ScanBack(Content(), cur, s) == ScanBack(Content(), PopStart(Content(), s), s)
        decreases cur
      {
        cur := cur - 1;
      }
      if cur > 0 && data[cur] == s {
        Pop(length - cur);
      }
    }

    /** _insert_pathsep (strbf_insert_pathsep with NUL, strbf_insert_urisep
        with '/'): insert the separator at `at` unless `at` is 0 or follows
        one. */
    method InsertPathSep(sep: char, at: nat)
      requires Valid() && at <= length
      requires at > 0 && data[at - 1] != SepOr(sep) ==> Room(Geo(), 1) && InsertCFits(Geo(), at)
      modifies this, data
      ensures Valid() && mode == old(mode) && (data == old(data) || (mode == Dynamic && fresh(data)))
      ensures Content() == InsertSep(old(Content()), SepOr(sep), at)
      ensures limit == if at > 0 && old(data[at - 1]) != SepOr(sep) then ByteLimit(old(Geo())) else old(limit)
      ensures old(limit) <= limit && (mode == Fixed ==> limit == old(limit))
    {
      var s := if sep == NUL then '/' else sep;
      if at > 0 && data[at - 1] != s {
        ByteLimitCovers(Geo());
        InsertC(s, at);
      }
    }

    /** _insert_path (strbf_insert_path and strbf_insert_uri pass '/'):
        insert a C string at `at` as a path segment; nothing for null.
        `at` moves back over a separator when the segment starts with one,
        and on over the separator stored at `at` when it does not; in
        either case _insert_pathsep runs at the new point, which must lie
        within the content. */
    method InsertPath(str: Option<seq<char>>, at: nat, sep: char)
      requires Valid() && at <= length && sep != NUL
      requires str.Some? && FirstChar(str.value) != sep && at > 0 && data[at] == sep ==> at < length
      requires str.Some? && mode == Fixed ==>
        |InsertPathText(Content(), data[at], FirstChar(str.value), CStr(str.value), at, sep)| < limit
      requires str.Some? ==>
        InsertPathMovesFit(Geo(), Content(), data[at], FirstChar(str.value), |CStr(str.value)|, at, sep)
      modifies this, data
      ensures Valid() && mode == old(mode) && (data == old(data) || (mode == Dynamic && fresh(data)))
      ensures str.Some? ==>
        Content() == InsertPathText(old(Content()), old(data[at]), FirstChar(str.value), CStr(str.value), at, sep)
      ensures str.None? ==> unchanged(this) && unchanged(data)
      ensures old(limit) <= limit && (mode == Fixed ==> limit == old(limit))
    {
      if str.Some? {
        var p := InsertPathLead(FirstChar(str.value), at, sep, CStr(str.value));
        if |CStr(str.value)| > 0 {
          NeedLimitCovers(Geo(), |CStr(str.value)|);
        }
        InsertS(str, p);
      }
    }

    /** The first half of _insert_path: find the point and, when it moved,
        run _insert_pathsep there. */
    method InsertPathLead(first: char, at: nat, sep: char, ghost tail: string) returns (p: nat)
      requires Valid() && at <= length && sep != NUL
      requires first != sep && at > 0 && data[at] == sep ==> at < length
      requires mode == Fixed ==> |InsertPathText(Content(), data[at], first, tail, at, sep)| < limit
      requires InsertPathMovesFit(Geo(), Content(), data[at], first, |tail|, at, sep)
      modifies this, data
      ensures Valid() && mode == old(mode) && (data == old(data) || (mode == Dynamic && fresh(data)))
      ensures p == InsertPathAt(old(Content()), old(data[at]), first, at, sep) && p <= length
      ensures Content() == if p != at then InsertSep(old(Content()), sep, p) else old(Content())
      ensures mode == Fixed ==> |Content()| + |tail| < limit
      ensures InsertFits(Geo(), p, |tail|)
      ensures old(limit) <= limit && (mode == Fixed ==> limit == old(limit))
    {
      ghost var g := Geo();
      ghost var s := Content();
      ghost var next := data[at];
      p := PathPoint(first, at, sep);
      ghost var added := p != at && 0 < p <= |s| && s[p - 1] != sep;
      ghost var h := if added then Geometry(g.mode, ByteLimit(g), g.length + 1) else g;
      InsertPathMovesSplit(g, s, next, first, |tail|, at, sep, p, added, h);
      if p != at {
        InsertPathSep(sep, p);
        if added {
          assert length == g.length + 1 && limit == ByteLimit(g);
        } else {
          assert length == g.length && limit == g.limit;
        }
      }
      assert Geo() == h;
    }

    /** The point _insert_path inserts at, from the segment's first byte. */
    method PathPoint(first: char, at: nat, sep: char) returns (p: nat)
      requires Valid() && at <= length
      ensures p == InsertPathAt(Content(), data[at], first, at, sep)
    {
      p := at;
      if first == sep {
        if p > 0 && data[p - 1] == sep {
          p := p - 1;
        }
      } else {
        if p > 0 && data[p] == sep {
          p := p + 1;
        }
      }
    }

    /** strbf_finish_url: _put_pathsep with '/', then strbf_finish. */
    method FinishUrl()
      requires Valid() && NoNul(Content())
      requires length > 0 && data[length - 1] != '/' ==> Room(Geo(), 1)
      modifies this, data
      ensures Valid() && mode == old(mode) && (data == old(data) || (mode == Dynamic && fresh(data)))
      ensures Content() == WithSep(old(Content()), '/') && CStr(data[..]) == Content()
      ensures old(limit) <= limit && (mode == Fixed ==> limit == old(limit))
    {
      PutPathSep('/');
      Finish();
    }

    /** strbf_concat: strbf_put, then a terminator at the cursor. */
    method Concat(str: Option<seq<char>>, count: nat)
      requires Valid()
      requires str.Some? ==> count <= |str.value|
      requires str.Some? && count > 0 ==> Room(Geo(), count)
      modifies this, data
      ensures Valid() && mode == old(mode) && (data == old(data) || (mode == Dynamic && fresh(data)))
      ensures Content() == old(Content()) + (if str.Some? then str.value[.. count] else [])
      ensures limit == if str.Some? && count > 0 then NeedLimit(old(Geo()), count) else old(limit)
      ensures data[length] == NUL
    {
      Put(str, count);
      data[length] := NUL;
    }

    /** strbf_concatc: strbf_putc, then a terminator. */
    method ConcatC(c: char)
      requires Valid() && Room(Geo(), 1)
      modifies this, data
      ensures Valid() && mode == old(mode) && (data == old(data) || (mode == Dynamic && fresh(data)))
      ensures Content() == old(Content()) + [c] && limit == ByteLimit(old(Geo()))
      ensures data[length] == NUL
    {
      PutC(c);
      data[length] := NUL;
    }

    /** strbf_concats: for a non-null string, strbf_put of its bytes and a
        terminator; nothing at all for null. */
    method ConcatS(str: Option<seq<char>>)
      requires Valid()
      requires |SegText(str)| > 0 ==> Room(Geo(), |SegText(str)|)
      modifies this, data
      ensures Valid() && mode == old(mode) && (data == old(data) || (mode == Dynamic && fresh(data)))
      ensures Content() == old(Content()) + SegText(str)
      ensures limit == if |SegText(str)| > 0 then NeedLimit(old(Geo()), |SegText(str)|) else old(limit)
      ensures str.Some? ==> data[length] == NUL
      ensures str.None? ==> unchanged(this) && unchanged(data)
    {
      if str.Some? {
        Put(str, StrLen(str.value));
        data[length] := NUL;
      }
    }

    /** strbf_insert as written: the memmove carries `cur - start + after`
        bytes, `after` more than the tail, so it needs room past the new
        end. */
    method Insert(str: Option<seq<char>>, after: nat, count: nat)
      requires Valid()
      requires str.Some? ==> (InsertCount(str.value, count) <= |str.value| && after <= length &&
        Room(Geo(), InsertCount(str.value, count)) && InsertFits(Geo(), after, InsertCount(str.value, count)))
      modifies this, data
      ensures Valid() && mode == old(mode) && (data == old(data) || (mode == Dynamic && fresh(data)))
      ensures str.Some? ==> var n := InsertCount(str.value, count);
        Content() == old(Content())[.. after] + str.value[.. n] + old(Content())[after ..] &&
        limit == NeedLimit(old(Geo()), n)
      ensures str.None? ==> unchanged(this) && unchanged(data)
    {
      if str.Some? {
        var n := if count == 0 then StrLen(str.value) else count;
        Need(n);
        SpliceIn(data, length, after, str.value, n, length + after);
        length := length + n;
      }
    }

    /** strbf_insert with the memmove carrying only the tail. */
    method InsertIntended(str: Option<seq<char>>, after: nat, count: nat)
      requires Valid()
      requires str.Some? ==> (InsertCount(str.value, count) <= |str.value| && after <= length &&
        Room(Geo(), InsertCount(str.value, count)))
      modifies this, data
      ensures Valid() && mode == old(mode) && (data == old(data) || (mode == Dynamic && fresh(data)))
      ensures str.Some? ==> var n := InsertCount(str.value, count);
        Content() == old(Content())[.. after] + str.value[.. n] + old(Content())[after ..] &&
        limit == NeedLimit(old(Geo()), n)
      ensures str.None? ==> unchanged(this) && unchanged(data)
    {
      if str.Some? {
        var n := if count == 0 then StrLen(str.value) else count;
        Need(n);
        TailMoveFits(old(Geo()), after, n);
        SpliceIn(data, length, after, str.value, n, length - after);
        length := length + n;
      }
    }

    /** strbf_insertc as written: nothing for NUL; otherwise the byte goes
        in at `after`, with the same over-long move as strbf_insert. */
    method InsertC(c: char, after: nat)
      requires Valid()
      requires c != NUL ==> after <= length && Room(Geo(), 1) && InsertCFits(Geo(), after)
      modifies this, data
      ensures Valid() && mode == old(mode) && (data == old(data) || (mode == Dynamic && fresh(data)))
      ensures c != NUL ==>
        Content() == old(Content())[.. after] + [c] + old(Content())[after ..] && limit == ByteLimit(old(Geo()))
      ensures c == NUL ==> unchanged(this) && unchanged(data)
    {
      if c != NUL {
        ByteLimitCovers(Geo());
        if mode == Fixed || length >= limit {
          Grow(1);
        }
        SpliceByte(data, length, after, c, length + after);
        length := length + 1;
      }
    }

    /** strbf_insertc with the memmove carrying only the tail. */
    method InsertCIntended(c: char, after: nat)
      requires Valid()
      requires c != NUL ==> after <= length && Room(Geo(), 1)
      modifies this, data
      ensures Valid() && mode == old(mode) && (data == old(data) || (mode == Dynamic && fresh(data)))
      ensures c != NUL ==>
        Content() == old(Content())[.. after] + [c] + old(Content())[after ..] && limit == ByteLimit(old(Geo()))
      ensures c == NUL ==> unchanged(this) && unchanged(data)
    {
      if c != NUL {
        ByteLimitCovers(Geo());
        if mode == Fixed || length >= limit {
          Grow(1);
        }
        TailMoveFits(old(Geo()), after, 1);
        SpliceByte(data, length, after, c, length - after);
        length := length + 1;
      }
    }

    /** strbf_inserts: strbf_insert, as written, of a C string's bytes. */
    method InsertS(str: Option<seq<char>>, after: nat)
      requires Valid()
      requires str.Some? ==> (after <= length && Room(Geo(), |CStr(str.value)|) &&
        InsertFits(Geo(), after, |CStr(str.value)|))
      modifies this, data
      ensures Valid() && mode == old(mode) && (data == old(data) || (mode == Dynamic && fresh(data)))
      ensures str.Some? ==>
        Content() == old(Content())[.. after] + CStr(str.value) + old(Content())[after ..] &&
        limit == NeedLimit(old(Geo()), |CStr(str.value)|)
      ensures str.None? ==> unchanged(this) && unchanged(data)
    {
      if str.Some? {
        Insert(str, after, StrLen(str.value));
      }
    }

    /** strbf_prepend: `count` bytes (the string's length when 0) in front
        of the content. */
    method Prepend(str: Option<seq<char>>, count: nat)
      requires Valid()
      requires str.Some? ==> InsertCount(str.value, count) <= |str.value| && Room(Geo(), InsertCount(str.value, count))
      modifies this, data
      ensures Valid() && mode == old(mode) && (data == old(data) || (mode == Dynamic && fresh(data)))
      ensures str.Some? ==> var n := InsertCount(str.value, count);
        Content() == str.value[.. n] + old(Content()) && limit == NeedLimit(old(Geo()), n)
      ensures str.None? ==> unchanged(this) && unchanged(data)
    {
      if str.Some? {
        var n := if count == 0 then StrLen(str.value) else count;
        Need(n);
        SpliceIn(data, length, 0, str.value, n, length);
        length := length + n;
      }
    }

    /** strbf_prependc: one byte in front of the content (NUL included). */
    method PrependC(c: char)
      requires Valid() && Room(Geo(), 1)
      modifies this, data
      ensures Valid() && mode == old(mode) && (data == old(data) || (mode == Dynamic && fresh(data)))
      ensures Content() == [c] + old(Content()) && limit == ByteLimit(old(Geo()))
    {
      ByteLimitCovers(Geo());
      if mode == Fixed || length >= limit {
        Grow(1);
      }
      SpliceByte(data, length, 0, c, length);
      length := length + 1;
    }

    /** strbf_prepends: strbf_prepend of a C string's bytes. */
    method PrependS(str: Option<seq<char>>)
      requires Valid()
      requires str.Some? ==> Room(Geo(), |CStr(str.value)|)
      modifies this, data
      ensures Valid() && mode == old(mode) && (data == old(data) || (mode == Dynamic && fresh(data)))
      ensures str.Some? ==>
        Content() == CStr(str.value) + old(Content()) && limit == NeedLimit(old(Geo()), |CStr(str.value)|)
      ensures str.None? ==> unchanged(this) && unchanged(data)
    {
      if str.Some? {
        Prepend(str, StrLen(str.value));
      }
    }

    /** strbf_prepend of `count` bytes followed by strbf_shift of the same
        count gives the content back. */
    method PrependThenShift(str: seq<char>, count: nat)
      requires Valid() && 0 < count <= |str| && Room(Geo(), count)
      modifies this, data
      ensures Valid() && mode == old(mode) && Content() == old(Content())
    {
      Prepend(Some(str), count);
      Shift(count);
      assert (str[.. count] + old(Content()))[count ..] == old(Content());
    }

    /** strbf_shift: drop `count` bytes from the front. */
    method Shift(count: nat)
      requires Valid() && count <= length
      modifies this, data
      ensures Valid() && mode == old(mode) && limit == old(limit) && data == old(data)
      ensures Content() == old(Content())[count ..]
    {
      if count > 0 {
        MemMove(data, 0, count, length - count);
        OverlayFront(old(data[..]), 0, old(data[count .. length]));
        length := length - count;
      }
    }

    /** strbf_pop: drop `count` bytes from the end. */
    method Pop(count: nat)
      requires Valid() && count <= length
      modifies this
      ensures Valid() && mode == old(mode) && limit == old(limit) && data == old(data)
      ensures Content() == old(Content())[.. old(length) - count]
    {
      if count > 0 {
        length := length - count;
      }
    }

    /** strbf_shape: set the cursor to `count` and terminate there; the
        bytes up to it become the content, whatever they were. */
    method Shape(count: nat)
      requires Valid() && count <= limit
      modifies this, data
      ensures Valid() && mode == old(mode) && limit == old(limit) && data == old(data)
      ensures length == count && Content() == old(data[.. count])
      ensures data[..] == old(data[..])[count := NUL]
    {
      length := count;
      data[count] := NUL;
    }

    /** strbf_trim: trailing spacing dropped by moving the cursor back, then
        leading spacing by moving the rest to the front. The right scan has
        no lower bound, so the content must hold a byte that is not
        spacing. */
    method Trim()
      requires Valid() && HasText(Content())
      modifies this, data
      ensures Valid() && mode == old(mode) && limit == old(limit) && data == old(data)
      ensures Content() == TrimText(old(Content()))
    {
      ghost var w :| 0 <= w < length && !IsSpacing(data[w]);
      TrimEnd(w);
      TrimStart();
    }

    /** The right trim: the cursor moves back over spacing until the byte
        before it, at the latest the one at w, is not spacing. */
    method TrimEnd(ghost w: nat)
      requires Valid() && w < length && !IsSpacing(data[w])
      modifies this
      ensures Valid() && mode == old(mode) && limit == old(limit) && data == old(data)
      ensures w < length && !IsSpacing(data[length - 1])
      ensures Content() == TrimRight(old(Content()))
    {
      while IsSpacing(data[length - 1])
        invariant Valid() && mode == old(mode) && limit == old(limit) && data == old(data)
        invariant w < length <= old(length)
        invariant TrimRight(data[.. length]) == TrimRight(old(data[.. length]))
        decreases length
      {
        assert data[.. length][.. length - 1] == data[.. length - 1];
        length := length - 1;
      }
    }

    /** The left trim: count the leading spacing, which stops before the
        last byte, and move the rest to the front. */
    method TrimStart()
      requires Valid() && 0 < length && !IsSpacing(data[length - 1])
      modifies this, data
      ensures Valid() && mode == old(mode) && limit == old(limit) && data == old(data)
      ensures Content() == TrimLeft(old(Content()))
    {
      if IsSpacing(data[0]) {
        ghost var r := data[.. length];
        var i := 0;
        while IsSpacing(data[i])
          invariant i < length && TrimLeft(r[i ..]) == TrimLeft(r)
          decreases length - i
        {
          assert r[i ..][1 ..] == r[i + 1 ..];
          i := i + 1;
        }
        ghost var b := data[..];
        MemMove(data, 0, i, length - i);
        OverlayFront(b, 0, r[i ..]);
        length := length - i;
        assert Content() == r[i ..];
      }
    }

    /** strbf_finish: terminate at the cursor; the C string at `start` is
        then the content, provided the content holds no NUL. */
    method Finish()
      requires Valid() && NoNul(Content())
      modifies data
      ensures data[..] == old(data[..])[length := NUL]
      ensures CStr(data[..]) == Content()
    {
      data[length] := NUL;
      assert data[..] == Content() + [NUL] + data[length + 1 ..];
      CStrOfTerminated(Content(), data[length + 1 ..]);
    }

    /** strbf_len */
    function Len(): (n: nat)
      reads this, data
      requires Valid()
      ensures n == |Content()|
    {
      length
    }
  }
}
