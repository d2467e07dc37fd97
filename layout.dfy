/** The flat buffer layout of the table: a directory of bucket offsets followed
    by the bucket segments, the hash that picks a bucket, and the map the buffer
    denotes.

    Keys are placed by `Bucket(key, hb)`, `hashFunc` for a table of `hb`
    buckets. The facts about prefixes of the directory keep `hb` fixed while
    the number of buckets looked at varies, so the two are separate
    parameters; a table of `b` buckets has `hb == b`. */
module Layout {
  import opened Bits
  import opened Pairs

  const INITIAL_CAPACITY: int := 2
  const INITIAL_BUCKET_SIZE: int := 2
  const EMPTY_VALUE: u32 := 0xFFFF_FFFF
  const BUCKET_END_VALUE: u32 := 0xFFFF_FFFE
  /** Words of a fresh segment: INITIAL_BUCKET_SIZE key/value slots and the end marker. */
  const SEGMENT_WORDS: int := 2 * INITIAL_BUCKET_SIZE + 1

  /** The two reserved words that may never be keys. */
  predicate IsSentinel(w: u32)
  {
    w == EMPTY_VALUE || w == BUCKET_END_VALUE
  }

  /** `hashFunc`: xor-shift mixing of the key, masked with `buckets - 1`. The
      result is always a directory index. */
  function HashFunc(key: u32, buckets: int): (r: u32)
    requires 1 <= buckets <= WORD_LIMIT
    ensures r as int < buckets
  {
    var k := key as int;
    // key ^ (key >> 20) ^ (key >> 12) ^ (key >> 7) ^ (key >> 4)
    var mixed := BitXor(BitXor(BitXor(BitXor(k, k / 0x10_0000), k / 0x1000), k / 0x80), k / 0x10);
    BitAnd(mixed, buckets - 1) as u32
  }

  /** The bucket `hashFunc` assigns to `key` in a table of `hb` buckets. */
  function Bucket(key: u32, hb: int): (r: int)
    ensures 1 <= hb <= WORD_LIMIT ==> 0 <= r < hb
  {
    if 1 <= hb <= WORD_LIMIT then HashFunc(key, hb) as int else 0
  }

  // ---------------------------------------------------------------- directory

  /** Start offset of bucket `j`'s segment, read from directory word `j`. */
  function Off(s: seq<u32>, j: int): int
    requires 0 <= j < |s|
  {
    s[j] as int
  }

  /** One past the last word of bucket `j`'s segment: the next bucket's start,
      or the end of the buffer for the last bucket. */
  function End(s: seq<u32>, b: int, j: int): int
    requires 0 <= j < b <= |s|
  {
    if j + 1 < b then Off(s, j + 1) else |s|
  }

  /** Words [0, b) are a directory of segment offsets: the first segment starts
      right after the directory, each segment is non-empty and ends where the
      next one starts, and the last one ends with the buffer. */
  ghost predicate DirOk(s: seq<u32>, b: int)
  {
    && 1 <= b < |s| < WORD_LIMIT
    && Off(s, 0) == b
    && (forall j {:trigger End(s, b, j)} :: 0 <= j < b ==> b <= Off(s, j) < End(s, b, j) <= |s|)
  }

  /** Where bucket `j`'s segment lies in a well-formed directory. */
  lemma DirBounds(s: seq<u32>, b: int, j: int)
    requires DirOk(s, b) && 0 <= j < b
    ensures b <= Off(s, j) < End(s, b, j) <= |s|
  {
    assert Off(s, j) < End(s, b, j);
  }

  /** The segment of bucket `j`. */
  function Seg(s: seq<u32>, b: int, j: int): seq<u32>
    requires DirOk(s, b) && 0 <= j < b
  {
    var end := End(s, b, j);
    s[Off(s, j)..end]
  }

  /** The first `t` words of bucket `j`'s segment, read off the buffer. */
  lemma SegTake(s: seq<u32>, b: int, j: int, t: int)
    requires DirOk(s, b) && 0 <= j < b && 0 <= t <= |Seg(s, b, j)|
    ensures Off(s, j) + t <= |s| && Seg(s, b, j)[..t] == s[Off(s, j)..Off(s, j) + t]
  {
  }

  /** All segments, in bucket order. */
  function Segs(s: seq<u32>, b: int): seq<seq<u32>>
    requires DirOk(s, b)
  {
    seq(b, j requires 0 <= j < b => Seg(s, b, j))
  }

  // ----------------------------------------------------------------- segments

  /** Where a scan of `seg` that starts at key position `t` and steps over whole
      slots stops: the first key word that is `EMPTY_VALUE` or `BUCKET_END_VALUE`. */
  function ScanEnd(seg: seq<u32>, t: nat): (r: nat)
    ensures t <= r && (r - t) % 2 == 0
    ensures r < |seg| ==> IsSentinel(seg[r])
    ensures forall u {:trigger IsSentinel(seg[u])} :: t <= u < r && u < |seg| && (u - t) % 2 == 0 ==> !IsSentinel(seg[u])
    decreases |seg| - t
  {
    if t >= |seg| || IsSentinel(seg[t]) then t else ScanEnd(seg, t + 2)
  }

  /** Number of words of live key/value pairs at the front of a segment. */
  function LiveLen(seg: seq<u32>): nat
  {
    ScanEnd(seg, 0)
  }

  /** The live pairs of a segment, as flat words. */
  function LivePrefix(seg: seq<u32>): seq<u32>
  {
    if LiveLen(seg) <= |seg| then seg[..LiveLen(seg)] else seg
  }

  /** A segment is key/value slots and one trailing end marker; the live pairs
      come first and every slot after them is empty. */
  ghost predicate SegShape(seg: seq<u32>)
  {
    && |seg| % 2 == 1
    && seg[|seg| - 1] == BUCKET_END_VALUE
    && LiveLen(seg) < |seg|
    && forall u :: LiveLen(seg) <= u < |seg| - 1 && u % 2 == 0 ==> seg[u] == EMPTY_VALUE
  }

  /** Position `u` of `seg` holds a key of bucket `j`. */
  ghost predicate KeyIn(seg: seq<u32>, u: int, j: int, hb: int)
  {
    0 <= u < |seg| && Bucket(seg[u], hb) == j
  }

  /** Segment `seg` is well formed for bucket `j`: every live key belongs to
      bucket `j`, and no live key occurs twice. */
  ghost predicate SegGood(seg: seq<u32>, j: int, hb: int)
  {
    && SegShape(seg)
    && (forall u {:trigger KeyIn(seg, u, j, hb)} :: 0 <= u < LiveLen(seg) && u % 2 == 0 ==> KeyIn(seg, u, j, hb))
    && Distinct(LivePrefix(seg))
  }

  ghost predicate SegsGood(segs: seq<seq<u32>>, hb: int)
  {
    forall j {:trigger SegGood(segs[j], j, hb)} :: 0 <= j < |segs| ==> SegGood(segs[j], j, hb)
  }

  /** The live pairs of all segments, bucket by bucket: what `Iter` lists. */
  function Flat(segs: seq<seq<u32>>): seq<u32>
    decreases |segs|
  {
    if segs == [] then [] else Flat(segs[..|segs| - 1]) + LivePrefix(segs[|segs| - 1])
  }

  // -------------------------------------------------------------------- table

  /** The layout invariant of a table with buffer `s`, `b` buckets, capacity
      counter `maxSize` (total key/value slots), `size` pairs, whose keys
      are placed by `Bucket(key, hb)`. The buffer stays small enough that
      offsets never wrap. */
  ghost predicate TableOk(s: seq<u32>, b: int, maxSize: int, size: int, hb: int)
  {
    && DirOk(s, b)
    && |s| == 2 * b + 2 * maxSize
    && |s| <= 6 * b + 4 * size
    && SegsGood(Segs(s, b), hb)
    && |Flat(Segs(s, b))| == 2 * size
  }

  /** The map a buffer holds. */
  function Contents(s: seq<u32>, b: int): map<u32, u32>
    requires DirOk(s, b)
  {
    PairsMap(Flat(Segs(s, b)))
  }

  /** `idx` is the key word of a live pair of the bucket its key belongs to:
      what a successful `GetIndex` returns. */
  ghost predicate LiveSlot(s: seq<u32>, b: int, idx: int, hb: int)
    requires DirOk(s, b)
  {
    && b <= idx && idx + 1 < |s|
    && Bucket(s[idx], hb) < b
    && var h := Bucket(s[idx], hb);
       Off(s, h) <= idx < Off(s, h) + LiveLen(Seg(s, b, h)) && (idx - Off(s, h)) % 2 == 0
  }

  /** `idx` is a live slot holding `k`, followed by `k`'s value. */
  ghost predicate KeySlot(s: seq<u32>, b: int, k: u32, idx: int, hb: int)
    requires DirOk(s, b)
  {
    && LiveSlot(s, b, idx, hb)
    && s[idx] == k && k in Contents(s, b) && s[idx + 1] == Contents(s, b)[k]
  }

  // ----------------------------------------------------------- segment lemmas

  /** The live prefix of a well-shaped segment stops on a whole slot strictly
      before the end marker, at an empty key or at the end marker itself. */
  lemma ShapeFacts(seg: seq<u32>)
    requires SegShape(seg)
    ensures LiveLen(seg) % 2 == 0 && LiveLen(seg) <= |seg| - 1
    ensures LiveLen(seg) == |seg| - 1 || seg[LiveLen(seg)] == EMPTY_VALUE
    ensures LivePrefix(seg) == seg[..LiveLen(seg)]
  {
  }

  /** A scan that is still inside the live prefix and meets a reserved word has
      reached the end of the live prefix. */
  lemma ScanStop(seg: seq<u32>, t: int)
    requires 0 <= t <= LiveLen(seg) && t < |seg| && t % 2 == 0 && IsSentinel(seg[t])
    ensures t == LiveLen(seg)
  {
  }

  /** A scan inside a well-shaped segment that meets a real key word may take
      another step. */
  lemma ScanNext(seg: seq<u32>, t: int)
    requires SegShape(seg) && 0 <= t <= LiveLen(seg) && t < |seg| && t % 2 == 0 && !IsSentinel(seg[t])
    ensures t + 2 <= LiveLen(seg) && t + 1 < |seg| - 1 && (t + 2) % 2 == 0
  {
    ShapeFacts(seg);
  }

  /** A scan step past a key word other than `k` keeps `k` unseen. */
  lemma ScanPast(seg: seq<u32>, t: int, k: u32)
    requires 0 <= t < |seg| && t % 2 == 0 && seg[t] != k
    requires forall u :: 0 <= u < t && u % 2 == 0 ==> seg[u] != k
    ensures forall u :: 0 <= u < t + 2 && u % 2 == 0 ==> seg[u] != k
  {
    forall u | 0 <= u < t + 2 && u % 2 == 0 ensures seg[u] != k {
      assert u != t + 1;
    }
  }

  /** A live key of a good segment is an entry of the segment's map, with the
      value in the next word. */
  lemma SegFound(seg: seq<u32>, j: int, hb: int, t: int)
    requires SegGood(seg, j, hb)
    requires 0 <= t < LiveLen(seg) && t % 2 == 0
    ensures seg[t] in PairsMap(LivePrefix(seg)) && PairsMap(LivePrefix(seg))[seg[t]] == seg[t + 1]
  {
    ShapeFacts(seg);
    var p := LivePrefix(seg);
    assert p[t] == seg[t] && p[t + 1] == seg[t + 1];
    PairsMapAt(p, t);
  }

  /** A key that is at none of the live key positions is not in the segment's map. */
  lemma SegAbsent(seg: seq<u32>, k: u32)
    requires SegShape(seg)
    requires forall u :: 0 <= u < LiveLen(seg) && u % 2 == 0 ==> seg[u] != k
    ensures k !in PairsMap(LivePrefix(seg))
  {
    ShapeFacts(seg);
    var p := LivePrefix(seg);
    assert forall u :: 0 <= u < |p| ==> p[u] == seg[u];
    PairsMapKeys(p, k);
  }

  // -------------------------------------------------------------- flat lemmas

  /** Every key position of `w` holds a real key of a bucket below `n`. */
  ghost predicate KeysBelow(w: seq<u32>, hb: int, n: int)
  {
    forall u {:trigger KeyAt(w, u)} :: 0 <= u < |w| && u % 2 == 0 ==> !IsSentinel(KeyAt(w, u)) && Bucket(KeyAt(w, u), hb) < n
  }

  /** Keys of earlier buckets and keys of bucket `n` never collide. */
  lemma DistinctConcat(a: seq<u32>, p: seq<u32>, hb: int, n: int)
    requires |a| % 2 == 0
    requires Distinct(a) && Distinct(p) && KeysBelow(a, hb, n)
    requires forall u :: 0 <= u < |p| && u % 2 == 0 ==> KeyIn(p, u, n, hb)
    ensures Distinct(a + p)
  {
    forall u, u' | 0 <= u < u' < |a + p| && u % 2 == 0 && u' % 2 == 0
      ensures KeyAt(a + p, u) != KeyAt(a + p, u')
    {
      if u' < |a| {
        assert KeyAt(a, u) != KeyAt(a, u');
      } else if u >= |a| {
        EvenShift(u, |a|);
        EvenShift(u', |a|);
        assert KeyAt(p, u - |a|) != KeyAt(p, u' - |a|);
      } else {
        EvenShift(u', |a|);
        assert Bucket(KeyAt(a, u), hb) < n;
        assert KeyIn(p, u' - |a|, n, hb);
      }
    }
  }

  /** The live prefix of a good segment of bucket `n` holds real keys of bucket `n`. */
  lemma LiveKeys(seg: seq<u32>, hb: int, n: int)
    requires SegGood(seg, n, hb)
    ensures |LivePrefix(seg)| % 2 == 0 && Distinct(LivePrefix(seg))
    ensures forall u :: 0 <= u < |LivePrefix(seg)| && u % 2 == 0 ==> !IsSentinel(LivePrefix(seg)[u])
    ensures forall u :: 0 <= u < |LivePrefix(seg)| && u % 2 == 0 ==> KeyIn(LivePrefix(seg), u, n, hb)
  {
    ShapeFacts(seg);
    var p := LivePrefix(seg);
    forall u | 0 <= u < |p| && u % 2 == 0
      ensures !IsSentinel(p[u]) && KeyIn(p, u, n, hb)
    {
      assert p[u] == seg[u] && KeyIn(seg, u, n, hb);
    }
  }

  /** The segments of a good listing but the last are a good listing. */
  lemma InitGood(segs: seq<seq<u32>>, hb: int)
    requires SegsGood(segs, hb) && segs != []
    ensures SegsGood(segs[..|segs| - 1], hb)
  {
    var init := segs[..|segs| - 1];
    forall j | 0 <= j < |init| ensures SegGood(init[j], j, hb) {
      assert init[j] == segs[j];
    }
  }

  /** Keys of a listing and keys of a later bucket's segment, side by side. */
  lemma KeysBelowConcat(a: seq<u32>, p: seq<u32>, hb: int, n: int)
    requires |a| % 2 == 0 && KeysBelow(a, hb, n)
    requires forall u :: 0 <= u < |p| && u % 2 == 0 ==> !IsSentinel(p[u])
    requires forall u :: 0 <= u < |p| && u % 2 == 0 ==> KeyIn(p, u, n, hb)
    ensures KeysBelow(a + p, hb, n + 1)
  {
    forall u | 0 <= u < |a + p| && u % 2 == 0
      ensures !IsSentinel(KeyAt(a + p, u)) && Bucket(KeyAt(a + p, u), hb) < n + 1
    {
      if u < |a| {
        assert KeyAt(a + p, u) == KeyAt(a, u);
      } else {
        assert KeyAt(a + p, u) == p[u - |a|] && KeyIn(p, u - |a|, n, hb);
      }
    }
  }

  /** The flat listing has whole pairs, and every key is a real key of one of
      the listed buckets. */
  lemma {:induction false} FlatKeys(segs: seq<seq<u32>>, hb: int)
    requires SegsGood(segs, hb)
    ensures |Flat(segs)| % 2 == 0 && KeysBelow(Flat(segs), hb, |segs|)
    decreases |segs|
  {
    if segs != [] {
      var n := |segs| - 1;
      InitGood(segs, hb);
      FlatKeys(segs[..n], hb);
      LiveKeys(segs[n], hb, n);
      assert Flat(segs) == Flat(segs[..n]) + LivePrefix(segs[n]);
      KeysBelowConcat(Flat(segs[..n]), LivePrefix(segs[n]), hb, n);
    }
  }

  /** The flat listing has whole pairs, no key twice, and every key is a real
      key of one of the listed buckets. */
  lemma {:induction false} FlatFacts(segs: seq<seq<u32>>, hb: int)
    requires SegsGood(segs, hb)
    ensures |Flat(segs)| % 2 == 0 && Distinct(Flat(segs)) && KeysBelow(Flat(segs), hb, |segs|)
    decreases |segs|
  {
    FlatKeys(segs, hb);
    if segs != [] {
      var n := |segs| - 1;
      InitGood(segs, hb);
      FlatFacts(segs[..n], hb);
      LiveKeys(segs[n], hb, n);
      assert Flat(segs) == Flat(segs[..n]) + LivePrefix(segs[n]);
      DistinctConcat(Flat(segs[..n]), LivePrefix(segs[n]), hb, n);
    }
  }

  /** Looking a key up in a listing followed by one later bucket's pairs: the
      key is found in the part of the bucket it belongs to. */
  lemma LookupConcat(a: seq<u32>, p: seq<u32>, hb: int, n: int, k: u32)
    requires |a| % 2 == 0 && |p| % 2 == 0 && KeysBelow(a, hb, n)
    requires forall u :: 0 <= u < |p| && u % 2 == 0 ==> KeyIn(p, u, n, hb)
    ensures k in PairsMap(a + p) <==> (Bucket(k, hb) < n && k in PairsMap(a)) || (Bucket(k, hb) == n && k in PairsMap(p))
    ensures k in PairsMap(a + p) ==>
      PairsMap(a + p)[k] == if Bucket(k, hb) == n then PairsMap(p)[k] else PairsMap(a)[k]
  {
    PairsMapConcat(a, p);
    PairsMapKeys(a, k);
    PairsMapKeys(p, k);
    if k in PairsMap(a) {
      var u :| 0 <= u < |a| && u % 2 == 0 && a[u] == k;
      assert Bucket(KeyAt(a, u), hb) < n;
    }
    if k in PairsMap(p) {
      var u :| 0 <= u < |p| && u % 2 == 0 && p[u] == k;
      assert KeyIn(p, u, n, hb);
    }
  }

  /** A key is held by the flat listing exactly when it is live in the segment
      of its bucket, and with the value it has there. */
  lemma {:induction false} FlatLookup(segs: seq<seq<u32>>, hb: int, k: u32)
    requires SegsGood(segs, hb)
    ensures var h := Bucket(k, hb);
      && (k in PairsMap(Flat(segs)) <==> h < |segs| && k in PairsMap(LivePrefix(segs[h])))
      && (k in PairsMap(Flat(segs)) ==> PairsMap(Flat(segs))[k] == PairsMap(LivePrefix(segs[h]))[k])
    decreases |segs|
  {
    if segs != [] {
      var n := |segs| - 1;
      var init := segs[..n];
      InitGood(segs, hb);
      FlatLookup(init, hb, k);
      FlatKeys(init, hb);
      LiveKeys(segs[n], hb, n);
      assert Flat(segs) == Flat(init) + LivePrefix(segs[n]);
      LookupConcat(Flat(init), LivePrefix(segs[n]), hb, n, k);
      if Bucket(k, hb) < n {
        assert init[Bucket(k, hb)] == segs[Bucket(k, hb)];
      }
    }
  }

  /** The length of the flat listing after one segment is replaced. */
  lemma {:induction false} FlatReplaceLen(segs: seq<seq<u32>>, h: int, x: seq<u32>)
    requires 0 <= h < |segs|
    ensures |Flat(segs[h := x])| == |Flat(segs)| - |LivePrefix(segs[h])| + |LivePrefix(x)|
    decreases |segs|
  {
    var n := |segs| - 1;
    if h == n {
      assert segs[h := x][..n] == segs[..n];
    } else {
      var pre := segs[..n];
      assert segs[h := x][..n] == pre[h := x];
      FlatReplaceLen(pre, h, x);
    }
  }

  /** Listing only the first `n` buckets gives a prefix of the full listing. */
  lemma {:induction false} FlatPrefix(segs: seq<seq<u32>>, n: int)
    requires 0 <= n <= |segs|
    ensures Flat(segs[..n]) <= Flat(segs)
    decreases |segs|
  {
    if n < |segs| {
      var m := |segs| - 1;
      assert segs[..m][..n] == segs[..n];
      FlatPrefix(segs[..m], n);
    } else {
      assert segs[..n] == segs;
    }
  }

  /** Listing one more bucket appends that bucket's live pairs, and stays
      within the full listing. */
  lemma FlatStep(segs: seq<seq<u32>>, n: int)
    requires 0 <= n < |segs|
    ensures Flat(segs[..n + 1]) == Flat(segs[..n]) + LivePrefix(segs[n])
    ensures |Flat(segs[..n + 1])| <= |Flat(segs)|
  {
    assert segs[..n + 1][..n] == segs[..n];
    FlatPrefix(segs, n + 1);
  }

  /** Buckets in which no pair is live list nothing. */
  lemma {:induction false} FlatAllEmpty(segs: seq<seq<u32>>)
    requires forall j :: 0 <= j < |segs| ==> LiveLen(segs[j]) == 0
    ensures Flat(segs) == []
    decreases |segs|
  {
    if segs != [] {
      var n := |segs| - 1;
      assert forall j :: 0 <= j < n ==> segs[..n][j] == segs[j];
      FlatAllEmpty(segs[..n]);
    }
  }

  // ------------------------------------------------------------- table lemmas

  /** Buffer word `x`, at offset `t` of bucket `j`'s segment, and the word after
      it, read through the segment. */
  lemma SegIndex(s: seq<u32>, b: int, j: int, x: int, t: int)
    requires DirOk(s, b) && 0 <= j < b && Off(s, j) <= x < End(s, b, j) && t == x - Off(s, j)
    ensures Seg(s, b, j)[t] == s[x]
    ensures x + 1 < End(s, b, j) ==> Seg(s, b, j)[t + 1] == s[x + 1]
  {
  }

  /** Each segment of a well-formed table is well formed for its bucket. */
  lemma TableSeg(s: seq<u32>, b: int, maxSize: int, size: int, hb: int, j: int)
    requires TableOk(s, b, maxSize, size, hb) && 0 <= j < b
    ensures SegGood(Seg(s, b, j), j, hb)
  {
    assert Segs(s, b)[j] == Seg(s, b, j);
  }

  /** In a well-formed table, a key is present exactly when it is live in the
      segment of its bucket, and with the value it has there. */
  lemma ContentsLookup(s: seq<u32>, b: int, maxSize: int, size: int, hb: int, k: u32)
    requires TableOk(s, b, maxSize, size, hb) && Bucket(k, hb) < b
    ensures var seg := Seg(s, b, Bucket(k, hb));
      && (k in Contents(s, b) <==> k in PairsMap(LivePrefix(seg)))
      && (k in Contents(s, b) ==> Contents(s, b)[k] == PairsMap(LivePrefix(seg))[k])
  {
    FlatLookup(Segs(s, b), hb, k);
  }

  /** A scan of `k`'s bucket that meets `k` at live key position `t` finds `k`'s
      value in the next word. */
  lemma FoundByScan(s: seq<u32>, b: int, maxSize: int, size: int, hb: int, k: u32, t: int)
    requires TableOk(s, b, maxSize, size, hb) && Bucket(k, hb) < b
    requires var seg := Seg(s, b, Bucket(k, hb));
      0 <= t < LiveLen(seg) && t + 1 < |seg| && t % 2 == 0 && seg[t] == k
    ensures k in Contents(s, b)
    ensures Contents(s, b)[k] == Seg(s, b, Bucket(k, hb))[t + 1]
  {
    TableSeg(s, b, maxSize, size, hb, Bucket(k, hb));
    SegFound(Seg(s, b, Bucket(k, hb)), Bucket(k, hb), hb, t);
    ContentsLookup(s, b, maxSize, size, hb, k);
  }

  /** The same, stated on the table's words: the scan position `x` of the bucket
      `h` of `k` is a live slot holding `k`, and the next word is `k`'s value. */
  lemma FoundSlot(s: seq<u32>, b: int, maxSize: int, size: int, hb: int, k: u32, h: int, x: int)
    requires TableOk(s, b, maxSize, size, hb) && h == Bucket(k, hb) && h < b
    requires Off(s, h) <= x < Off(s, h) + LiveLen(Seg(s, b, h)) && (x - Off(s, h)) % 2 == 0
    requires x < |s| && s[x] == k
    ensures KeySlot(s, b, k, x, hb)
  {
    var t := x - Off(s, h);
    var seg := Seg(s, b, h);
    TableSeg(s, b, maxSize, size, hb, h);
    ShapeFacts(seg);
    DirBounds(s, b, h);
    SegIndex(s, b, h, x, t);
    ScanNext(seg, t);
    FoundByScan(s, b, maxSize, size, hb, k, t);
  }

  /** A scan of `k`'s bucket that passes every live pair without meeting `k`
      shows that `k` is absent. */
  lemma AbsentByScan(s: seq<u32>, b: int, maxSize: int, size: int, hb: int, k: u32)
    requires TableOk(s, b, maxSize, size, hb) && Bucket(k, hb) < b
    requires var seg := Seg(s, b, Bucket(k, hb));
      forall u :: 0 <= u < LiveLen(seg) && u < |seg| && u % 2 == 0 ==> seg[u] != k
    ensures k !in Contents(s, b)
  {
    TableSeg(s, b, maxSize, size, hb, Bucket(k, hb));
    SegAbsent(Seg(s, b, Bucket(k, hb)), k);
    ContentsLookup(s, b, maxSize, size, hb, k);
  }

  /** The pair counter equals the number of keys held. */
  lemma SizeIsCount(s: seq<u32>, b: int, maxSize: int, size: int, hb: int)
    requires TableOk(s, b, maxSize, size, hb)
    ensures |Contents(s, b)| == size
  {
    FlatFacts(Segs(s, b), hb);
    PairsMapSize(Flat(Segs(s, b)));
  }

  /** What `Iter` lists for a well-formed table: `2*size` words of pairs with
      reserved-free, pairwise distinct keys, whose map is the held map. */
  lemma ListingFacts(s: seq<u32>, b: int, maxSize: int, size: int, hb: int)
    requires TableOk(s, b, maxSize, size, hb)
    ensures |Flat(Segs(s, b))| == 2 * size && |Flat(Segs(s, b))| % 2 == 0
    ensures Distinct(Flat(Segs(s, b)))
    ensures forall u :: 0 <= u < 2 * size && u % 2 == 0 ==> !IsSentinel(Flat(Segs(s, b))[u])
    ensures PairsMap(Flat(Segs(s, b))) == Contents(s, b) && |Contents(s, b)| == size
  {
    var w := Flat(Segs(s, b));
    FlatFacts(Segs(s, b), hb);
    forall u | 0 <= u < 2 * size && u % 2 == 0 ensures !IsSentinel(w[u]) {
      assert !IsSentinel(KeyAt(w, u));
    }
    SizeIsCount(s, b, maxSize, size, hb);
  }
}
