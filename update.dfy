/** How each kind of insertion changes the buffer: overwriting a value, filling
    the first empty slot of a bucket, and splicing a full bucket into a wider
    buffer; and the buffer `createByCapacity` starts from. Each is shown to keep
    the layout invariant and to change the held map by exactly one entry. */
module Update {
  import opened Bits
  import opened Pairs
  import opened Layout

  /** Words a full segment grows by: INITIAL_BUCKET_SIZE fresh key/value slots. */
  const GROWTH: int := 2 * INITIAL_BUCKET_SIZE

  // ------------------------------------------------------------------ scanning

  /** A scan only looks at key positions, so buffers that agree there scan alike. */
  lemma {:induction false} ScanEndSame(a: seq<u32>, c: seq<u32>, t: nat)
    requires |a| == |c|
    requires forall u :: t <= u < |a| && (u - t) % 2 == 0 ==> a[u] == c[u]
    ensures ScanEnd(a, t) == ScanEnd(c, t)
    decreases |a| - t
  {
    if t < |a| && !IsSentinel(a[t]) {
      ScanEndSame(a, c, t + 2);
    }
  }

  /** A scan stops at the first reserved key word. */
  lemma {:induction false} ScanEndAt(seg: seq<u32>, t: nat, r: nat)
    requires t <= r < |seg| && (r - t) % 2 == 0 && IsSentinel(seg[r])
    requires forall u :: t <= u < r && (u - t) % 2 == 0 ==> !IsSentinel(seg[u])
    ensures ScanEnd(seg, t) == r
    decreases r - t
  {
    if t < r {
      ScanEndAt(seg, t + 2, r);
    }
  }

  // ------------------------------------------------------------ segment edits

  /** Overwriting the value word of a live pair keeps the segment good, keeps
      its live length, and sets that key's entry. */
  lemma SegOverwrite(seg: seq<u32>, j: int, hb: int, t: int, key: u32, v: u32)
    requires SegGood(seg, j, hb) && 0 <= t < LiveLen(seg) && t % 2 == 0 && seg[t] == key
    ensures t + 1 < |seg| - 1
    ensures SegGood(seg[t + 1 := v], j, hb)
    ensures |LivePrefix(seg[t + 1 := v])| == |LivePrefix(seg)|
    ensures PairsMap(LivePrefix(seg[t + 1 := v])) == PairsMap(LivePrefix(seg))[key := v]
  {
    ShapeFacts(seg);
    var seg' := seg[t + 1 := v];
    ScanEndSame(seg, seg', 0);
    var p := LivePrefix(seg);
    var p' := LivePrefix(seg');
    assert p' == p[t + 1 := v];
    forall u, u' | 0 <= u < u' < |p'| && u % 2 == 0 && u' % 2 == 0
      ensures KeyAt(p', u) != KeyAt(p', u')
    {
      assert KeyAt(p', u) == KeyAt(p, u) && KeyAt(p', u') == KeyAt(p, u');
    }
    forall u | 0 <= u < LiveLen(seg') && u % 2 == 0
      ensures KeyIn(seg', u, j, hb)
    {
      assert seg'[u] == seg[u] && KeyIn(seg, u, j, hb);
    }
    assert p[t] == seg[t];
    PairsMapSetValue(p, t, v);
  }

  /** Writing a new pair right after the live pairs, with a reserved word after
      it, keeps the segment good and appends the pair to the live prefix. */
  lemma AppendPair(seg: seq<u32>, seg': seq<u32>, j: int, hb: int, t: int, key: u32, v: u32)
    requires SegGood(seg, j, hb) && t == LiveLen(seg)
    requires |seg'| % 2 == 1 && t + 2 < |seg'| && seg'[..t] == seg[..t]
    requires seg'[t] == key && seg'[t + 1] == v && seg'[|seg'| - 1] == BUCKET_END_VALUE
    requires forall u :: t + 2 <= u < |seg'| - 1 && u % 2 == 0 ==> seg'[u] == EMPTY_VALUE
    requires !IsSentinel(key) && Bucket(key, hb) == j && key !in PairsMap(LivePrefix(seg))
    ensures SegGood(seg', j, hb)
    ensures LivePrefix(seg') == LivePrefix(seg) + [key, v]
  {
    ShapeFacts(seg);
    var p := LivePrefix(seg);
    forall u | 0 <= u < t ensures seg'[u] == seg[u] {
      assert seg'[u] == seg'[..t][u];
    }
    assert IsSentinel(seg'[t + 2]);
    ScanEndAt(seg', 0, t + 2);
    assert LiveLen(seg') == t + 2;
    var p' := LivePrefix(seg');
    assert p' == p + [key, v];
    DistinctAppend(p, key, v);
    forall u | 0 <= u < t + 2 && u % 2 == 0
      ensures KeyIn(seg', u, j, hb)
    {
      if u < t {
        assert seg'[u] == seg[u] && KeyIn(seg, u, j, hb);
      }
    }
  }

  /** A full segment grown by GROWTH words around its end marker holds its old
      pairs, then the new pair, then an empty slot and the end marker. */
  lemma GrownSeg(seg: seq<u32>, j: int, hb: int, key: u32, v: u32)
    requires SegGood(seg, j, hb) && LiveLen(seg) == |seg| - 1
    requires !IsSentinel(key) && Bucket(key, hb) == j && key !in PairsMap(LivePrefix(seg))
    ensures SegGood(seg[..|seg| - 1] + [key, v, EMPTY_VALUE, 0, BUCKET_END_VALUE], j, hb)
    ensures LivePrefix(seg[..|seg| - 1] + [key, v, EMPTY_VALUE, 0, BUCKET_END_VALUE]) == LivePrefix(seg) + [key, v]
  {
    ShapeFacts(seg);
    var t := LiveLen(seg);
    var seg' := seg[..|seg| - 1] + [key, v, EMPTY_VALUE, 0, BUCKET_END_VALUE];
    assert seg'[..t] == seg[..t];
    AppendPair(seg, seg', j, hb, t, key, v);
  }

  /** Writing a new key into the first empty key slot of a segment makes it
      live, paired with whatever the value word held. */
  lemma FillSeg(seg: seq<u32>, j: int, hb: int, key: u32)
    requires SegGood(seg, j, hb) && LiveLen(seg) < |seg| - 1
    requires !IsSentinel(key) && Bucket(key, hb) == j && key !in PairsMap(LivePrefix(seg))
    ensures LiveLen(seg) + 1 < |seg| - 1
    ensures SegGood(seg[LiveLen(seg) := key], j, hb)
    ensures |LivePrefix(seg[LiveLen(seg) := key])| == |LivePrefix(seg)| + 2
    ensures PairsMap(LivePrefix(seg[LiveLen(seg) := key])) == PairsMap(LivePrefix(seg))[key := seg[LiveLen(seg) + 1]]
  {
    ShapeFacts(seg);
    var t := LiveLen(seg);
    var seg' := seg[t := key];
    assert seg'[..t] == seg[..t];
    AppendPair(seg, seg', j, hb, t, key, seg[t + 1]);
    PairsMapConcat(LivePrefix(seg), [key, seg[t + 1]]);
    assert PairsMap([key, seg[t + 1]]) == map[key := seg[t + 1]];
  }

  // ------------------------------------------------------------ buffer writes

  /** Updating at `x` is updating at `i + 1` when the two are equal; stated as an
      equation between the two updated sequences. */
  lemma SameUpdate(a: seq<u32>, x: int, i: int, w: u32)
    requires x == i + 1 && 0 <= x < |a|
    ensures a[x := w] == a[i + 1 := w]
  {
  }

  /** The end of one bucket's segment is at most the start of any later one. */
  lemma {:induction false} DirOrder(s: seq<u32>, b: int, j: int, j': int)
    requires DirOk(s, b) && 0 <= j < j' < b
    ensures End(s, b, j) <= Off(s, j')
    decreases j' - j
  {
    if j + 1 < j' {
      DirOrder(s, b, j + 1, j');
      assert Off(s, j + 1) < End(s, b, j + 1);
    }
  }

  /** A buffer of the same length that agrees with `s` on the directory has
      the same directory, offsets and segment ends. */
  lemma DirSame(s: seq<u32>, s': seq<u32>, b: int)
    requires DirOk(s, b) && |s'| == |s| && s'[..b] == s[..b]
    ensures DirOk(s', b)
    ensures forall j :: 0 <= j < b ==> Off(s', j) == Off(s, j) && End(s', b, j) == End(s, b, j)
  {
    forall j | 0 <= j < b ensures Off(s', j) == Off(s, j) {
      assert s'[j] == s'[..b][j];
    }
    forall j | 0 <= j < b ensures End(s', b, j) == End(s, b, j) && b <= Off(s', j) < End(s', b, j) <= |s'| {
      DirBounds(s, b, j);
    }
  }

  /** Writing one word inside bucket `h`'s segment leaves the directory and all
      other segments alone. */
  lemma WriteInSegment(s: seq<u32>, b: int, h: int, x: int, w: u32)
    requires DirOk(s, b) && 0 <= h < b && Off(s, h) <= x < End(s, b, h)
    ensures DirOk(s[x := w], b)
    ensures forall j :: 0 <= j < b ==> Off(s[x := w], j) == Off(s, j)
    ensures forall j :: 0 <= j < b && j != h ==> Seg(s[x := w], b, j) == Seg(s, b, j)
    ensures Seg(s[x := w], b, h) == Seg(s, b, h)[x - Off(s, h) := w]
  {
    var s' := s[x := w];
    DirBounds(s, b, h);
    assert s'[..b] == s[..b];
    DirSame(s, s', b);
    forall j | 0 <= j < b && j != h ensures Seg(s', b, j) == Seg(s, b, j) {
      if j < h {
        DirOrder(s, b, j, h);
      } else {
        DirOrder(s, b, h, j);
      }
    }
  }

  /** One key's lookup after the segment of bucket `h` is replaced by one whose
      map has `key`'s entry set. */
  lemma ReplaceLookup(segs: seq<seq<u32>>, x: seq<u32>, hb: int, h: int, key: u32, value: u32, k: u32)
    requires 0 <= h < |segs| && SegsGood(segs, hb) && SegsGood(segs[h := x], hb)
    requires Bucket(key, hb) == h && PairsMap(LivePrefix(x)) == PairsMap(LivePrefix(segs[h]))[key := value]
    ensures var m := PairsMap(Flat(segs))[key := value];
      && (k in PairsMap(Flat(segs[h := x])) <==> k in m)
      && (k in m ==> PairsMap(Flat(segs[h := x]))[k] == m[k])
  {
    FlatLookup(segs, hb, k);
    FlatLookup(segs[h := x], hb, k);
  }

  /** Replacing the segment of bucket `h` by a good one whose map has `key`'s
      entry set sets that entry of the listed map. */
  lemma ReplaceFlat(segs: seq<seq<u32>>, x: seq<u32>, hb: int, h: int, key: u32, value: u32)
    requires 0 <= h < |segs| && SegsGood(segs, hb) && SegGood(x, h, hb)
    requires Bucket(key, hb) == h && PairsMap(LivePrefix(x)) == PairsMap(LivePrefix(segs[h]))[key := value]
    ensures SegsGood(segs[h := x], hb)
    ensures PairsMap(Flat(segs[h := x])) == PairsMap(Flat(segs))[key := value]
    ensures |Flat(segs[h := x])| == |Flat(segs)| - |LivePrefix(segs[h])| + |LivePrefix(x)|
  {
    var segs' := segs[h := x];
    forall j | 0 <= j < |segs'| ensures SegGood(segs'[j], j, hb) {
      if j != h {
        assert segs'[j] == segs[j] && SegGood(segs[j], j, hb);
      }
    }
    forall k ensures (k in PairsMap(Flat(segs')) <==> k in PairsMap(Flat(segs))[key := value])
      && (k in PairsMap(Flat(segs))[key := value] ==> PairsMap(Flat(segs'))[k] == PairsMap(Flat(segs))[key := value][k])
    {
      ReplaceLookup(segs, x, hb, h, key, value, k);
    }
    FlatReplaceLen(segs, h, x);
  }

  /** Replacing the segment of bucket `h`, and nothing else, by a good segment
      whose map has one entry set keeps the table well formed and sets that
      entry of the held map. */
  lemma ReplaceSegment(s: seq<u32>, s': seq<u32>, b: int, maxSize: int, size: int,
                       maxSize': int, size': int, hb: int, h: int, key: u32, value: u32)
    requires TableOk(s, b, maxSize, size, hb) && DirOk(s', b) && 0 <= h < b
    requires |s'| == 2 * b + 2 * maxSize' && |s'| <= 6 * b + 4 * size'
    requires forall j :: 0 <= j < b && j != h ==> Seg(s', b, j) == Seg(s, b, j)
    requires SegGood(Seg(s', b, h), h, hb)
    requires |LivePrefix(Seg(s', b, h))| == |LivePrefix(Seg(s, b, h))| + 2 * (size' - size)
    requires Bucket(key, hb) == h
    requires PairsMap(LivePrefix(Seg(s', b, h))) == PairsMap(LivePrefix(Seg(s, b, h)))[key := value]
    ensures TableOk(s', b, maxSize', size', hb)
    ensures Contents(s', b) == Contents(s, b)[key := value]
  {
    var segs := Segs(s, b);
    assert Segs(s', b) == segs[h := Seg(s', b, h)];
    ReplaceFlat(segs, Seg(s', b, h), hb, h, key, value);
  }

  /** Writing word `w` at offset `r` of bucket `h`'s segment (buffer position
      `x`), when the written segment is good and its map has one entry set,
      keeps the table well formed and sets that entry of the held map. */
  lemma SegmentWrite(s: seq<u32>, b: int, maxSize: int, size: int, size': int, hb: int,
                     h: int, x: int, r: int, w: u32, key: u32, value: u32)
    requires TableOk(s, b, maxSize, size, hb) && 0 <= h < b
    requires 0 <= r < |Seg(s, b, h)| - 1 && x == Off(s, h) + r
    requires size <= size' && Bucket(key, hb) == h
    requires SegGood(Seg(s, b, h)[r := w], h, hb)
    requires |LivePrefix(Seg(s, b, h)[r := w])| == |LivePrefix(Seg(s, b, h))| + 2 * (size' - size)
    requires PairsMap(LivePrefix(Seg(s, b, h)[r := w])) == PairsMap(LivePrefix(Seg(s, b, h)))[key := value]
    ensures b <= x < |s|
    ensures TableOk(s[x := w], b, maxSize, size', hb)
    ensures Contents(s[x := w], b) == Contents(s, b)[key := value]
    ensures Off(s[x := w], h) == Off(s, h) && Seg(s[x := w], b, h) == Seg(s, b, h)[r := w]
  {
    WriteInSegment(s, b, h, x, w);
    ReplaceSegment(s, s[x := w], b, maxSize, size, maxSize, size', hb, h, key, value);
  }

  // ---------------------------------------------------------- put, in place

  /** Writing a new value next to a live key (`put` finding its key, or
      `PutIndex`) sets that key's entry and nothing else. */
  lemma OverwriteOk(s: seq<u32>, b: int, maxSize: int, size: int, hb: int, idx: int, v: u32)
    requires TableOk(s, b, maxSize, size, hb) && LiveSlot(s, b, idx, hb)
    ensures idx + 1 < |s|
    ensures TableOk(s[idx + 1 := v], b, maxSize, size, hb)
    ensures Contents(s[idx + 1 := v], b) == Contents(s, b)[s[idx] := v]
  {
    var key := s[idx];
    var h := Bucket(key, hb);
    var seg := Seg(s, b, h);
    var t := idx - Off(s, h);
    TableSeg(s, b, maxSize, size, hb, h);
    SegIndex(s, b, h, idx, t);
    SegOverwrite(seg, h, hb, t, key, v);
    var x, r := idx + 1, t + 1;
    SameUpdate(seg, r, t, v);
    SegmentWrite(s, b, maxSize, size, size, hb, h, x, r, v, key, v);
    SameUpdate(s, x, idx, v);
  }

  /** Writing a new key into the first empty slot of its bucket makes it live,
      paired with whatever the value word held. */
  lemma AddKeyOk(s: seq<u32>, b: int, maxSize: int, size: int, size': int, hb: int, i: int, key: u32)
    requires TableOk(s, b, maxSize, size, hb) && Bucket(key, hb) < b && size' == size + 1
    requires i == Off(s, Bucket(key, hb)) + LiveLen(Seg(s, b, Bucket(key, hb))) && i < |s| && s[i] == EMPTY_VALUE
    requires !IsSentinel(key) && key !in Contents(s, b)
    ensures i + 1 < |s|
    ensures TableOk(s[i := key], b, maxSize, size', hb)
    ensures Contents(s[i := key], b) == Contents(s, b)[key := s[i + 1]]
    ensures LiveSlot(s[i := key], b, i, hb)
  {
    var h := Bucket(key, hb);
    var seg := Seg(s, b, h);
    var t := LiveLen(seg);
    TableSeg(s, b, maxSize, size, hb, h);
    ShapeFacts(seg);
    SegIndex(s, b, h, i, t);
    ContentsLookup(s, b, maxSize, size, hb, key);
    FillSeg(seg, h, hb, key);
    SegmentWrite(s, b, maxSize, size, size', hb, h, i, t, key, key, s[i + 1]);
  }

  /** Writing a new pair into the first empty slot of its bucket (`put` meeting
      `EMPTY_VALUE`) adds that entry and one to the pair count. */
  lemma FillOk(s: seq<u32>, b: int, maxSize: int, size: int, size': int, hb: int, i: int, key: u32, v: u32)
    requires TableOk(s, b, maxSize, size, hb) && Bucket(key, hb) < b && size' == size + 1
    requires i == Off(s, Bucket(key, hb)) + LiveLen(Seg(s, b, Bucket(key, hb))) && i < |s| && s[i] == EMPTY_VALUE
    requires !IsSentinel(key) && key !in Contents(s, b)
    ensures i + 1 < |s|
    ensures TableOk(s[i := key][i + 1 := v], b, maxSize, size', hb)
    ensures Contents(s[i := key][i + 1 := v], b) == Contents(s, b)[key := v]
  {
    AddKeyOk(s, b, maxSize, size, size', hb, i, key);
    FillValue(s, b, maxSize, size', hb, i, key, v);
  }

  /** The second half of a fill: the value word after the newly written key. */
  lemma FillValue(s: seq<u32>, b: int, maxSize: int, size: int, hb: int, i: int, key: u32, v: u32)
    requires 0 <= i < |s|
    requires TableOk(s[i := key], b, maxSize, size, hb) && LiveSlot(s[i := key], b, i, hb)
    ensures i + 1 < |s|
    ensures TableOk(s[i := key][i + 1 := v], b, maxSize, size, hb)
    ensures Contents(s[i := key][i + 1 := v], b) == Contents(s[i := key], b)[key := v]
  {
    OverwriteOk(s[i := key], b, maxSize, size, hb, i, v);
  }

  // ------------------------------------------------------------------ splice

  /** Directory word `x` of a later bucket, moved right by the growth. */
  function Shifted(s: seq<u32>, b: int, x: int): (r: u32)
    requires DirOk(s, b) && 0 <= x < b && |s| + GROWTH < WORD_LIMIT
    ensures r as int == Off(s, x) + GROWTH
  {
    DirBounds(s, b, x);
    (Off(s, x) + GROWTH) as u32
  }

  /** The buffer `put` builds when bucket `h` is full: every word up to the old
      end marker of bucket `h`, then the new pair, one empty slot (whose value
      word stays 0) and a new end marker, then every later word moved right by
      GROWTH, and later directory offsets increased by GROWTH. */
  function Spliced(s: seq<u32>, b: int, h: int, key: u32, value: u32): (r: seq<u32>)
    requires DirOk(s, b) && 0 <= h < b && |s| + GROWTH < WORD_LIMIT
    ensures |r| == |s| + GROWTH
  {
    var i := End(s, b, h) - 1;
    seq(|s| + GROWTH, x requires 0 <= x < |s| + GROWTH =>
      if h < x < b then Shifted(s, b, x)
      else if x < i then s[x]
      else if x == i then key
      else if x == i + 1 then value
      else if x == i + 2 then EMPTY_VALUE
      else if x == i + 3 then 0
      else if x == i + 4 then BUCKET_END_VALUE
      else s[x - GROWTH])
  }

  /** The spliced buffer is a table of the same buckets whose directory offsets
      stay put up to bucket `h` and move by GROWTH after it; bucket `h` keeps its
      pairs and gains the new pair, an empty slot and an end marker; every other
      segment is unchanged word for word. */
  lemma SplicedLayout(s: seq<u32>, b: int, h: int, key: u32, value: u32)
    requires DirOk(s, b) && 0 <= h < b && |s| + GROWTH < WORD_LIMIT
    ensures var s' := Spliced(s, b, h, key, value);
      && DirOk(s', b)
      && (forall j :: 0 <= j <= h ==> Off(s', j) == Off(s, j))
      && (forall j :: h < j < b ==> Off(s', j) == Off(s, j) + GROWTH)
      && (forall j :: 0 <= j < b && j != h ==> Seg(s', b, j) == Seg(s, b, j))
      && Seg(s', b, h) == Seg(s, b, h)[..|Seg(s, b, h)| - 1] + [key, value, EMPTY_VALUE, 0, BUCKET_END_VALUE]
  {
    var s' := Spliced(s, b, h, key, value);
    var i := End(s, b, h) - 1;
    DirBounds(s, b, h);
    assert forall j :: 0 <= j <= h ==> Off(s', j) == Off(s, j);
    assert forall j :: h < j < b ==> Off(s', j) == Off(s, j) + GROWTH;
    forall j | 0 <= j < b
      ensures End(s', b, j) == if j < h then End(s, b, j) else End(s, b, j) + GROWTH
      ensures b <= Off(s', j) < End(s', b, j) <= |s'|
    {
      DirBounds(s, b, j);
    }
    assert DirOk(s', b);
    forall j | 0 <= j < b && j != h ensures Seg(s', b, j) == Seg(s, b, j) {
      if j < h {
        DirOrder(s, b, j, h);
        SplicedBefore(s, b, h, key, value, j);
      } else {
        DirOrder(s, b, h, j);
        SplicedAfter(s, b, h, key, value, j);
      }
    }
    SplicedGrown(s, b, h, key, value);
  }

  /** A segment before bucket `h` is copied in place. */
  lemma SplicedBefore(s: seq<u32>, b: int, h: int, key: u32, value: u32, j: int)
    requires DirOk(s, b) && 0 <= j < h < b && |s| + GROWTH < WORD_LIMIT
    requires DirOk(Spliced(s, b, h, key, value), b) && End(s, b, j) <= Off(s, h)
    requires Off(Spliced(s, b, h, key, value), j) == Off(s, j)
    requires End(Spliced(s, b, h, key, value), b, j) == End(s, b, j)
    ensures Seg(Spliced(s, b, h, key, value), b, j) == Seg(s, b, j)
  {
    var s' := Spliced(s, b, h, key, value);
    DirBounds(s, b, j);
    DirBounds(s, b, h);
    forall y | Off(s, j) <= y < End(s, b, j) ensures s'[y] == s[y] {
    }
  }

  /** A segment after bucket `h` is copied GROWTH words to the right. */
  lemma SplicedAfter(s: seq<u32>, b: int, h: int, key: u32, value: u32, j: int)
    requires DirOk(s, b) && 0 <= h < j < b && |s| + GROWTH < WORD_LIMIT
    requires DirOk(Spliced(s, b, h, key, value), b) && End(s, b, h) <= Off(s, j)
    requires Off(Spliced(s, b, h, key, value), j) == Off(s, j) + GROWTH
    requires End(Spliced(s, b, h, key, value), b, j) == End(s, b, j) + GROWTH
    ensures Seg(Spliced(s, b, h, key, value), b, j) == Seg(s, b, j)
  {
    var s' := Spliced(s, b, h, key, value);
    DirBounds(s, b, j);
    forall y | Off(s, j) + GROWTH <= y < End(s, b, j) + GROWTH ensures s'[y] == s[y - GROWTH] {
    }
  }

  /** Bucket `h` keeps its words up to its old end marker and gains the rest. */
  lemma SplicedGrown(s: seq<u32>, b: int, h: int, key: u32, value: u32)
    requires DirOk(s, b) && 0 <= h < b && |s| + GROWTH < WORD_LIMIT
    requires DirOk(Spliced(s, b, h, key, value), b)
    requires Off(Spliced(s, b, h, key, value), h) == Off(s, h)
    requires End(Spliced(s, b, h, key, value), b, h) == End(s, b, h) + GROWTH
    ensures Seg(Spliced(s, b, h, key, value), b, h) ==
      Seg(s, b, h)[..|Seg(s, b, h)| - 1] + [key, value, EMPTY_VALUE, 0, BUCKET_END_VALUE]
  {
    var s' := Spliced(s, b, h, key, value);
    var seg := Seg(s, b, h);
    var i := End(s, b, h) - 1;
    DirBounds(s, b, h);
    var lhs := Seg(s', b, h);
    var rhs := seg[..|seg| - 1] + [key, value, EMPTY_VALUE, 0, BUCKET_END_VALUE];
    assert |lhs| == |rhs|;
    forall y | 0 <= y < |lhs| ensures lhs[y] == rhs[y] {
      if y < |seg| - 1 {
        assert lhs[y] == s'[Off(s, h) + y] == s[Off(s, h) + y];
      }
    }
  }

  /** Splicing a full bucket to hold a new pair (`put` meeting
      `BUCKET_END_VALUE`) adds that entry, one to the pair count and
      INITIAL_BUCKET_SIZE slots to the capacity. */
  lemma SpliceOk(s: seq<u32>, b: int, maxSize: int, size: int, hb: int, key: u32, v: u32)
    requires TableOk(s, b, maxSize, size, hb) && Bucket(key, hb) < b && |s| + GROWTH < WORD_LIMIT
    requires LiveLen(Seg(s, b, Bucket(key, hb))) == |Seg(s, b, Bucket(key, hb))| - 1
    requires !IsSentinel(key) && key !in Contents(s, b)
    ensures TableOk(Spliced(s, b, Bucket(key, hb), key, v), b, maxSize + INITIAL_BUCKET_SIZE, size + 1, hb)
    ensures Contents(Spliced(s, b, Bucket(key, hb), key, v), b) == Contents(s, b)[key := v]
  {
    var h := Bucket(key, hb);
    var seg := Seg(s, b, h);
    var s' := Spliced(s, b, h, key, v);
    SplicedLayout(s, b, h, key, v);
    TableSeg(s, b, maxSize, size, hb, h);
    ShapeFacts(seg);
    ContentsLookup(s, b, maxSize, size, hb, key);
    GrownSeg(seg, h, hb, key, v);
    PairsMapConcat(LivePrefix(seg), [key, v]);
    assert PairsMap([key, v]) == map[key := v];
    ReplaceSegment(s, s', b, maxSize, size, maxSize + INITIAL_BUCKET_SIZE, size + 1, hb, h, key, v);
  }

  // ------------------------------------------------------------------ creation

  /** The buffer `createByCapacity(c)` builds: `c` directory words pointing at
      `c` segments of SEGMENT_WORDS words each, every key slot empty. */
  function InitialStore(c: int): (r: seq<u32>)
    requires 1 <= c && 6 * c < WORD_LIMIT
    ensures |r| == 2 * c * INITIAL_BUCKET_SIZE + 2 * c
  {
    seq(2 * c * INITIAL_BUCKET_SIZE + 2 * c, x requires 0 <= x < 6 * c =>
      if x < c then (c + SEGMENT_WORDS * x) as u32
      else if (x - c) % SEGMENT_WORDS == SEGMENT_WORDS - 1 then BUCKET_END_VALUE
      else EMPTY_VALUE)
  }

  /** Word `y` of segment `j` of the initial buffer. */
  lemma InitialWord(c: int, j: int, y: int)
    requires 1 <= c && 6 * c < WORD_LIMIT && 0 <= j < c && 0 <= y < SEGMENT_WORDS
    ensures InitialStore(c)[c + SEGMENT_WORDS * j + y] == if y == SEGMENT_WORDS - 1 then BUCKET_END_VALUE else EMPTY_VALUE
  {
    assert (SEGMENT_WORDS * j + y) % SEGMENT_WORDS == y;
  }

  /** The directory of the initial buffer: segment `j` starts at `c + 5*j`. */
  lemma InitialDir(c: int)
    requires 1 <= c && 6 * c < WORD_LIMIT
    ensures DirOk(InitialStore(c), c)
    ensures forall j :: 0 <= j < c ==> Off(InitialStore(c), j) == c + SEGMENT_WORDS * j
    ensures forall j :: 0 <= j < c ==> End(InitialStore(c), c, j) == c + SEGMENT_WORDS * j + SEGMENT_WORDS
  {
    var s := InitialStore(c);
    assert forall j :: 0 <= j < c ==> Off(s, j) == c + SEGMENT_WORDS * j;
    forall j | 0 <= j < c ensures End(s, c, j) == c + SEGMENT_WORDS * j + SEGMENT_WORDS {
    }
  }

  /** Every segment of the initial buffer is four empty words and an end marker. */
  lemma InitialSegs(c: int)
    requires 1 <= c && 6 * c < WORD_LIMIT
    ensures DirOk(InitialStore(c), c)
    ensures forall j :: 0 <= j < c ==>
      Seg(InitialStore(c), c, j) == [EMPTY_VALUE, EMPTY_VALUE, EMPTY_VALUE, EMPTY_VALUE, BUCKET_END_VALUE]
  {
    InitialDir(c);
    var s := InitialStore(c);
    var newSeg := [EMPTY_VALUE, EMPTY_VALUE, EMPTY_VALUE, EMPTY_VALUE, BUCKET_END_VALUE];
    forall j | 0 <= j < c ensures Seg(s, c, j) == newSeg {
      forall y | 0 <= y < SEGMENT_WORDS ensures Seg(s, c, j)[y] == newSeg[y] {
        InitialWord(c, j, y);
      }
    }
  }

  /** `createByCapacity(c)` lays out a well-formed empty table for any bucket
      function: `6*c` words, directory word `j` is `c + 5*j`, and every segment
      is four empty words and an end marker. */
  lemma InitialLayout(c: int, hb: int)
    requires 1 <= c && 6 * c < WORD_LIMIT
    ensures |InitialStore(c)| == 6 * c
    ensures TableOk(InitialStore(c), c, INITIAL_BUCKET_SIZE * c, 0, hb)
    ensures forall j :: 0 <= j < c ==> Off(InitialStore(c), j) == c + SEGMENT_WORDS * j
    ensures forall j :: 0 <= j < c ==>
      Seg(InitialStore(c), c, j) == [EMPTY_VALUE, EMPTY_VALUE, EMPTY_VALUE, EMPTY_VALUE, BUCKET_END_VALUE]
    ensures Contents(InitialStore(c), c) == map[]
  {
    InitialDir(c);
    InitialSegs(c);
    var s := InitialStore(c);
    var segs := Segs(s, c);
    var newSeg := [EMPTY_VALUE, EMPTY_VALUE, EMPTY_VALUE, EMPTY_VALUE, BUCKET_END_VALUE];
    assert LiveLen(newSeg) == 0;
    assert SegShape(newSeg);
    forall j | 0 <= j < c ensures SegGood(segs[j], j, hb) && LiveLen(segs[j]) == 0 {
      assert segs[j] == newSeg;
    }
    FlatAllEmpty(segs);
  }

  // ------------------------------------------------------------------ resizing

  ghost predicate IsPow2(n: int)
    decreases n
  {
    n == 1 || (n > 1 && n % 2 == 0 && IsPow2(n / 2))
  }

  /** The bucket count `resizeOnThreshold` rebuilds with: half when fewer than a
      fifth as many pairs as buckets (and more than INITIAL_CAPACITY pairs), double
      when more than six pairs per bucket, otherwise unchanged. */
  function ResizeTarget(b: nat, size: int): (r: int)
    ensures r == b || r == b / 2 || r == b * 2
    ensures r < b ==> size < b / 5 && size > INITIAL_CAPACITY
    ensures r > b ==> size > 6 * b
  {
    if size < b / 5 && size > INITIAL_CAPACITY then b / 2
    else if size > 6 * b then b * 2
    else b
  }

  /** The resize target is a power of two whenever the bucket count is, is at
      least one and at most doubles; and it differs from the bucket count in
      exactly the two threshold cases. */
  lemma ResizeTargetFacts(b: int, size: int)
    requires IsPow2(b)
    ensures IsPow2(ResizeTarget(b, size))
    ensures 1 <= ResizeTarget(b, size) <= 2 * b
    ensures ResizeTarget(b, size) != b <==> (size < b / 5 && size > INITIAL_CAPACITY) || size > 6 * b
  {
    if size < b / 5 && size > INITIAL_CAPACITY {
      assert b > 1;
    } else if size > 6 * b {
      assert (b * 2) / 2 == b;
    }
  }
}
