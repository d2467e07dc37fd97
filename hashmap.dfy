/** The hash map itself: one flat word buffer and three counters, updated in
    place by the operations of `lib.go`. */
module BasicHashMap {
  import opened Bits
  import opened Pairs
  import opened Layout
  import opened Update

  /** Go's `max` on `uint32`. */
  function Max(a: u32, b: u32): (r: u32)
    ensures r >= a && r >= b
    ensures r == a || r == b
  {
    if a < b then b else a
  }

  /** Go's `copy(dst[lo:hi], src)`: copies as many words as fit in both, to
      the front of the window, and returns how many it copied. */
  method Copy(dst: array<u32>, lo: int, hi: int, src: seq<u32>) returns (n: int)
    requires 0 <= lo <= hi <= dst.Length
    modifies dst
    ensures n == if hi - lo < |src| then hi - lo else |src|
    ensures forall y {:trigger dst[y]} :: 0 <= y < dst.Length ==>
      dst[y] == if lo <= y < lo + n then src[y - lo] else old(dst[y])
  {
    n := if hi - lo < |src| then hi - lo else |src|;
    var k := 0;
    while k < n
      invariant 0 <= k <= n
      invariant forall y {:trigger dst[y]} :: 0 <= y < dst.Length ==>
        dst[y] == if lo <= y < lo + k then src[y - lo] else old(dst[y])
    {
      dst[lo + k] := src[k];
      k := k + 1;
    }
  }

  /** `put`'s loop writing `EMPTY_VALUE` into the two fresh key slots at `i`,
      followed by the new end marker. */
  method FreshSlots(dst: array<u32>, i: int)
    requires 0 <= i && i + GROWTH < dst.Length
    modifies dst
    ensures forall y {:trigger dst[y]} :: 0 <= y < dst.Length ==>
      dst[y] == if y == i + GROWTH then BUCKET_END_VALUE
                else if i <= y < i + GROWTH && (y - i) % 2 == 0 then EMPTY_VALUE
                else old(dst[y])
  {
    var k := i;
    while k < i + INITIAL_BUCKET_SIZE * 2
      invariant i <= k <= i + GROWTH && (k - i) % 2 == 0
      invariant forall y {:trigger dst[y]} :: 0 <= y < dst.Length ==>
        dst[y] == if i <= y < k && (y - i) % 2 == 0 then EMPTY_VALUE else old(dst[y])
    {
      dst[k] := EMPTY_VALUE;
      k := k + 2;
    }
    dst[i + INITIAL_BUCKET_SIZE * 2] := BUCKET_END_VALUE;
  }

  /** `put`'s loop adding 4 to the directory words `[from, to)`. */
  method ShiftOffsets(dst: array<u32>, from: int, to: int)
    requires 0 <= from <= to <= dst.Length
    modifies dst
    ensures forall y {:trigger dst[y]} :: 0 <= y < dst.Length ==>
      dst[y] == if from <= y < to then WrapAdd(old(dst[y]), GROWTH as u32) else old(dst[y])
  {
    var k := from;
    while k < to
      invariant from <= k <= to
      invariant forall y {:trigger dst[y]} :: 0 <= y < dst.Length ==>
        dst[y] == if from <= y < k then WrapAdd(old(dst[y]), GROWTH as u32) else old(dst[y])
    {
      dst[k] := WrapAdd(dst[k], GROWTH as u32);
      k := k + 1;
    }
  }

  /** `put`'s copies of the segments strictly between bucket `h` and the last
      bucket into the grown buffer, each to the place its (already moved)
      directory word names. */
  method CopyMiddle(dst: array<u32>, src: array<u32>, b: int, h: int)
    requires dst != src && DirOk(src[..], b) && 0 <= h < b
    requires dst.Length == src.Length + GROWTH && src.Length + GROWTH < WORD_LIMIT
    requires forall j :: 0 <= j < b ==> dst[j] as int == if h < j then Off(src[..], j) + GROWTH else Off(src[..], j)
    modifies dst
    ensures forall y {:trigger dst[y]} :: 0 <= y < dst.Length ==>
      dst[y] == if h + 1 < b && Off(src[..], h + 1) + GROWTH <= y < Off(src[..], b - 1) + GROWTH then src[y - GROWTH]
                else old(dst[y])
  {
    ghost var s := src[..];
    var k := h + 1;
    while k < b - 1
      invariant h + 1 <= k && (k <= b - 1 || k == h + 1)
      invariant forall j :: 0 <= j < b ==> dst[j] == old(dst[j])
      invariant forall y {:trigger dst[y]} :: 0 <= y < dst.Length ==>
        dst[y] == if h + 1 < b && Off(s, h + 1) + GROWTH <= y < Off(s, k) + GROWTH then s[y - GROWTH]
                  else old(dst[y])
    {
      DirBounds(s, b, k);
      DirBounds(s, b, k + 1);
      if h + 1 < k {
        DirBounds(s, b, h + 1);
        DirOrder(s, b, h + 1, k);
      }
      var lo, hi := dst[k] as int, dst[k + 1] as int;
      assert lo == Off(s, k) + GROWTH && hi == Off(s, k + 1) + GROWTH;
      var piece := src[src[k]..src[k + 1]];
      ghost var pre := dst[..];
      var n := Copy(dst, lo, hi, piece);
      forall y | 0 <= y < dst.Length
        ensures dst[y] == if h + 1 < b && Off(s, h + 1) + GROWTH <= y < Off(s, k + 1) + GROWTH then s[y - GROWTH]
                          else old(dst[y])
      {
        if lo <= y < hi {
          assert dst[y] == piece[y - lo];
        } else {
          assert dst[y] == pre[y];
        }
      }
      k := k + 1;
    }
  }

  /** All of `put`'s copies of the segments after bucket `h`; the last one runs
      to the end of the buffer, and when `h` is the last bucket it starts at
      the unmoved offset of `h` itself. */
  method CopyLater(dst: array<u32>, src: array<u32>, b: int, h: int)
    requires dst != src && DirOk(src[..], b) && 0 <= h < b
    requires dst.Length == src.Length + GROWTH && src.Length + GROWTH < WORD_LIMIT
    requires forall j :: 0 <= j < b ==> dst[j] as int == if h < j then Off(src[..], j) + GROWTH else Off(src[..], j)
    modifies dst
    ensures forall y {:trigger dst[y]} :: 0 <= y < dst.Length ==>
      dst[y] == if h + 1 < b && Off(src[..], h + 1) + GROWTH <= y then src[y - GROWTH]
                else if h + 1 == b && Off(src[..], h) <= y < src.Length then src[y]
                else old(dst[y])
  {
    ghost var s := src[..];
    DirBounds(s, b, b - 1);
    if h + 1 < b - 1 {
      DirBounds(s, b, h + 1);
      DirOrder(s, b, h + 1, b - 1);
    }
    CopyMiddle(dst, src, b, h);
    ghost var pre := dst[..];
    var lo := dst[b - 1] as int;
    assert lo == if h + 1 < b then Off(s, b - 1) + GROWTH else Off(s, b - 1);
    var piece := src[src[b - 1]..];
    var n := Copy(dst, lo, dst.Length, piece);
    forall y | 0 <= y < dst.Length
      ensures dst[y] == if h + 1 < b && Off(s, h + 1) + GROWTH <= y then s[y - GROWTH]
                        else if h + 1 == b && Off(s, h) <= y < src.Length then s[y]
                        else old(dst[y])
    {
      if lo <= y < lo + n {
        assert dst[y] == piece[y - lo];
      } else {
        assert dst[y] == pre[y];
      }
    }
  }

  /** The first steps of `put`'s splice at the end marker `i` of the full
      bucket `h`: a zeroed buffer 4 words longer, the words before `i` copied,
      two fresh key slots and a new end marker at `i`, and the later directory
      offsets moved by 4. */
  method GrowFront(src: array<u32>, b: int, h: int, i: int) returns (dst: array<u32>)
    requires DirOk(src[..], b) && 0 <= h < b && i == End(src[..], b, h) - 1
    requires src.Length + GROWTH < WORD_LIMIT
    ensures fresh(dst) && dst.Length == src.Length + GROWTH
    ensures forall y {:trigger dst[y]} :: 0 <= y < dst.Length ==>
      dst[y] == if h < y < b then WrapAdd(src[y], GROWTH as u32)
                else if y < i then src[y]
                else if y == i + GROWTH then BUCKET_END_VALUE
                else if i <= y < i + GROWTH && (y - i) % 2 == 0 then EMPTY_VALUE
                else 0
  {
    DirBounds(src[..], b, h);
    dst := new u32[src.Length + INITIAL_BUCKET_SIZE * 2](_ => 0);
    var piece := src[0..i];
    var n := Copy(dst, 0, i, piece);
    ghost var s1 := dst[..];
    FreshSlots(dst, i);
    ghost var s2 := dst[..];
    ShiftOffsets(dst, h + 1, b);
    forall y | 0 <= y < dst.Length
      ensures dst[y] == if h < y < b then WrapAdd(src[y], GROWTH as u32)
                        else if y < i then src[y]
                        else if y == i + GROWTH then BUCKET_END_VALUE
                        else if i <= y < i + GROWTH && (y - i) % 2 == 0 then EMPTY_VALUE
                        else 0
    {
      if y < i {
        assert s1[y] == piece[y];
      }
    }
  }

  /** The steps of the splice, composed, build the spliced buffer. */
  lemma SpliceSteps(s: seq<u32>, b: int, h: int, i: int, key: u32, value: u32,
                    s3: seq<u32>, s4: seq<u32>, s5: seq<u32>)
    requires DirOk(s, b) && 0 <= h < b && |s| + GROWTH < WORD_LIMIT && i == End(s, b, h) - 1
    requires |s3| == |s| + GROWTH && |s4| == |s3|
    requires forall y {:trigger s3[y]} :: 0 <= y < |s3| ==>
      s3[y] == if h < y < b then WrapAdd(s[y], GROWTH as u32)
               else if y < i then s[y]
               else if y == i + GROWTH then BUCKET_END_VALUE
               else if i <= y < i + GROWTH && (y - i) % 2 == 0 then EMPTY_VALUE
               else 0
    requires forall y {:trigger s4[y]} :: 0 <= y < |s4| ==>
      s4[y] == if h + 1 < b && Off(s, h + 1) + GROWTH <= y then s[y - GROWTH]
               else if h + 1 == b && Off(s, h) <= y < |s| then s[y]
               else s3[y]
    requires s5 == s4[i := key][i + 1 := value]
    ensures s5 == Spliced(s, b, h, key, value)
  {
    var t := Spliced(s, b, h, key, value);
    DirBounds(s, b, h);
    if h + 1 < b {
      assert Off(s, h + 1) == i + 1;
    } else {
      assert i == |s| - 1;
    }
    forall y | 0 <= y < |t| ensures s5[y] == t[y] {
      if y < b {
        DirBounds(s, b, y);
      }
    }
  }

  /** The end marker of segment `i` is the only marker between the first `i`
      segments and the first `i + 1`. */
  lemma EndMarkerStep(c: int, i: int, y: int)
    requires 0 <= i && c <= y
    ensures (y < c + SEGMENT_WORDS * (i + 1) && (y - c) % SEGMENT_WORDS == SEGMENT_WORDS - 1)
            <==> (y < c + SEGMENT_WORDS * i && (y - c) % SEGMENT_WORDS == SEGMENT_WORDS - 1)
                 || y == c + SEGMENT_WORDS * i + SEGMENT_WORDS - 1
  {
    var q, r := (y - c) / SEGMENT_WORDS, (y - c) % SEGMENT_WORDS;
    assert y - c == SEGMENT_WORDS * q + r;
    if y < c + SEGMENT_WORDS * (i + 1) && y >= c + SEGMENT_WORDS * i {
      assert q == i;
    }
    if y == c + SEGMENT_WORDS * i + SEGMENT_WORDS - 1 {
      assert q == i && r == SEGMENT_WORDS - 1;
    }
  }

  /** Every position of the segment area of `c` segments lies below the end of
      the last segment, and words there are end markers exactly as in the
      initial buffer. */
  lemma EndMarkerLast(c: int, y: int)
    requires 1 <= c && 6 * c < WORD_LIMIT && c <= y < 6 * c
    ensures y < c + SEGMENT_WORDS * c
    ensures InitialStore(c)[y] == if (y - c) % SEGMENT_WORDS == SEGMENT_WORDS - 1 then BUCKET_END_VALUE else EMPTY_VALUE
  {
  }

  class BasicHashMapNoPointer {
    /** Directory words, then the segments of every bucket. */
    var store: array<u32>
    /** Total key/value slots over all segments. */
    var maxSize: int
    /** Number of buckets, which is also the length of the directory. */
    var buckets: int
    /** Number of pairs held. */
    var Size: int

    /** The layout invariant, for the bucket function `hashFunc` of this table. */
    ghost predicate Valid()
      reads this, store
    {
      1 <= buckets < WORD_LIMIT && TableOk(store[..], buckets, maxSize, Size, buckets)
    }

    /** The map the table holds. */
    ghost function Contents(): map<u32, u32>
      reads this, store
      requires Valid()
    {
      Layout.Contents(store[..], buckets)
    }

    /** `createByCapacity`: `capacity` buckets, each a segment of
        INITIAL_BUCKET_SIZE empty slots and an end marker, and no pairs. */
    constructor CreateByCapacity(capacity: int)
      requires 1 <= capacity && 6 * capacity < WORD_LIMIT
      ensures Valid() && fresh(store)
      ensures store[..] == InitialStore(capacity)
      ensures maxSize == capacity * INITIAL_BUCKET_SIZE && buckets == capacity && Size == 0
      ensures Contents() == map[]
    {
      var s := new u32[2 * capacity * INITIAL_BUCKET_SIZE + capacity * 2](_ => 0);
      var i := capacity;
      while i < s.Length
        invariant capacity <= i <= s.Length
        invariant forall y {:trigger s[y]} :: 0 <= y < s.Length ==>
          s[y] == if capacity <= y < i then EMPTY_VALUE else 0
      {
        s[i] := EMPTY_VALUE;
        i := i + 1;
      }
      i := 0;
      while i < capacity
        invariant 0 <= i <= capacity
        invariant forall y {:trigger s[y]} :: 0 <= y < s.Length ==>
          s[y] == if y < capacity then (if y < i then (capacity + SEGMENT_WORDS * y) as u32 else 0)
                  else if y < capacity + SEGMENT_WORDS * i && (y - capacity) % SEGMENT_WORDS == SEGMENT_WORDS - 1 then BUCKET_END_VALUE
                  else EMPTY_VALUE
      {
        s[i] := (capacity + i * (2 * INITIAL_BUCKET_SIZE + 1)) as u32;
        s[capacity + (i + 1) * (2 * INITIAL_BUCKET_SIZE + 1) - 1] := BUCKET_END_VALUE;
        forall y | 0 <= y < s.Length
          ensures s[y] == if y < capacity then (if y < i + 1 then (capacity + SEGMENT_WORDS * y) as u32 else 0)
                          else if y < capacity + SEGMENT_WORDS * (i + 1) && (y - capacity) % SEGMENT_WORDS == SEGMENT_WORDS - 1 then BUCKET_END_VALUE
                          else EMPTY_VALUE
        {
          if capacity <= y {
            EndMarkerStep(capacity, i, y);
          }
        }
        i := i + 1;
      }
      forall y | 0 <= y < s.Length ensures s[y] == InitialStore(capacity)[y] {
        if capacity <= y {
          EndMarkerLast(capacity, y);
        }
      }
      assert s[..] == InitialStore(capacity);
      store := s;
      maxSize := capacity * INITIAL_BUCKET_SIZE;
      buckets := capacity;
      Size := 0;
      InitialLayout(capacity, capacity);
    }

    /** A table over the given buffer and counters, as Go's struct literal. */
    constructor FromParts(store: array<u32>, maxSize: int, buckets: int, Size: int)
      ensures this.store == store && this.maxSize == maxSize && this.buckets == buckets && this.Size == Size
    {
      this.store := store;
      this.maxSize := maxSize;
      this.buckets := buckets;
      this.Size := Size;
    }

    /** `Len`: the number of pairs, which is the size of the held map. */
    function Len(): (r: int)
      reads this, store
      requires Valid()
      ensures r == |Contents()|
    {
      SizeIsCount(store[..], buckets, maxSize, Size, buckets);
      Size
    }

    /** `Get`: the value of `key`, or 0 when the key is absent. The scan walks
        the key words of the key's bucket and stops at the first empty slot or
        end marker. */
    method Get(key: u32) returns (r: u32)
      requires Valid()
      ensures key in Contents() ==> r == Contents()[key]
      ensures key !in Contents() ==> r == 0
    {
      ghost var s := store[..];
      ghost var hb := buckets;
      assert Contents() == Layout.Contents(s, buckets);
      var bucket := HashFunc(key, buckets);
      assert Bucket(key, hb) == bucket as int;
      ghost var seg := Seg(s, buckets, bucket as int);
      TableSeg(s, buckets, maxSize, Size, hb, bucket as int);
      ShapeFacts(seg);
      DirBounds(s, buckets, bucket as int);
      var i := store[bucket] as int;
      ghost var t := 0;
      while store[i] != BUCKET_END_VALUE && store[i] != EMPTY_VALUE
        invariant i == Off(s, bucket as int) + t && 0 <= t <= LiveLen(seg) && t % 2 == 0
        invariant forall u :: 0 <= u < t && u % 2 == 0 ==> seg[u] != key
        decreases LiveLen(seg) - t
      {
        SegIndex(s, buckets, bucket as int, i, t);
        ScanNext(seg, t);
        if store[i] == key {
          FoundByScan(s, buckets, maxSize, Size, hb, key, t);
          return store[i + 1];
        }
        ScanPast(seg, t, key);
        i, t := i + 2, t + 2;
      }
      SegIndex(s, buckets, bucket as int, i, t);
      ScanStop(seg, t);
      AbsentByScan(s, buckets, maxSize, Size, hb, key);
      return 0;
    }

    /** `GetIndex`: the buffer index of `key`'s key word, or 0 when the key is
        absent (0 is never a key word, since the directory comes first). */
    method GetIndex(key: u32) returns (r: u32)
      requires Valid()
      ensures key !in Contents() ==> r == 0
      ensures key in Contents() ==> KeySlot(store[..], buckets, key, r as int, buckets)
    {
      ghost var s := store[..];
      ghost var hb := buckets;
      assert Contents() == Layout.Contents(s, buckets);
      var bucket := HashFunc(key, buckets);
      assert Bucket(key, hb) == bucket as int;
      ghost var seg := Seg(s, buckets, bucket as int);
      TableSeg(s, buckets, maxSize, Size, hb, bucket as int);
      ShapeFacts(seg);
      DirBounds(s, buckets, bucket as int);
      var i := store[bucket] as int;
      ghost var t := 0;
      while store[i] != BUCKET_END_VALUE && store[i] != EMPTY_VALUE
        invariant i == Off(s, bucket as int) + t && 0 <= t <= LiveLen(seg) && t % 2 == 0
        invariant forall u :: 0 <= u < t && u % 2 == 0 ==> seg[u] != key
        decreases LiveLen(seg) - t
      {
        SegIndex(s, buckets, bucket as int, i, t);
        ScanNext(seg, t);
        if store[i] == key {
          FoundSlot(s, buckets, maxSize, Size, hb, key, bucket as int, i);
          return i as u32;
        }
        ScanPast(seg, t, key);
        i, t := i + 2, t + 2;
      }
      SegIndex(s, buckets, bucket as int, i, t);
      ScanStop(seg, t);
      AbsentByScan(s, buckets, maxSize, Size, hb, key);
      return 0;
    }

    /** `PutIndex`: overwrite the value word after the key word at `keyIndex`,
        which must be one `GetIndex` returned. */
    method PutIndex(keyIndex: u32, value: u32)
      requires Valid() && LiveSlot(store[..], buckets, keyIndex as int, buckets)
      modifies store
      ensures Valid()
      ensures store[..] == old(store[..])[keyIndex as int + 1 := value]
      ensures Contents() == old(Contents())[old(store[keyIndex]) := value]
    {
      OverwriteOk(store[..], buckets, maxSize, Size, buckets, keyIndex as int, value);
      store[keyIndex as int + 1] := value;
    }

    /** `Store`: the buffer itself (shared, not copied) and the bucket count. */
    method Store() returns (s: array<u32>, b: int)
      ensures s == store && b == buckets
    {
      return store, buckets;
    }

    /** `Clone`: a table with its own copy of the buffer and the same counters. */
    method Clone() returns (c: BasicHashMapNoPointer)
      requires Valid()
      ensures fresh(c) && fresh(c.store)
      ensures c.store[..] == store[..]
      ensures c.maxSize == maxSize && c.buckets == buckets && c.Size == Size
      ensures c.Valid() && c.Contents() == Contents()
    {
      var newStore := new u32[store.Length](_ => 0);
      var n := Copy(newStore, 0, newStore.Length, store[..]);
      assert newStore[..] == store[..];
      c := new BasicHashMapNoPointer.FromParts(newStore, maxSize, buckets, Size);
    }

    /** `Put`: insert or overwrite `key`, resizing the table when a new pair
        pushes it across a threshold. */
    method Put(key: u32, value: u32)
      requires Valid() && !IsSentinel(key) && 12 * buckets + 4 * Size + 4 < WORD_LIMIT
      modifies this, store
      ensures Valid()
      ensures Contents() == old(Contents())[key := value]
      ensures Size == if key in old(Contents()) then old(Size) else old(Size) + 1
      ensures key in old(Contents()) ==> store == old(store) && buckets == old(buckets) && maxSize == old(maxSize)
      ensures key !in old(Contents()) ==> buckets == ResizeTarget(old(buckets), old(Size) + 1)
      ensures store == old(store) || fresh(store)
      ensures IsPow2(old(buckets)) ==> IsPow2(buckets)
    {
      PutInternal(key, value, true);
    }

    /** `put`: scan the key's bucket; overwrite the value of a matching key,
        fill the first empty slot, or splice the full bucket into a buffer
        with INITIAL_BUCKET_SIZE more slots. A new pair goes through
        `changeSizeBy`, which resizes only when `resize` is set. */
    method PutInternal(key: u32, value: u32, resize: bool)
      requires Valid() && !IsSentinel(key)
      requires (if resize then 12 else 6) * buckets + 4 * Size + 4 < WORD_LIMIT
      modifies this, store
      decreases if resize then 1 else 0, 3
      ensures Valid()
      ensures Contents() == old(Contents())[key := value]
      ensures Size == if key in old(Contents()) then old(Size) else old(Size) + 1
      ensures key in old(Contents()) ==> store == old(store) && buckets == old(buckets) && maxSize == old(maxSize)
      ensures !resize ==> buckets == old(buckets)
      ensures resize && key !in old(Contents()) ==> buckets == ResizeTarget(old(buckets), old(Size) + 1)
      ensures store == old(store) || fresh(store)
      ensures IsPow2(old(buckets)) ==> IsPow2(buckets)
    {
      var i := FindSlot(key);
      if store[i] == key {
        OverwriteAt(i, key, value);
      } else if store[i] == EMPTY_VALUE {
        FillAt(i, key, value, resize);
      } else {
        GrowAt(i, key, value, resize);
      }
    }

    /** The scan of `put`: walk the pairs of the key's bucket from its start
        until the key itself, an empty slot or the end marker. The first
        means the key is stored there; the other two mean it is absent and
        say where its pair goes. */
    method FindSlot(key: u32) returns (i: int)
      requires Valid() && !IsSentinel(key)
      ensures 0 <= i < store.Length
      ensures store[i] == key || store[i] == EMPTY_VALUE || store[i] == BUCKET_END_VALUE
      ensures store[i] == key ==> KeySlot(store[..], buckets, key, i, buckets)
      ensures store[i] == EMPTY_VALUE ==>
        key !in Contents() &&
        i == Off(store[..], Bucket(key, buckets)) + LiveLen(Seg(store[..], buckets, Bucket(key, buckets)))
      ensures store[i] == BUCKET_END_VALUE ==>
        key !in Contents() &&
        i == End(store[..], buckets, Bucket(key, buckets)) - 1 &&
        LiveLen(Seg(store[..], buckets, Bucket(key, buckets))) == |Seg(store[..], buckets, Bucket(key, buckets))| - 1
    {
      ghost var s := store[..];
      var bucket := HashFunc(key, buckets);
      ghost var h := bucket as int;
      ghost var seg := Seg(s, buckets, h);
      TableSeg(s, buckets, maxSize, Size, buckets, h);
      ShapeFacts(seg);
      DirBounds(s, buckets, h);
      i := store[bucket] as int;
      ghost var t := 0;
      ghost var end := End(s, buckets, h);
      assert |seg| == end - i && LiveLen(seg) < |seg| && end <= store.Length;
      while i < store.Length && store[i] != key && store[i] != EMPTY_VALUE && store[i] != BUCKET_END_VALUE
        invariant i == Off(s, h) + t && 0 <= t <= LiveLen(seg) && t % 2 == 0 && i < end
        invariant forall u :: 0 <= u < t && u % 2 == 0 ==> seg[u] != key
        decreases LiveLen(seg) - t
      {
        assert t + 2 <= LiveLen(seg) && (t + 2) % 2 == 0 && forall u :: 0 <= u < t + 2 && u % 2 == 0 ==> seg[u] != key by {
          SegIndex(s, buckets, h, i, t);
          ScanNext(seg, t);
          ScanPast(seg, t, key);
        }
        i, t := i + 2, t + 2;
      }
      SegIndex(s, buckets, h, i, t);
      if store[i] == key {
        FoundSlot(s, buckets, maxSize, Size, buckets, key, h, i);
      } else {
        ScanStop(seg, t);
        AbsentByScan(s, buckets, maxSize, Size, buckets, key);
      }
    }

    /** `put` meeting `key` at `i`: overwrite its value word. */
    method OverwriteAt(i: int, key: u32, value: u32)
      requires Valid() && 0 <= i < store.Length && KeySlot(store[..], buckets, key, i, buckets)
      modifies store
      ensures Valid() && Contents() == old(Contents())[key := value]
      ensures store[..] == old(store[..])[i + 1 := value]
    {
      OverwriteOk(store[..], buckets, maxSize, Size, buckets, i, value);
      store[i + 1] := value;
    }

    /** `put` meeting an empty slot at `i`, the end of the live pairs of the
        key's bucket: write the pair there and count it. */
    method FillAt(i: int, key: u32, value: u32, resize: bool)
      requires Valid() && !IsSentinel(key) && key !in Contents()
      requires (if resize then 12 else 6) * buckets + 4 * Size + 4 < WORD_LIMIT
      requires i == Off(store[..], Bucket(key, buckets)) + LiveLen(Seg(store[..], buckets, Bucket(key, buckets)))
      requires i < store.Length && store[i] == EMPTY_VALUE
      modifies this, store
      decreases if resize then 1 else 0, 2
      ensures Valid() && Contents() == old(Contents())[key := value] && Size == old(Size) + 1
      ensures !resize ==> buckets == old(buckets) && store == old(store) && maxSize == old(maxSize)
      ensures resize ==> buckets == ResizeTarget(old(buckets), old(Size) + 1)
      ensures store == old(store) || fresh(store)
      ensures IsPow2(old(buckets)) ==> IsPow2(buckets)
    {
      FillOk(store[..], buckets, maxSize, Size, Size + 1, buckets, i, key, value);
      store[i] := key;
      store[i + 1] := value;
      ChangeSizeBy(1, resize);
    }

    /** `put` meeting the end marker at `i`: the key's bucket is full, so the
        buffer is rebuilt with INITIAL_BUCKET_SIZE more slots in that bucket,
        the pair goes into the first of them, and the pair is counted. */
    method GrowAt(i: int, key: u32, value: u32, resize: bool)
      requires Valid() && !IsSentinel(key) && key !in Contents()
      requires (if resize then 12 else 6) * buckets + 4 * Size + 4 < WORD_LIMIT
      requires i == End(store[..], buckets, Bucket(key, buckets)) - 1
      requires LiveLen(Seg(store[..], buckets, Bucket(key, buckets))) == |Seg(store[..], buckets, Bucket(key, buckets))| - 1
      modifies this
      decreases if resize then 1 else 0, 2
      ensures Valid() && Contents() == old(Contents())[key := value] && Size == old(Size) + 1
      ensures !resize ==> buckets == old(buckets)
      ensures !resize ==> maxSize == old(maxSize) + INITIAL_BUCKET_SIZE
      ensures resize ==> buckets == ResizeTarget(old(buckets), old(Size) + 1)
      ensures fresh(store)
      ensures IsPow2(old(buckets)) ==> IsPow2(buckets)
    {
      SpliceOk(store[..], buckets, maxSize, Size, buckets, key, value);
      var newStore := Splice(HashFunc(key, buckets) as int, i, key, value);
      store := newStore;
      maxSize := maxSize + INITIAL_BUCKET_SIZE;
      ChangeSizeBy(1, resize);
    }

    /** `changeSizeBy`: adjust the pair count, then resize if asked to. The
        buffer and bucket count are already those of the changed table. */
    method ChangeSizeBy(change: int, resize: bool)
      requires 1 <= buckets < WORD_LIMIT && TableOk(store[..], buckets, maxSize, Size + change, buckets)
      requires resize ==> 12 * buckets + 4 * (Size + change) < WORD_LIMIT
      modifies this
      decreases if resize then 1 else 0, 1
      ensures Valid() && Size == old(Size) + change
      ensures Contents() == Layout.Contents(old(store[..]), old(buckets))
      ensures !resize ==> store == old(store) && buckets == old(buckets) && maxSize == old(maxSize)
      ensures resize ==> buckets == ResizeTarget(old(buckets), old(Size) + change)
      ensures store == old(store) || fresh(store)
      ensures IsPow2(old(buckets)) ==> IsPow2(buckets)
    {
      Size := Size + change;
      if resize {
        ResizeOnThreshold();
      }
    }

    /** `resizeOnThreshold`: when the pair count is under a fifth of the bucket
        count (and above INITIAL_CAPACITY), or over six times it, rebuild the
        table with half or twice the buckets by putting every listed pair into
        a fresh table without further resizing. */
    method ResizeOnThreshold()
      requires Valid() && 12 * buckets + 4 * Size < WORD_LIMIT
      modifies this
      decreases 1, 0
      ensures Valid()
      ensures Contents() == old(Contents()) && Size == old(Size)
      ensures buckets == ResizeTarget(old(buckets), old(Size))
      ensures buckets == old(buckets) ==> store == old(store) && maxSize == old(maxSize)
      ensures store == old(store) || fresh(store)
      ensures IsPow2(old(buckets)) ==> IsPow2(buckets)
    {
      ghost var m := Contents();
      var newSize := 0;
      if Size < buckets / 5 && Size > INITIAL_CAPACITY {
        newSize := buckets / 2;
      } else if Size > buckets * 6 {
        newSize := buckets * 2;
      } else {
        assert ResizeTarget(buckets, Size) == buckets;
        return;
      }
      if IsPow2(buckets) {
        ResizeTargetFacts(buckets, Size);
      }
      Rebuild(newSize);
    }

    /** The rebuild step of `resizeOnThreshold`: a fresh table of `newSize`
        buckets receives every listed pair and then replaces this one. */
    method Rebuild(newSize: int)
      requires Valid() && 1 <= newSize <= 2 * buckets && 12 * buckets + 4 * Size < WORD_LIMIT
      modifies this
      decreases 0, 5
      ensures Valid() && fresh(store)
      ensures Contents() == old(Contents()) && Size == old(Size) && buckets == newSize
    {
      var newHashMap := new BasicHashMapNoPointer.CreateByCapacity(newSize);
      var iter := Iter();
      newHashMap.PutPairs(iter[..]);
      Assign(newHashMap);
    }

    /** `*hm = newHashMap`: take over another table's buffer and counters. */
    method Assign(other: BasicHashMapNoPointer)
      requires other.Valid()
      modifies this
      ensures store == other.store && maxSize == other.maxSize && buckets == other.buckets && Size == other.Size
      ensures Valid() && Contents() == old(other.Contents())
    {
      store := other.store;
      maxSize := other.maxSize;
      buckets := other.buckets;
      Size := other.Size;
    }

    /** `resizeOnThreshold`'s loop: put every pair of `iter` into this fresh
        table, without resizing. */
    method PutPairs(iter: seq<u32>)
      requires Valid() && Size == 0
      requires |iter| % 2 == 0 && Distinct(iter)
      requires forall u :: 0 <= u < |iter| && u % 2 == 0 ==> !IsSentinel(iter[u])
      requires 6 * buckets + 2 * |iter| < WORD_LIMIT
      modifies this, store
      decreases 0, 4
      ensures Valid() && Contents() == PairsMap(iter) && 2 * Size == |iter|
      ensures buckets == old(buckets) && (store == old(store) || fresh(store))
    {
      SizeIsCount(store[..], buckets, maxSize, Size, buckets);
      var i := 0;
      while i < |iter|
        invariant 0 <= i <= |iter| && i % 2 == 0
        invariant Valid() && Contents() == PairsMap(iter[..i]) && 2 * Size == i
        invariant buckets == old(buckets) && (store == old(store) || fresh(store))
      {
        assert i + 2 <= |iter| && (i + 2) % 2 == 0 && iter[i] !in PairsMap(iter[..i])
            && PairsMap(iter[..i + 2]) == PairsMap(iter[..i])[iter[i] := iter[i + 1]] by {
          EvenStep(i, |iter|);
          PairsMapStep(iter, i);
        }
        PutInternal(iter[i], iter[i + 1], false);
        i := i + 2;
      }
      assert iter[..i] == iter;
    }

    /** `Iter`: the live pairs of every bucket, bucket by bucket, as flat
        key/value words. */
    method Iter() returns (pairs: array<u32>)
      requires Valid()
      ensures fresh(pairs)
      ensures pairs[..] == Flat(Segs(store[..], buckets))
      ensures pairs.Length == 2 * Size && pairs.Length % 2 == 0
      ensures Distinct(pairs[..]) && PairsMap(pairs[..]) == Contents()
      ensures forall u :: 0 <= u < pairs.Length && u % 2 == 0 ==> !IsSentinel(pairs[u])
    {
      ghost var segs := Segs(store[..], buckets);
      assert |Flat(segs)| == 2 * Size by {
        ListingFacts(store[..], buckets, maxSize, Size, buckets);
      }
      pairs := new u32[Size * 2](_ => 0);
      var index := 0;
      var i := 0;
      while i < buckets
        invariant 0 <= i <= buckets && index == |Flat(segs[..i])|
        invariant forall y {:trigger pairs[y]} :: 0 <= y < pairs.Length ==>
          pairs[y] == if y < index then Flat(segs[..i])[y] else 0
      {
        ghost var before := Flat(segs[..i]);
        ghost var after := Flat(segs[..i + 1]);
        FlatStep(segs, i);
        index := CopyBucket(pairs, index, i);
        forall y | 0 <= y < pairs.Length
          ensures pairs[y] == if y < index then after[y] else 0
        {
          if y < |before| {
            assert after[y] == before[y];
          }
        }
        i := i + 1;
      }
      assert segs[..buckets] == segs;
      assert pairs[..] == Flat(segs);
      ListingFacts(store[..], buckets, maxSize, Size, buckets);
    }

    /** `Iter`'s scan of bucket `i`: step over its key words up to the first
        empty slot or end marker, then copy the live pairs so far to
        `pairs[index..]`. */
    method CopyBucket(pairs: array<u32>, index: int, i: int) returns (next: int)
      requires Valid() && 0 <= i < buckets && pairs != store
      requires 0 <= index && index + |LivePrefix(Seg(store[..], buckets, i))| <= pairs.Length
      modifies pairs
      ensures next == index + |LivePrefix(Seg(store[..], buckets, i))|
      ensures forall y {:trigger pairs[y]} :: 0 <= y < pairs.Length ==>
        pairs[y] == if index <= y < next then LivePrefix(Seg(store[..], buckets, i))[y - index] else old(pairs[y])
    {
      ghost var s := store[..];
      ghost var seg := Seg(s, buckets, i);
      TableSeg(s, buckets, maxSize, Size, buckets, i);
      ShapeFacts(seg);
      DirBounds(s, buckets, i);
      var k := store[i] as int;
      ghost var t := 0;
      ghost var end := End(s, buckets, i);
      assert |seg| == end - k && LiveLen(seg) < |seg| && end <= store.Length;
      while k < store.Length && store[k] != EMPTY_VALUE && store[k] != BUCKET_END_VALUE
        invariant k == Off(s, i) + t && 0 <= t <= LiveLen(seg) && t % 2 == 0 && k < end
        decreases LiveLen(seg) - t
      {
        assert t + 2 <= LiveLen(seg) && (t + 2) % 2 == 0 by {
          SegIndex(s, buckets, i, k, t);
          ScanNext(seg, t);
        }
        k, t := k + 2, t + 2;
      }
      SegIndex(s, buckets, i, k, t);
      ScanStop(seg, t);
      SegTake(s, buckets, i, t);
      assert store[store[i]..k] == LivePrefix(seg);
      var n := Copy(pairs, index, pairs.Length, store[store[i]..k]);
      next := index + (k - store[i] as int);
    }

    /** `UpdateMax`: keep the larger of the held and the given value for a
        present key, or insert the pair. */
    method UpdateMax(key: u32, value: u32)
      requires Valid() && !IsSentinel(key) && 12 * buckets + 4 * Size + 4 < WORD_LIMIT
      modifies this, store
      ensures Valid()
      ensures key in old(Contents()) ==> Contents() == old(Contents())[key := Max(old(Contents())[key], value)]
      ensures key !in old(Contents()) ==> Contents() == old(Contents())[key := value]
      ensures Size == if key in old(Contents()) then old(Size) else old(Size) + 1
      ensures key in old(Contents()) ==> store == old(store) && buckets == old(buckets) && maxSize == old(maxSize)
      ensures key !in old(Contents()) ==> buckets == ResizeTarget(old(buckets), old(Size) + 1)
      ensures store == old(store) || fresh(store)
      ensures IsPow2(old(buckets)) ==> IsPow2(buckets)
    {
      var storeIndex := GetIndex(key);
      var tmp := value;
      if storeIndex as int >= buckets {
        tmp := Max(store[storeIndex + 1], value);
        PutIndex(storeIndex, tmp);
      } else {
        Put(key, value);
      }
    }

    /** `Add`: add the given value to a present key's value, wrapping modulo
        2^32, or insert the pair. */
    method Add(key: u32, value: u32)
      requires Valid() && !IsSentinel(key) && 12 * buckets + 4 * Size + 4 < WORD_LIMIT
      modifies this, store
      ensures Valid()
      ensures key in old(Contents()) ==> Contents() == old(Contents())[key := WrapAdd(old(Contents())[key], value)]
      ensures key !in old(Contents()) ==> Contents() == old(Contents())[key := value]
      ensures Size == if key in old(Contents()) then old(Size) else old(Size) + 1
      ensures key in old(Contents()) ==> store == old(store) && buckets == old(buckets) && maxSize == old(maxSize)
      ensures key !in old(Contents()) ==> buckets == ResizeTarget(old(buckets), old(Size) + 1)
      ensures store == old(store) || fresh(store)
      ensures IsPow2(old(buckets)) ==> IsPow2(buckets)
    {
      var storeIndex := GetIndex(key);
      if storeIndex as int >= buckets {
        PutIndex(storeIndex, WrapAdd(store[storeIndex + 1], value));
      } else {
        Put(key, value);
      }
    }

    /** The buffer `put` builds when bucket `bucket` is full and its scan met the
        end marker at `i`: the words before `i` copied, two fresh slots and a new
        end marker, later directory offsets moved by 4, later segments copied to
        their moved places, and finally the new pair written at `i`. */
    method Splice(bucket: int, i: int, key: u32, value: u32) returns (newStore: array<u32>)
      requires DirOk(store[..], buckets) && 0 <= bucket < buckets
      requires i == End(store[..], buckets, bucket) - 1 && store.Length + GROWTH < WORD_LIMIT
      ensures fresh(newStore)
      ensures newStore[..] == Spliced(store[..], buckets, bucket, key, value)
    {
      ghost var s := store[..];
      newStore := GrowFront(store, buckets, bucket, i);
      ghost var s3 := newStore[..];
      forall j | 0 <= j < buckets
        ensures newStore[j] as int == if bucket < j then Off(s, j) + GROWTH else Off(s, j)
      {
        DirBounds(s, buckets, j);
      }
      CopyLater(newStore, store, buckets, bucket);
      ghost var s4 := newStore[..];
      newStore[i] := key;
      newStore[i + 1] := value;
      SpliceSteps(s, buckets, bucket, i, key, value, s3, s4, newStore[..]);
    }
  }

  /** `New`: a table of INITIAL_CAPACITY buckets holding nothing. */
  method New() returns (hm: BasicHashMapNoPointer)
    ensures fresh(hm) && fresh(hm.store) && hm.Valid() && hm.Contents() == map[]
    ensures hm.buckets == INITIAL_CAPACITY && hm.Size == 0 && IsPow2(hm.buckets)
  {
    hm := new BasicHashMapNoPointer.CreateByCapacity(INITIAL_CAPACITY);
    assert IsPow2(1);
  }
}
