/** Flat key,value,key,value,... word sequences: the form in which the table
    lists its contents, and the map such a sequence denotes. */
module Pairs {
  import opened Bits

  /** The map listed by a flat pair sequence; a later pair for the same key wins,
      as when the pairs are put into a table one after another. */
  function PairsMap(w: seq<u32>): map<u32, u32>
    decreases |w|
  {
    if |w| < 2 then map[] else PairsMap(w[..|w| - 2])[w[|w| - 2] := w[|w| - 1]]
  }

  /** The word at position `u`; naming key positions through it keeps the
      distinctness fact below from being applied to every word in sight. */
  function KeyAt(w: seq<u32>, u: int): u32
    requires 0 <= u < |w|
  {
    w[u]
  }

  /** An even position before an even length leaves room for a whole pair. */
  lemma EvenStep(i: int, n: int)
    requires 0 <= i < n && i % 2 == 0 && n % 2 == 0
    ensures i + 2 <= n && (i + 2) % 2 == 0
  {
    EvenShift(n, i);
    EvenShift(i + 2, 2);
  }

  /** Shifting a position by an even amount keeps its parity. */
  lemma EvenShift(x: int, y: int)
    requires y % 2 == 0
    ensures (x - y) % 2 == x % 2
  {
    assert x - y == x - 2 * (y / 2);
  }

  /** No key occurs twice among the key positions (even indices) of `w`. */
  ghost predicate Distinct(w: seq<u32>)
  {
    forall u, u' {:trigger KeyAt(w, u), KeyAt(w, u')} ::
      0 <= u < u' < |w| && u % 2 == 0 && u' % 2 == 0 ==> KeyAt(w, u) != KeyAt(w, u')
  }

  /** A prefix of a listing with distinct keys has distinct keys. */
  lemma DistinctPrefix(w: seq<u32>, n: int)
    requires Distinct(w) && 0 <= n <= |w|
    ensures Distinct(w[..n])
  {
    forall u, u' | 0 <= u < u' < n && u % 2 == 0 && u' % 2 == 0
      ensures KeyAt(w[..n], u) != KeyAt(w[..n], u')
    {
      assert KeyAt(w[..n], u) == KeyAt(w, u) && KeyAt(w[..n], u') == KeyAt(w, u');
    }
  }

  /** The keys of `PairsMap(w)` are exactly the words at even positions. */
  lemma {:induction false} PairsMapKeys(w: seq<u32>, k: u32)
    requires |w| % 2 == 0
    ensures k in PairsMap(w) <==> exists u :: 0 <= u < |w| && u % 2 == 0 && w[u] == k
    decreases |w|
  {
    if |w| >= 2 {
      var w' := w[..|w| - 2];
      PairsMapKeys(w', k);
      if k in PairsMap(w) && k != w[|w| - 2] {
        var u :| 0 <= u < |w'| && u % 2 == 0 && w'[u] == k;
        assert w[u] == k;
      }
      if exists u :: 0 <= u < |w| && u % 2 == 0 && w[u] == k {
        var u :| 0 <= u < |w| && u % 2 == 0 && w[u] == k;
        if u < |w| - 2 {
          assert w'[u] == k;
        }
      }
    }
  }

  /** Appending a pair whose key is not yet mapped keeps the keys distinct. */
  lemma DistinctAppend(w: seq<u32>, k: u32, v: u32)
    requires |w| % 2 == 0 && Distinct(w) && k !in PairsMap(w)
    ensures Distinct(w + [k, v])
  {
    var w' := w + [k, v];
    PairsMapKeys(w, k);
    forall u, u' | 0 <= u < u' < |w'| && u % 2 == 0 && u' % 2 == 0
      ensures KeyAt(w', u) != KeyAt(w', u')
    {
      if u' < |w| {
        assert KeyAt(w, u) != KeyAt(w, u');
      } else {
        assert w'[u] == w[u];
      }
    }
  }

  /** Reading one more pair of a listing with distinct keys adds an entry whose
      key the shorter listing did not map. */
  lemma PairsMapStep(w: seq<u32>, i: int)
    requires |w| % 2 == 0 && Distinct(w) && 0 <= i < |w| && i % 2 == 0
    ensures w[i] !in PairsMap(w[..i])
    ensures PairsMap(w[..i + 2]) == PairsMap(w[..i])[w[i] := w[i + 1]]
  {
    var p := w[..i];
    assert w[..i + 2][..i] == p;
    PairsMapKeys(p, w[i]);
    forall u | 0 <= u < |p| && u % 2 == 0 ensures p[u] != w[i] {
      assert KeyAt(w, u) != KeyAt(w, i);
    }
  }

  /** With distinct keys, each pair of `w` is an entry of `PairsMap(w)`. */
  lemma {:induction false} PairsMapAt(w: seq<u32>, u: int)
    requires |w| % 2 == 0 && Distinct(w)
    requires 0 <= u < |w| && u % 2 == 0
    ensures w[u] in PairsMap(w) && PairsMap(w)[w[u]] == w[u + 1]
    decreases |w|
  {
    if u < |w| - 2 {
      var w' := w[..|w| - 2];
      assert w'[u] == w[u] && w'[u + 1] == w[u + 1];
      DistinctPrefix(w, |w| - 2);
      PairsMapAt(w', u);
      assert KeyAt(w, u) != KeyAt(w, |w| - 2);
    }
  }

  /** With distinct keys, the map has one entry per pair. */
  lemma {:induction false} PairsMapSize(w: seq<u32>)
    requires |w| % 2 == 0 && Distinct(w)
    ensures |PairsMap(w)| == |w| / 2
    decreases |w|
  {
    if |w| >= 2 {
      var w' := w[..|w| - 2];
      DistinctPrefix(w, |w| - 2);
      PairsMapSize(w');
      forall u | 0 <= u < |w'| && u % 2 == 0 ensures w'[u] != w[|w| - 2] {
        assert KeyAt(w, u) != KeyAt(w, |w| - 2);
      }
      PairsMapKeys(w', w[|w| - 2]);
    }
  }

  /** Listing `a` and then `c` denotes `a`'s map overridden by `c`'s. */
  lemma {:induction false} PairsMapConcat(a: seq<u32>, c: seq<u32>)
    requires |a| % 2 == 0 && |c| % 2 == 0
    ensures PairsMap(a + c) == PairsMap(a) + PairsMap(c)
    decreases |c|
  {
    if |c| == 0 {
      assert a + c == a;
    } else {
      var c' := c[..|c| - 2];
      assert (a + c)[..|a + c| - 2] == a + c';
      PairsMapConcat(a, c');
    }
  }

  /** Overwriting the value word of one pair overwrites that key's entry. */
  lemma {:induction false} PairsMapSetValue(w: seq<u32>, u: int, v: u32)
    requires |w| % 2 == 0 && Distinct(w)
    requires 0 <= u < |w| && u % 2 == 0
    ensures PairsMap(w[u + 1 := v]) == PairsMap(w)[w[u] := v]
    decreases |w|
  {
    var w' := w[..|w| - 2];
    if u == |w| - 2 {
      assert w[u + 1 := v][..|w| - 2] == w';
    } else {
      assert w[u + 1 := v][..|w| - 2] == w'[u + 1 := v];
      DistinctPrefix(w, |w| - 2);
      PairsMapSetValue(w', u, v);
      assert KeyAt(w, u) != KeyAt(w, |w| - 2);
    }
  }
}
