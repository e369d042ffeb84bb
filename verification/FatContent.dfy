/** The content of a file as one flat byte sequence, and what a store into one of its clusters does to it. */
module FatContent {
  import opened Common

  type Byte = bv8
  type Content = map<nat, seq<Byte>>

  /** Every cluster of the chain has `size` bytes of content. */
  ghost predicate Filled(data: Content, c: seq<nat>, size: nat) {
    forall i :: 0 <= i < |c| ==> c[i] in data && |data[c[i]]| == size
  }

  /** The clusters of a chain joined in order. */
  ghost function Flat(data: Content, c: seq<nat>): (s: seq<Byte>)
    requires forall i :: 0 <= i < |c| ==> c[i] in data
  {
    if c == [] then [] else Flat(data, c[..|c| - 1]) + data[c[|c| - 1]]
  }

  /** The first byte of the k-th cluster. */
  ghost function Base(k: nat, size: nat): (n: nat) {
    if k == 0 then 0 else Base(k - 1, size) + size
  }

  lemma {:induction false} BaseIsProduct(k: nat, size: nat)
    ensures Base(k, size) == k * size
  {
    if k > 0 {
      BaseIsProduct(k - 1, size);
      assert k * size == (k - 1) * size + size;
    }
  }

  lemma {:induction false} BaseMonotone(j: nat, k: nat, size: nat)
    requires j <= k
    ensures Base(j, size) <= Base(k, size)
  {
    if j < k {
      BaseMonotone(j, k - 1, size);
    }
  }

  lemma {:induction false} FlatLength(data: Content, c: seq<nat>, size: nat)
    requires Filled(data, c, size)
    ensures |Flat(data, c)| == Base(|c|, size)
  {
    if c != [] {
      FlatLength(data, c[..|c| - 1], size);
    }
  }

  /** Reading cluster by cluster returns the flat content. */
  lemma {:induction false} FlatSlice(data: Content, c: seq<nat>, size: nat, k: nat)
    requires Filled(data, c, size) && k < |c|
    ensures Base(k, size) + size == Base(k + 1, size) <= |Flat(data, c)|
    ensures Flat(data, c)[Base(k, size)..Base(k + 1, size)] == data[c[k]]
  {
    var d := c[..|c| - 1];
    FlatLength(data, d, size);
    FlatLength(data, c, size);
    BaseMonotone(k + 1, |c|, size);
    if k < |c| - 1 {
      FlatSlice(data, d, size, k);
      BaseMonotone(k + 1, |c| - 1, size);
      assert Flat(data, c)[Base(k, size)..Base(k + 1, size)] == Flat(data, d)[Base(k, size)..Base(k + 1, size)];
    } else {
      assert Flat(data, c) == Flat(data, d) + data[c[k]] && |Flat(data, d)| == Base(k, size);
    }
  }

  /** Clusters outside the chain do not matter. */
  lemma {:induction false} FlatFrame(data: Content, data': Content, c: seq<nat>)
    requires forall i :: 0 <= i < |c| ==> c[i] in data && c[i] in data' && data[c[i]] == data'[c[i]]
    ensures Flat(data, c) == Flat(data', c)
  {
    if c != [] {
      FlatFrame(data, data', c[..|c| - 1]);
    }
  }

  /** A store at position `p` of the k-th cluster is a store at Base(k) + p of the file. */
  lemma {:induction false} FlatStore(data: Content, c: seq<nat>, size: nat, k: nat, p: nat, b: Byte)
    requires Filled(data, c, size) && Distinct(c) && k < |c| && p < size
    ensures Base(k, size) + p < |Flat(data, c)|
    ensures Filled(data[c[k] := data[c[k]][p := b]], c, size)
    ensures Flat(data[c[k] := data[c[k]][p := b]], c) == Flat(data, c)[Base(k, size) + p := b]
  {
    var data' := data[c[k] := data[c[k]][p := b]];
    var d := c[..|c| - 1];
    FlatLength(data, d, size);
    FlatLength(data, c, size);
    BaseMonotone(k + 1, |c|, size);
    if k == |c| - 1 {
      FlatFrame(data, data', d);
      assert Flat(data', c) == Flat(data, d) + data[c[k]][p := b];
    } else {
      FlatStore(data, d, size, k, p, b);
      BaseMonotone(k + 1, |c| - 1, size);
      assert c[|c| - 1] != c[k];
    }
  }

  /** `s` with the bytes of `t` written from position `at` on. */
  function Splice(s: seq<Byte>, at: nat, t: seq<Byte>): (r: seq<Byte>)
    requires at + |t| <= |s|
  {
    s[..at] + t + s[at + |t|..]
  }

  lemma SpliceStep(s: seq<Byte>, at: nat, t: seq<Byte>, i: nat)
    requires i < |t| && at + i < |s|
    ensures Splice(s, at, t[..i])[at + i := t[i]] == Splice(s, at, t[..i + 1])
  {
    assert t[..i + 1] == t[..i] + [t[i]];
  }

  /** The clusters from index `k` to `top` are cached, and no further. */
  ghost predicate EndsAt(c: seq<nat>, cached: set<nat>, k: nat, top: nat) {
    && k <= top <= |c| && (forall i :: k <= i < top ==> c[i] in cached)
    && (top < |c| ==> c[top] !in cached)
  }

  /** The end of the cached stretch that starts at index `k`. */
  ghost function Reach(c: seq<nat>, cached: set<nat>, k: nat): (top: nat)
    ensures k <= |c| ==> EndsAt(c, cached, k, top)
    ensures k > |c| ==> top == k
    decreases |c| - k
  {
    if k < |c| && c[k] in cached then Reach(c, cached, k + 1) else k
  }

  /** The number of the `n` bytes from `offset` on that lie below `cap`. */
  function Fitting(offset: nat, n: nat, cap: nat): (m: nat) {
    if cap <= offset then 0 else if n <= cap - offset then n else cap - offset
  }

  /** A cursor at byte `ptr` of the k-th cluster, within a cached stretch that ends at `top`. */
  ghost predicate At(c: seq<nat>, cached: set<nat>, k: nat, ptr: nat, size: nat, top: nat) {
    k < top && EndsAt(c, cached, k, top) && ptr < size
  }

  lemma BelowEnd(c: seq<nat>, cached: set<nat>, k: nat, ptr: nat, size: nat, top: nat)
    requires At(c, cached, k, ptr, size, top)
    ensures Base(k, size) + ptr < Base(top, size)
  {
    BaseMonotone(k + 1, top, size);
  }

  lemma FittingIs(offset: nat, n: nat, m: nat, cap: nat)
    requires (m == n && offset + m < cap) || (0 < m <= n && offset + m == cap)
    ensures Fitting(offset, n, cap) == m && (offset + n < cap <==> offset + m < cap)
  {
  }

  /** The first `m` bytes of `src` replaced the bytes of the file from `offset` on; no other byte changed. */
  ghost predicate Written(was: Content, now: Content, c: seq<nat>, size: nat, offset: nat, src: seq<Byte>, m: nat) {
    && m <= |src| && Filled(was, c, size) && Filled(now, c, size)
    && (if m == 0 then Flat(now, c) == Flat(was, c)
        else offset + m <= |Flat(was, c)| && Flat(now, c) == Splice(Flat(was, c), offset, src[..m]))
    && forall x :: x in was && x !in c ==> x in now && now[x] == was[x]
  }

  /** A write changes the bytes of no file whose chain shares no cluster with the one written. */
  lemma OtherFilesKeepTheirBytes(was: Content, now: Content, c: seq<nat>, size: nat, offset: nat, src: seq<Byte>, m: nat, e: seq<nat>)
    requires Written(was, now, c, size, offset, src, m) && Filled(was, e, size)
    requires forall i :: 0 <= i < |e| ==> e[i] !in c
    ensures Filled(now, e, size) && Flat(now, e) == Flat(was, e)
  {
    FlatFrame(was, now, e);
  }

  lemma WrittenNothing(was: Content, c: seq<nat>, size: nat, offset: nat, src: seq<Byte>)
    requires Filled(was, c, size)
    ensures Written(was, was, c, size, offset, src, 0)
  {
  }

  /** Storing one more byte at its place in its cluster. */
  lemma WrittenStep(was: Content, now: Content, c: seq<nat>, size: nat, offset: nat, src: seq<Byte>, m: nat, k: nat, p: nat)
    requires Written(was, now, c, size, offset, src, m) && m < |src|
    requires Distinct(c) && k < |c| && p < size && Base(k, size) + p == offset + m
    ensures Written(was, now[c[k] := now[c[k]][p := src[m]]], c, size, offset, src, m + 1)
  {
    FlatStore(now, c, size, k, p, src[m]);
    FlatLength(was, c, size);
    FlatLength(now, c, size);
    ContentStep(Flat(was, c), Flat(now, c), offset, src, m);
  }

  lemma ContentStep(f: seq<Byte>, g: seq<Byte>, offset: nat, src: seq<Byte>, m: nat)
    requires m < |src| && offset + m < |f| && |g| == |f|
    requires g == if m == 0 then f else Splice(f, offset, src[..m])
    ensures g[offset + m := src[m]] == Splice(f, offset, src[..m + 1])
  {
    assert m == 0 ==> f == Splice(f, offset, src[..0]);
    SpliceStep(f, offset, src, m);
  }
}
