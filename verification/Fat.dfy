/**
 The cluster allocator, the FSInfo summary and the chain operations of fs/fatfs.c, on a table
 that is already loaded. A result of `None` or `Panic` stands for a failed user_assert.
 */
module Fat {
  import opened Common
  import opened FatTable
  import opened FatContent

  /** The bytes ClusHI[1], ClusHI[0], ClusLO[1], ClusLO[0] that hold the first cluster. */
  datatype ClusterBytes = ClusterBytes(hi1: nat, hi0: nat, lo1: nat, lo0: nat)

  function BytesToCluster(d: ClusterBytes): (n: nat) {
    d.hi1 % 256 * 0x100_0000 + d.hi0 % 256 * 0x1_0000 + d.lo1 % 256 * 0x100 + d.lo0 % 256
  }

  /** The bytes that fat_file_set_size writes. */
  function ClusterToBytes(n: nat): (d: ClusterBytes) {
    ClusterBytes(n / 0x100_0000 % 256, n / 0x1_0000 % 256, n / 0x100 % 256, n % 256)
  }

  /** Four bytes that stand for `n`, the high ones first. */
  ghost predicate Spells(d: ClusterBytes, n: nat) {
    && d.hi1 < 256 && d.hi0 < 256 && d.lo1 < 256 && d.lo0 < 256
    && n == d.hi1 * 0x100_0000 + d.hi0 * 0x1_0000 + d.lo1 * 0x100 + d.lo0
  }

  /** Every 32-bit cluster number survives being split into bytes. */
  lemma ClusterRoundTrip(n: nat)
    requires n < 0x1_0000_0000
    ensures Spells(ClusterToBytes(n), n) && BytesToCluster(ClusterToBytes(n)) == n
  {
    assert n / 0x1_0000 == n / 0x100 / 0x100 && n / 0x100_0000 == n / 0x1_0000 / 0x100;
    assert n / 0x100_0000 < 256;
  }

  /** Division of sizes by the cluster size. */
  function Quotient(a: nat, n: nat): (q: nat)
    requires n > 0
  {
    if a < n then 0 else 1 + Quotient(a - n, n)
  }

  lemma {:induction false} QuotientIsFloor(a: nat, n: nat)
    requires n > 0
    ensures Quotient(a, n) * n <= a < (Quotient(a, n) + 1) * n
  {
    if a >= n {
      QuotientIsFloor(a - n, n);
      var q := Quotient(a - n, n);
      assert (1 + q) * n == n + q * n && (1 + q + 1) * n == n + (q + 1) * n;
    }
  }

  function Remainder(a: nat, n: nat): (r: nat)
    requires n > 0
    ensures r < n
  {
    if a < n then a else Remainder(a - n, n)
  }

  lemma {:induction false} QuotientBase(a: nat, n: nat)
    requires n > 0
    ensures a == Base(Quotient(a, n), n) + Remainder(a, n)
  {
    if a >= n {
      QuotientBase(a - n, n);
    }
  }

  /** The number of clusters that a truncation to `newsize` bytes leaves. */
  function Kept(newsize: nat, clusterSize: nat): (n: nat)
    requires clusterSize > 0
  {
    if newsize == 0 then 0 else Quotient(newsize, clusterSize) + 1
  }

  lemma {:induction false} QuotientMonotone(a: nat, b: nat, n: nat)
    requires n > 0 && a <= b
    ensures Quotient(a, n) <= Quotient(b, n)
  {
    if a >= n {
      QuotientMonotone(a - n, b - n, n);
    }
  }

  datatype Found = Cluster(n: nat) | NotFound | Panic

  /** A directory entry, updated in place; the number of the first cluster is kept in four bytes. */
  class Entry {
    var bytes: ClusterBytes
    var size: nat

    constructor (first: nat, size: nat)
      requires first < 0x1_0000_0000
      ensures First() == first && this.size == size
    {
      ClusterRoundTrip(first);
      this.bytes, this.size := ClusterToBytes(first), size;
    }

    /** file_get_dataClusNO */
    function First(): (n: nat)
      reads this
    {
      BytesToCluster(bytes)
    }

    method SetFirst(n: nat)
      requires n < 0x1_0000_0000
      modifies `bytes
      ensures First() == n && Spells(bytes, n)
    {
      ClusterRoundTrip(n);
      bytes := ClusterToBytes(n);
    }
  }

  /** How fat_file_truncate ends: it is done, its assertion fails, or it runs off the end of the chain. */
  datatype Outcome = Done | Failed | Stray

  class FileSystem {
    /** TotClus - rootClus: the entries that are scanned for free clusters. */
    const limit: nat
    /** BY2CLUS */
    const clusterSize: nat
    const fat: array<nat>
    var freeCount: int
    var nxtFree: int
    /** The bytes of each cluster, and the clusters that are mapped in the cache. */
    var data: Content
    var cached: set<nat>

    ghost predicate TableOk()
      reads this, fat
    {
      limit <= fat.Length <= EOF && clusterSize > 0 && fat.Length >= 2 && fat[0] != 0 && fat[1] != 0
    }

    /** The summary agrees with the table. */
    ghost predicate Valid()
      reads this, fat
    {
      TableOk() && Summary(fat[..], limit, freeCount, nxtFree)
    }

    /** read_FSInfo: recomputes the summary from the table, whatever was stored on disk. */
    method ReadFsInfo()
      requires TableOk()
      modifies `freeCount, `nxtFree
      ensures Valid()
    {
      freeCount := 0;
      var n := 0;
      while n < limit && fat[n] != 0
        invariant n <= limit && freeCount == 0 && nxtFree == old(nxtFree)
        invariant forall i :: 0 <= i < n ==> fat[i] != 0
      {
        n := n + 1;
      }
      if n < limit {
        nxtFree := n;
      }
      ZerosNone(fat[..], 0, n);
      var i := nxtFree;
      while 0 <= i < limit
        invariant n < limit ==> nxtFree == n <= i <= limit && freeCount == Zeros(fat[..], i)
        invariant n == limit ==> freeCount == 0
        decreases limit - i
      {
        if fat[i] == 0 {
          freeCount := freeCount + 1;
        }
        i := i + 1;
      }
    }

    /** fat_alloc_cluster_num: returns iff at least two clusters are free, and takes the smallest. */
    method AllocCluster() returns (r: Option<nat>)
      requires Valid()
      modifies `freeCount, `nxtFree, fat
      ensures r.Some? <==> old(freeCount) >= 2
      ensures r.Some? ==>
                && Valid() && r.value == old(nxtFree) && 2 <= r.value < limit && old(fat[..])[r.value] == 0
                && fat[..] == old(fat[..])[r.value := 0x0fff_ffff] && freeCount == old(freeCount) - 1
    {
      if freeCount <= 0 {
        return None;
      }
      freeCount := freeCount - 1;
      var res := nxtFree;
      ghost var before := fat[..];
      fat[res] := EOF;
      assert fat[..] == before[res := EOF];
      ZerosUpdate(before, limit, res, EOF);
      var i := res;
      while i < limit && fat[i] != 0
        invariant res <= i <= limit && fat[..] == before[res := EOF] && nxtFree == res
        invariant freeCount == old(freeCount) - 1
        invariant forall k :: 0 <= k < i ==> fat[k] != 0
      {
        i := i + 1;
      }
      if i >= limit {
        ZerosNone(fat[..], 0, limit);
        return None;
      }
      nxtFree := i;
      ZerosSome(fat[..], limit, i);
      r := Some(res);
    }

    /** fat_free_cluster: clusters beyond the disk are ignored. */
    method FreeCluster(d: nat)
      requires d < fat.Length
      modifies `freeCount, `nxtFree, fat
      ensures d < limit + 2 ==>
                && fat[..] == old(fat[..])[d := 0] && freeCount == old(freeCount) + 1
                && nxtFree == Lowered(old(nxtFree), d)
      ensures d >= limit + 2 ==> fat[..] == old(fat[..]) && freeCount == old(freeCount) && nxtFree == old(nxtFree)
    {
      if d >= limit + 2 {
        return;
      }
      fat[d] := 0;
      freeCount := freeCount + 1;
      nxtFree := if Unsigned(nxtFree) < d then nxtFree else d;
    }

    /** A cluster that was just allocated can be given back without a trace. */
    method AllocThenFree() returns (ok: bool)
      requires Valid()
      modifies `freeCount, `nxtFree, fat
      ensures ok <==> old(freeCount) >= 2
      ensures ok ==> fat[..] == old(fat[..]) && freeCount == old(freeCount) && nxtFree == old(nxtFree)
    {
      var r := AllocCluster();
      if r.None? {
        return false;
      }
      FreeCluster(r.value);
      ok := true;
    }

    /** One allocating round of fat_walk_cluster: links a fresh cluster to the end of the chain `c`. */
    method AppendCluster(cur: nat, ghost c: seq<nat>) returns (ok: bool, ghost d: seq<nat>)
      requires Valid() && IsChain(fat[..], limit, c) && c != [] && cur == c[|c| - 1]
      modifies `freeCount, `nxtFree, fat
      ensures ok <==> old(freeCount) >= 2
      ensures ok ==>
                && Valid() && freeCount == old(freeCount) - 1 && IsChain(fat[..], limit, d)
                && |d| == |c| + 1 && d[..|c|] == c && d[|c|] == old(nxtFree) && Grew(old(fat[..]), fat[..], c, d)
    {
      ghost var f := fat[..];
      d := c;
      var next := AllocCluster();
      if next.None? {
        return false, c;
      }
      AppendKeeps(f, limit, c, next.value);
      ghost var f1: seq<nat> := f[next.value := EOF];
      ZerosUpdate(f1, limit, cur, next.value);
      fat[cur] := next.value;
      d := c + [next.value];
      assert fat[..] == f1[cur := next.value];
      ok := true;
    }

    /**
     fat_walk_cluster: the k-th cluster of the file whose chain is `c`. With `alloc` the chain is extended
     as far as needed, by clusters that were free.
     */
    method WalkCluster(first: nat, k: nat, alloc: bool, ghost c: seq<nat>) returns (r: Found, ghost d: seq<nat>)
      requires Valid() && IsChain(fat[..], limit, c) && c != [] && c[0] == first
      modifies `freeCount, `nxtFree, fat
      ensures !alloc ==> fat[..] == old(fat[..]) && freeCount == old(freeCount) && Valid() && d == c
      ensures !alloc ==> r == if k < |c| then Cluster(c[k]) else NotFound
      ensures alloc ==> (r == Panic <==> |c| <= k && old(freeCount) <= k + 1 - |c|)
      ensures alloc && r != Panic ==>
                && Valid() && IsChain(fat[..], limit, d) && k < |d| && r == Cluster(d[k])
                && |d| == (if k < |c| then |c| else k + 1) && Grew(old(fat[..]), fat[..], c, d)
                && freeCount == old(freeCount) - (|d| - |c|)
    {
      var cur := first;
      d := c;
      for i: nat := 0 to k
        invariant Valid() && IsChain(fat[..], limit, d) && i < |d| && cur == d[i]
        invariant !alloc ==> fat[..] == old(fat[..]) && freeCount == old(freeCount) && d == c
        invariant |d| == (if i < |c| then |c| else i + 1) && Grew(old(fat[..]), fat[..], c, d)
        invariant freeCount == old(freeCount) - (|d| - |c|) && (|d| > |c| ==> freeCount >= 1)
      {
        EndIsLast(fat[..], limit, d, i);
        if fat[cur] == EOF {
          if !alloc {
            return NotFound, d;
          }
          ghost var mid, e := fat[..], d;
          var ok;
          ok, d := AppendCluster(cur, e);
          if !ok {
            return Panic, d;
          }
          GrewThen(old(fat[..]), mid, fat[..], limit, c, e, d);
        }
        EndIsLast(fat[..], limit, d, i);
        cur := fat[cur];
      }
      r := Cluster(cur);
    }

    /** The first loop of fat_file_truncate: the n-th link of the chain and the cluster before it, unless the chain ends. */
    method SkipClusters(first: nat, n: nat, ghost c: seq<nat>) returns (ok: bool, last: nat, rest: nat)
      requires TableOk() && IsChain(fat[..], limit, c) && c != [] && c[0] == first
      ensures ok <==> n <= |c|
      ensures ok && n > 0 ==> last == c[n - 1]
      ensures ok ==> rest == if n < |c| then c[n] else EOF
    {
      rest, last := first, first;
      for i: nat := 0 to n
        invariant i <= |c| && (i > 0 ==> last == c[i - 1])
        invariant rest == if i < |c| then c[i] else EOF
      {
        if rest >= fat.Length {
          return false, last, rest;
        }
        EndIsLast(fat[..], limit, c, i);
        last := rest;
        rest := fat[rest];
      }
      ok := true;
    }

    /** The second loop of fat_file_truncate: releases the n-th to the count-th cluster, unless the chain ends. */
    method FreeRest(start: nat, n: nat, count: nat, ghost c: seq<nat>) returns (ok: bool)
      requires TableOk() && n <= count && n <= |c| && start == (if n < |c| then c[n] else EOF)
      requires Distinct(c) && Linked(fat[..], limit, c, n)
      modifies `freeCount, `nxtFree, fat
      ensures ok <==> count <= |c|
      ensures ok ==> TableOk() && fat[..] == Released(old(fat[..]), c[n..count]) && freeCount == old(freeCount) + (count - n)
      ensures ok && old(Valid()) && old(freeCount) > 0 ==> Valid()
    {
      var cur := start;
      ghost var f := fat[..];
      assert Released(f, c[n..n]) == f;
      for i: nat := n to count
        invariant TableOk() && i <= |c| && fat[..] == Released(f, c[n..i]) && freeCount == old(freeCount) + (i - n)
        invariant cur == if i < |c| then c[i] else EOF
        invariant old(Valid()) && old(freeCount) > 0 ==> Valid() && freeCount > 0
      {
        if cur >= fat.Length {
          return false;
        }
        assert c[i] !in c[n..i];
        assert f[c[i]] == Link(c, i) && fat[c[i]] == f[c[i]];
        ReleasedStep(f, c, n, i);
        if old(Valid()) && old(freeCount) > 0 {
          FreeKeepsSummary(fat[..], limit, freeCount, nxtFree, cur);
        }
        var r := fat[cur];
        FreeCluster(cur);
        cur := r;
      }
      ok := true;
    }

    /** Writes the end mark into a cluster in use. */
    method MarkEnd(last: nat)
      requires TableOk() && 2 <= last < limit && fat[last] != 0
      modifies fat
      ensures TableOk() && fat[..] == old(fat[..])[last := EOF]
      ensures old(Valid()) ==> Valid()
    {
      ZerosUpdate(fat[..], limit, last, EOF);
      fat[last] := EOF;
      assert fat[..] == old(fat[..])[last := EOF];
    }

    /** Both loops of fat_file_truncate, with the end mark written in between. */
    method CutChain(first: nat, newN: nat, oldN: nat, ghost c: seq<nat>) returns (ok: bool)
      requires TableOk() && IsChain(fat[..], limit, c) && c != [] && first == c[0] && newN <= oldN
      modifies `freeCount, `nxtFree, fat
      ensures ok <==> oldN <= |c|
      ensures ok ==>
                && fat[..] == Truncated(old(fat[..]), c, newN, oldN) && TableOk() && IsChain(fat[..], limit, c[..newN])
                && OnlyOwn(old(fat[..]), fat[..], c) && OwnOrFree(old(fat[..]), c, c[..newN])
                && freeCount == old(freeCount) + (oldN - newN)
      ensures ok && old(Valid()) && old(freeCount) > 0 ==> Valid()
    {
      ghost var t := fat[..];
      var last, rest;
      ok, last, rest := SkipClusters(first, newN, c);
      if !ok {
        return;
      }
      if newN > 0 {
        ChainCut(t, limit, c, newN);
        InChainIsUsed(t, limit, c, last);
        MarkEnd(last);
      }
      AllDistinct(t, limit, c);
      ok := FreeRest(rest, newN, oldN, c);
      if ok {
        TruncatedKeeps(t, limit, c, newN, oldN);
      }
    }

    /**
     fat_file_truncate: keeps the first newsize / BY2CLUS + 1 clusters, or none, and releases those up to number
     FileSize / BY2CLUS + 1. It runs off the chain iff there are fewer, and loses the clusters beyond if there are more.
     */
    method Truncate(f: Entry, newsize: nat, ghost c: seq<nat>) returns (r: Outcome, ghost d: seq<nat>)
      requires TableOk() && IsChain(fat[..], limit, c) && c != [] && f.First() == c[0] && newsize <= f.size
      modifies `freeCount, `nxtFree, fat, f
      ensures r == Failed <==> old(f.size) == 0
      ensures r == Stray <==> old(f.size) > 0 && |c| < Quotient(old(f.size), clusterSize) + 1
      ensures r == Done ==>
                var n, m := Kept(newsize, clusterSize), Quotient(old(f.size), clusterSize) + 1;
                && n <= m <= |c| && d == c[..n] && fat[..] == Truncated(old(fat[..]), c, n, m)
                && TableOk() && IsChain(fat[..], limit, d)
                && OnlyOwn(old(fat[..]), fat[..], c) && OwnOrFree(old(fat[..]), c, d)
                && freeCount == old(freeCount) + (m - n) && (freeCount == old(freeCount) + |c| - |d| <==> |c| == m)
                && f.size == newsize && f.First() == (if d == [] then 0 else d[0])
                && (newsize > 0 ==> (|d| - 1) * clusterSize <= newsize < |d| * clusterSize)
      ensures r == Done && old(Valid()) && old(freeCount) > 0 ==> Valid()
    {
      var oldN := Quotient(f.size, clusterSize) + 1;
      var newN := Quotient(newsize, clusterSize) + 1;
      if f.size == 0 {
        return Failed, c;
      }
      if newsize == 0 {
        newN := 0;
      }
      QuotientMonotone(newsize, f.size, clusterSize);
      QuotientIsFloor(newsize, clusterSize);
      var ok := CutChain(f.First(), newN, oldN, c);
      if !ok {
        return Stray, c;
      }
      if newsize == 0 {
        f.SetFirst(0);
      }
      f.size := newsize;
      return Done, c[..newN];
    }

    /**
     fat_file_set_size: a smaller size truncates, a first nonzero size takes one cluster, and any other size
     is only recorded, the chain growing when its clusters are first used. A later truncation of a file whose chain
     has not grown so far runs off its end.
     */
    method SetSize(f: Entry, newsize: nat, ghost c: seq<nat>) returns (r: Outcome, ghost d: seq<nat>)
      requires Valid() && IsChain(fat[..], limit, c)
      requires f.First() == (if c == [] then 0 else c[0]) && (f.size == 0 <==> c == [])
      modifies `freeCount, `nxtFree, fat, f
      ensures r == Failed <==> old(f.size) == 0 < newsize && old(freeCount) < 2
      ensures r == Stray <==> newsize < old(f.size) && |c| < Quotient(old(f.size), clusterSize) + 1
      ensures r == Done ==>
                && TableOk() && IsChain(fat[..], limit, d) && (old(freeCount) > 0 ==> Valid() && freeCount > 0)
                && OnlyOwn(old(fat[..]), fat[..], c) && OwnOrFree(old(fat[..]), c, d)
                && f.size == newsize && f.First() == (if d == [] then 0 else d[0]) && (f.size == 0 <==> d == [])
                && freeCount == old(freeCount) - |d| + (if newsize < old(f.size) then Quotient(old(f.size), clusterSize) + 1 else |c|)
                && (newsize >= old(f.size) > 0 ==> d == c) && (newsize < old(f.size) ==> d <= c)
                && (0 < newsize < old(f.size) ==> (|d| - 1) * clusterSize <= newsize < |d| * clusterSize)
                && (old(f.size) == 0 < newsize ==> d == [old(nxtFree)])
    {
      d := c;
      if f.size > newsize {
        r, d := Truncate(f, newsize, c);
        if r != Done {
          return;
        }
      }
      if f.size == 0 && newsize > 0 {
        ghost var t := fat[..];
        var n := AllocCluster();
        if n.None? {
          return Failed, d;
        }
        f.SetFirst(n.value);
        d := [n.value];
        assert fat[..] == t[n.value := EOF];
        assert Link(d, 0) == EOF;
      }
      f.size := newsize;
      r := Done;
    }

    /** fat_total_clus: the number of links of a chain, one less than its clusters. */
    method TotalClusters(first: nat, ghost c: seq<nat>) returns (n: nat)
      requires TableOk() && IsChain(fat[..], limit, c) && c != [] && c[0] == first
      ensures n == |c| - 1
    {
      var cur := first;
      n := 0;
      EndIsLast(fat[..], limit, c, 0);
      while fat[cur] != EOF
        invariant n < |c| && cur == c[n] && (fat[cur] == EOF <==> n == |c| - 1) && (n < |c| - 1 ==> fat[cur] == c[n + 1])
        decreases |c| - n
      {
        cur := fat[cur];
        n := n + 1;
        EndIsLast(fat[..], limit, c, n);
      }
    }

    /** fClusNo2Va: the k-th cluster of the file, if there is one and it is mapped. */
    method ClusterVa(first: nat, k: nat, ghost c: seq<nat>) returns (r: Option<nat>)
      requires TableOk() && IsChain(fat[..], limit, c) && c != [] && c[0] == first
      ensures r == if k < |c| && c[k] in cached then Some(c[k]) else None
    {
      var cur := first;
      for i: nat := 0 to k
        invariant i < |c| && cur == c[i]
      {
        EndIsLast(fat[..], limit, c, i);
        if fat[cur] == EOF {
          return None;
        }
        cur := fat[cur];
      }
      r := if cur in cached then Some(cur) else None;
    }

    /** Moves the cursor past one byte, into the next cluster when this one is full; the cached stretch ends at `top`. */
    method Advance(first: nat, here: nat, k: nat, ptr: nat, ghost c: seq<nat>, ghost top: nat)
      returns (va: Option<nat>, k': nat, ptr': nat)
      requires TableOk() && IsChain(fat[..], limit, c) && c != [] && c[0] == first
      requires At(c, cached, k, ptr, clusterSize, top) && here == c[k]
      ensures Base(k', clusterSize) + ptr' == Base(k, clusterSize) + ptr + 1
      ensures if va.Some? then At(c, cached, k', ptr', clusterSize, top) && va.value == c[k'] else k' == top && ptr' == 0
    {
      va, k', ptr' := Some(here), k, ptr + 1;
      if ptr' >= clusterSize {
        k', ptr' := k + 1, 0;
        va := ClusterVa(first, k', c);
      }
    }

    /** Stores the next byte of a write in progress. */
    method StoreByte(here: nat, ptr: nat, src: seq<Byte>, m: nat, ghost k: nat, ghost c: seq<nat>, ghost was: Content, ghost offset: nat)
      requires Written(was, data, c, clusterSize, offset, src, m) && m < |src| && TableOk() && IsChain(fat[..], limit, c)
      requires k < |c| && here == c[k] && ptr < clusterSize && Base(k, clusterSize) + ptr == offset + m
      modifies `data
      ensures Written(was, data, c, clusterSize, offset, src, m + 1)
    {
      AllDistinct(fat[..], limit, c);
      WrittenStep(was, data, c, clusterSize, offset, src, m, k, ptr);
      data := data[here := data[here][ptr := src[m]]];
    }

    /** One round of the loop of fat_file_writeBack. */
    method PutByte(first: nat, here: nat, k: nat, ptr: nat, src: seq<Byte>, m: nat,
                   ghost c: seq<nat>, ghost top: nat, ghost was: Content, ghost offset: nat)
      returns (va: Option<nat>, k': nat, ptr': nat)
      requires TableOk() && IsChain(fat[..], limit, c) && c != [] && c[0] == first
      requires At(c, cached, k, ptr, clusterSize, top) && here == c[k] && offset + m == Base(k, clusterSize) + ptr
      requires Written(was, data, c, clusterSize, offset, src, m) && m < |src|
      modifies `data
      ensures Written(was, data, c, clusterSize, offset, src, m + 1)
      ensures if va.Some? then At(c, cached, k', ptr', clusterSize, top) && va.value == c[k']
                               && offset + m + 1 == Base(k', clusterSize) + ptr'
              else offset + m + 1 == Base(top, clusterSize)
    {
      StoreByte(here, ptr, src, m, k, c, was, offset);
      va, k', ptr' := Advance(first, here, k, ptr, c, top);
    }

    /** The loop of fat_file_writeBack. */
    method WriteFrom(first: nat, start: nat, k0: nat, ptr0: nat, src: seq<Byte>, ghost c: seq<nat>, ghost top: nat)
      returns (ok: bool, ghost m: nat)
      requires TableOk() && IsChain(fat[..], limit, c) && c != [] && c[0] == first && Filled(data, c, clusterSize)
      requires At(c, cached, k0, ptr0, clusterSize, top) && start == c[k0]
      modifies `data
      ensures Written(old(data), data, c, clusterSize, Base(k0, clusterSize) + ptr0, src, m)
      ensures if ok then m == |src| && Base(k0, clusterSize) + ptr0 + m < Base(top, clusterSize)
              else 0 < m <= |src| && Base(k0, clusterSize) + ptr0 + m == Base(top, clusterSize)
    {
      var k: nat, ptr: nat, va := k0, ptr0, Some(start);
      ghost var offset := Base(k0, clusterSize) + ptr0;
      WrittenNothing(data, c, clusterSize, offset, src);
      for i: nat := 0 to |src|
        invariant At(c, cached, k, ptr, clusterSize, top) && va == Some(c[k]) && offset + i == Base(k, clusterSize) + ptr
        invariant Written(old(data), data, c, clusterSize, offset, src, i)
      {
        va, k, ptr := PutByte(first, va.value, k, ptr, src, i, c, top, old(data), offset);
        if va.None? {
          return false, i + 1;
        }
      }
      BelowEnd(c, cached, k, ptr, clusterSize, top);
      return true, |src|;
    }

    /**
     fat_file_writeBack. Let `cap` be the end of the cached stretch that starts at the cluster of `offset`: the
     bytes of `src` that fit below `cap` replace the bytes of the file from `offset` on, and nothing else changes.
     It returns success iff the write ends strictly below `cap`; a write that just fills the stretch is done
     completely and still reported as an error.
     */
    method WriteBack(first: nat, offset: nat, src: seq<Byte>, ghost c: seq<nat>) returns (ok: bool)
      requires TableOk() && IsChain(fat[..], limit, c) && c != [] && c[0] == first && Filled(data, c, clusterSize)
      modifies `data
      ensures var k := Quotient(offset, clusterSize);
              var cap := Reach(c, cached, k) * clusterSize;
              && k * clusterSize <= offset < (k + 1) * clusterSize
              && Written(old(data), data, c, clusterSize, offset, src, Fitting(offset, |src|, cap))
              && (ok <==> offset + |src| < cap)
    {
      var k, ptr := Quotient(offset, clusterSize), Remainder(offset, clusterSize);
      QuotientBase(offset, clusterSize);
      QuotientIsFloor(offset, clusterSize);
      BaseIsProduct(Reach(c, cached, k), clusterSize);
      var va := ClusterVa(first, k, c);
      if va.None? {
        WrittenNothing(data, c, clusterSize, offset, src);
        return false;
      }
      var done, m := WriteFrom(first, va.value, k, ptr, src, c, Reach(c, cached, k));
      FittingIs(offset, |src|, m, Base(Reach(c, cached, k), clusterSize));
      ok := done;
    }

    /** fat_file_get_cluster: the k-th stretch of the flat content of the file, whose chain is extended to reach it. */
    method GetCluster(first: nat, k: nat, ghost c: seq<nat>) returns (r: Option<seq<Byte>>, ghost d: seq<nat>)
      requires Valid() && IsChain(fat[..], limit, c) && c != [] && c[0] == first
      requires forall x :: 2 <= x < limit ==> x in data && |data[x]| == clusterSize
      modifies `freeCount, `nxtFree, fat
      ensures r == None <==> |c| <= k && old(freeCount) <= k + 1 - |c|
      ensures r.Some? ==>
                && Valid() && IsChain(fat[..], limit, d) && Grew(old(fat[..]), fat[..], c, d) && k < |d|
                && Filled(data, d, clusterSize) && Base(k, clusterSize) <= Base(k + 1, clusterSize) <= |Flat(data, d)|
                && r.value == Flat(data, d)[Base(k, clusterSize)..Base(k + 1, clusterSize)]
    {
      var w;
      w, d := WalkCluster(first, k, true, c);
      if w == Panic {
        return None, d;
      }
      FlatSlice(data, d, clusterSize, k);
      r := Some(data[w.n]);
    }
  }
}
