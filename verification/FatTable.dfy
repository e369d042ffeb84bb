/**
 The file allocation table as a value: counting free clusters, the FSInfo summary, and
 cluster chains with what one update of the table does to them.
 */
module FatTable {
  import opened Common

  /** EOF_Fat32, the only end mark the driver writes or tests for. */
  const EOF: nat := 0x0fff_ffff

  /** The number of free entries below `n`. */
  ghost function Zeros(f: seq<nat>, n: nat): (c: nat)
    requires n <= |f|
  {
    if n == 0 then 0 else (if f[n - 1] == 0 then 1 else 0) + Zeros(f, n - 1)
  }

  lemma {:induction false} ZerosUpdate(f: seq<nat>, n: nat, i: nat, v: nat)
    requires n <= |f| && i < |f|
    ensures Zeros(f[i := v], n) == Zeros(f, n) + (if i < n then (if v == 0 then 1 else 0) - (if f[i] == 0 then 1 else 0) else 0)
  {
    if n > 0 {
      ZerosUpdate(f, n - 1, i, v);
    }
  }

  lemma {:induction false} ZerosNone(f: seq<nat>, m: nat, n: nat)
    requires m <= n <= |f| && forall i :: m <= i < n ==> f[i] != 0
    ensures Zeros(f, n) == Zeros(f, m)
  {
    if m < n {
      ZerosNone(f, m, n - 1);
    }
  }

  lemma {:induction false} ZerosSome(f: seq<nat>, n: nat, i: nat)
    requires i < n <= |f| && f[i] == 0
    ensures Zeros(f, n) >= 1
  {
    if i < n - 1 {
      ZerosSome(f, n - 1, i);
    }
  }

  /** FSI_FreeCount is the number of free clusters, and FSI_NxtFree the smallest if there is one. */
  ghost predicate Summary(f: seq<nat>, limit: nat, freeCount: int, nxtFree: int) {
    && limit <= |f| && freeCount == Zeros(f, limit)
    && (freeCount > 0 ==> IsSmallestFree(f, limit, nxtFree))
  }

  ghost predicate IsSmallestFree(f: seq<nat>, limit: nat, n: int)
    requires limit <= |f|
  {
    0 <= n < limit && f[n] == 0 && forall i :: 0 <= i < n ==> f[i] != 0
  }

  /** A 32-bit int in a comparison with an unsigned one. */
  function Unsigned(x: int): (n: nat) {
    x % 0x1_0000_0000
  }

  /** FSI_NxtFree after the release of cluster `d`. */
  function Lowered(nxtFree: int, d: nat): (n: int) {
    if Unsigned(nxtFree) < d then nxtFree else d
  }

  /** It becomes the smaller of the two, a negative number counting as large. */
  lemma LoweredIs(nxtFree: int, d: nat)
    requires -0x8000_0000 <= nxtFree < 0x8000_0000 && d < 0x8000_0000
    ensures Lowered(nxtFree, d) == if 0 <= nxtFree < d then nxtFree else d
  {
  }

  /** Releasing an in-use cluster keeps the summary, unless the disk was full and NxtFree lies below it. */
  lemma FreeKeepsSummary(f: seq<nat>, limit: nat, freeCount: int, nxtFree: int, d: nat)
    requires Summary(f, limit, freeCount, nxtFree) && d < limit <= EOF && f[d] != 0
    ensures Summary(f[d := 0], limit, freeCount + 1, Lowered(nxtFree, d)) <==> freeCount > 0 || Unsigned(nxtFree) >= d
  {
    ZerosUpdate(f, limit, d, 0);
    if freeCount == 0 {
      forall i | 0 <= i < limit ensures f[i] != 0 {
        if f[i] == 0 {
          ZerosSome(f, limit, i);
        }
      }
    }
  }

  // Chains.

  /** `c` is a chain of in-range clusters, each entry naming the next and the last the end mark. */
  ghost predicate IsChain(f: seq<nat>, limit: nat, c: seq<nat>) {
    Linked(f, limit, c, 0)
  }

  /** The same from the n-th cluster on. */
  ghost predicate Linked(f: seq<nat>, limit: nat, c: seq<nat>, n: nat) {
    && (forall i :: n <= i < |c| ==> 2 <= c[i] < limit && c[i] < |f|)
    && (forall i {:trigger Link(c, i)} :: n <= i < |c| ==> f[c[i]] == Link(c, i))
  }

  ghost function Link(c: seq<nat>, i: nat): (n: nat)
    requires i < |c|
  {
    if i + 1 < |c| then c[i + 1] else EOF
  }

  /** A chain cannot meet itself: it ends, so it has no cycle. */
  lemma {:induction false} ChainIsAcyclic(f: seq<nat>, limit: nat, c: seq<nat>, i: nat, j: nat)
    requires IsChain(f, limit, c) && limit <= EOF && i < j < |c|
    ensures c[i] != c[j]
    decreases |c| - j
  {
    if c[i] == c[j] {
      assert Link(c, i) == f[c[i]] == f[c[j]] == Link(c, j);
      if j + 1 < |c| {
        ChainIsAcyclic(f, limit, c, i + 1, j + 1);
      }
    }
  }

  lemma AllDistinct(f: seq<nat>, limit: nat, c: seq<nat>)
    requires IsChain(f, limit, c) && limit <= EOF
    ensures Distinct(c)
  {
    forall i, j | 0 <= i < j < |c| ensures c[i] != c[j] {
      ChainIsAcyclic(f, limit, c, i, j);
    }
  }

  /** Changing an entry outside a chain does not disturb it. */
  lemma ChainFrame(f: seq<nat>, limit: nat, c: seq<nat>, i: nat, v: nat)
    requires IsChain(f, limit, c) && i < |f| && i !in c
    ensures IsChain(f[i := v], limit, c)
  {
    forall k | 0 <= k < |c| ensures f[i := v][c[k]] == Link(c, k) {
      assert c[k] in c;
    }
  }

  /** Hanging a fresh end cluster on the last cluster of a chain extends the chain by it. */
  lemma ChainExtend(f: seq<nat>, limit: nat, c: seq<nat>, x: nat)
    requires IsChain(f, limit, c) && c != [] && limit <= EOF && 2 <= x < limit && x < |f| && x !in c && f[x] == EOF
    ensures IsChain(f[c[|c| - 1] := x], limit, c + [x])
  {
    var d, g := c + [x], f[c[|c| - 1] := x];
    forall i | 0 <= i < |d| ensures g[d[i]] == Link(d, i) {
      if i < |c| - 1 {
        ChainIsAcyclic(f, limit, c, i, |c| - 1);
        assert f[c[i]] == Link(c, i);
      }
    }
  }

  /** Writing the end mark into the n-th cluster cuts the chain after it. */
  lemma ChainCut(f: seq<nat>, limit: nat, c: seq<nat>, n: nat)
    requires IsChain(f, limit, c) && limit <= EOF && 0 < n <= |c|
    ensures IsChain(f[c[n - 1] := EOF], limit, c[..n])
    ensures Linked(f[c[n - 1] := EOF], limit, c, n)
  {
    var d, g := c[..n], f[c[n - 1] := EOF];
    forall i | 0 <= i < |c| && i != n - 1 ensures g[c[i]] == Link(c, i) {
      if i < n - 1 {
        ChainIsAcyclic(f, limit, c, i, n - 1);
      } else {
        ChainIsAcyclic(f, limit, c, n - 1, i);
      }
      assert f[c[i]] == Link(c, i);
    }
    forall i | 0 <= i < |d| ensures g[d[i]] == Link(d, i) {
      assert i != n - 1 ==> Link(d, i) == Link(c, i);
    }
  }

  /** The end mark is found at the last cluster of a chain and nowhere else. */
  lemma EndIsLast(f: seq<nat>, limit: nat, c: seq<nat>, i: nat)
    requires IsChain(f, limit, c) && limit <= EOF && i < |c|
    ensures f[c[i]] == EOF <==> i == |c| - 1
    ensures f[c[i]] != EOF ==> f[c[i]] == c[i + 1]
  {
    assert f[c[i]] == Link(c, i);
  }

  /** From `f` to `g` no cluster in use changed, except those of `c`. */
  ghost predicate OnlyOwn(f: seq<nat>, g: seq<nat>, c: seq<nat>) {
    |f| == |g| && forall x :: 0 <= x < |f| && f[x] != 0 && x !in c ==> g[x] == f[x]
  }

  /** From chain `c` to chain `d`, clusters were only dropped or taken from the free ones of `f`. */
  ghost predicate OwnOrFree(f: seq<nat>, c: seq<nat>, d: seq<nat>) {
    forall x :: x in d ==> x in c || (x < |f| && f[x] == 0)
  }

  /** Chain `c` of table `f` grew to chain `d` of table `g`: the old clusters, then clusters that were free. */
  ghost predicate Grew(f: seq<nat>, g: seq<nat>, c: seq<nat>, d: seq<nat>) {
    && c <= d && OnlyOwn(f, g, c) && (forall i :: |c| <= i < |d| ==> d[i] < |f| && f[d[i]] == 0)
    && forall x :: 0 <= x < |f| && f[x] == 0 && x !in d ==> g[x] == 0
  }

  /** Taking the free cluster `x` and linking it to the end of a chain. */
  lemma AppendKeeps(f: seq<nat>, limit: nat, c: seq<nat>, x: nat)
    requires IsChain(f, limit, c) && c != [] && limit <= EOF && 2 <= x < limit && x < |f| && f[x] == 0
    ensures c[|c| - 1] < |f| && f[x := EOF][c[|c| - 1]] == EOF
    ensures var g := f[x := EOF][c[|c| - 1] := x];
            IsChain(g, limit, c + [x]) && Grew(f, g, c, c + [x])
  {
    forall i | 0 <= i < |c| ensures c[i] != x {
      assert f[c[i]] == Link(c, i);
    }
    ChainFrame(f, limit, c, x, EOF);
    ChainExtend(f[x := EOF], limit, c, x);
    assert f[c[|c| - 1]] == Link(c, |c| - 1) == EOF;
    assert c[|c| - 1] in c;
  }

  lemma GrewThen(f: seq<nat>, g: seq<nat>, h: seq<nat>, limit: nat, c: seq<nat>, d: seq<nat>, e: seq<nat>)
    requires Grew(f, g, c, d) && IsChain(g, limit, d) && Grew(g, h, d, e)
    ensures Grew(f, h, c, e)
  {
    forall x | x in d ensures x < |g| && g[x] != 0 {
      InChainIsUsed(g, limit, d, x);
    }
    assert forall x :: x in c ==> x in d;
    forall i | |c| <= i < |e| ensures e[i] < |f| && f[e[i]] == 0 {
      assert i < |d| ==> e[i] == d[i];
    }
  }

  /** The table with the clusters of `c` released. */
  ghost function Released(f: seq<nat>, c: seq<nat>): (g: seq<nat>)
    ensures |g| == |f|
    ensures forall i :: 0 <= i < |f| ==> g[i] == if i in c then 0 else f[i]
  {
    seq(|f|, i requires 0 <= i < |f| => if i in c then 0 else f[i])
  }

  lemma ReleasedStep(f: seq<nat>, c: seq<nat>, n: nat, i: nat)
    requires n <= i < |c| && c[i] < |f|
    ensures Released(f, c[n..i + 1]) == Released(f, c[n..i])[c[i] := 0]
  {
    assert c[n..i + 1] == c[n..i] + [c[i]];
  }

  /** The table after a chain was cut to its first `n` clusters and those up to the m-th were released. */
  ghost function Truncated(f: seq<nat>, c: seq<nat>, n: nat, m: nat): (g: seq<nat>)
    requires n <= m <= |c| && (n > 0 ==> c[n - 1] < |f|)
  {
    Released(if n > 0 then f[c[n - 1] := EOF] else f, c[n..m])
  }

  /** Truncation keeps the first `n` clusters as a chain and touches no other file. */
  lemma TruncatedKeeps(f: seq<nat>, limit: nat, c: seq<nat>, n: nat, m: nat)
    requires IsChain(f, limit, c) && limit <= EOF && n <= m <= |c|
    ensures IsChain(Truncated(f, c, n, m), limit, c[..n])
    ensures OnlyOwn(f, Truncated(f, c, n, m), c) && OwnOrFree(f, c, c[..n])
    ensures forall i :: n <= i < m ==> Truncated(f, c, n, m)[c[i]] == 0
    ensures forall x :: 0 <= x < |f| && x !in c ==> Truncated(f, c, n, m)[x] == f[x]
  {
    if n > 0 {
      assert c[n - 1] in c;
      ChainCut(f, limit, c, n);
      var g := f[c[n - 1] := EOF];
      forall i | 0 <= i < n ensures c[i] !in c[n..m] {
        forall j | n <= j < m ensures c[i] != c[j] {
          ChainIsAcyclic(f, limit, c, i, j);
        }
      }
      forall i | 0 <= i < n ensures Truncated(f, c, n, m)[c[..n][i]] == Link(c[..n], i) {
        assert g[c[..n][i]] == Link(c[..n], i);
      }
    }
    assert forall x :: x in c[n..m] ==> x in c;
    forall i | n <= i < m ensures Truncated(f, c, n, m)[c[i]] == 0 {
      assert c[n..m][i - n] == c[i];
    }
  }

  // Many files.

  type Chains = map<nat, seq<nat>>

  /** Every file has an intact chain, and no two files share a cluster. */
  ghost predicate FilesOk(f: seq<nat>, limit: nat, chains: Chains) {
    && (forall a :: a in chains ==> IsChain(f, limit, chains[a]))
    && (forall a, b, x :: a in chains && b in chains && a != b && x in chains[a] ==> x !in chains[b])
  }

  /** A cluster of a chain is in use. */
  lemma InChainIsUsed(f: seq<nat>, limit: nat, c: seq<nat>, x: nat)
    requires IsChain(f, limit, c) && x in c
    ensures x < |f| && f[x] != 0
  {
    var i :| 0 <= i < |c| && c[i] == x;
    assert f[c[i]] == Link(c, i);
  }

  /** An operation on one file that touches only its own and free clusters keeps the other files. */
  lemma FilesKept(f: seq<nat>, g: seq<nat>, limit: nat, chains: Chains, id: nat, d: seq<nat>)
    requires FilesOk(f, limit, chains) && id in chains && IsChain(g, limit, d)
    requires OnlyOwn(f, g, chains[id]) && OwnOrFree(f, chains[id], d)
    ensures FilesOk(g, limit, chains[id := d])
  {
    var chains' := chains[id := d];
    forall a, x | a in chains && a != id && x in chains[a] ensures g[x] == f[x] != 0 && x !in d {
      InChainIsUsed(f, limit, chains[a], x);
    }
    forall a | a in chains && a != id ensures IsChain(g, limit, chains[a]) {
      forall i | 0 <= i < |chains[a]| ensures g[chains[a][i]] == Link(chains[a], i) {
        assert chains[a][i] in chains[a] && f[chains[a][i]] == Link(chains[a], i);
      }
    }
  }
}
