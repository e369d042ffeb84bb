/**
 The block bitmap and the block pointers of the native file system (fs/fs.c). A bit is set for a free block; the
 words of the bitmap are proved to represent a set of block numbers.
 */
module Blocks {
  import opened Common

  const NDIRECT := 10
  const NINDIRECT := 1024
  const BY2BLK := 4096

  type Word = bv32

  function Mask(k: nat): (w: Word)
    requires k < 32
  {
    (1 as bv32) << k
  }

  /** Bit k of a word of the bitmap is the one of value 2^k. */
  lemma MaskDoubles(k: nat)
    requires k < 31
    ensures Mask(0) == 1 && Mask(k + 1) == 2 * Mask(k)
  {
  }

  predicate Test(w: Word, k: nat)
    requires k < 32
  {
    w & Mask(k) != 0
  }

  function WordSet(w: Word, k: nat): (r: Word)
    requires k < 32
  {
    w | Mask(k)
  }

  function WordClear(w: Word, k: nat): (r: Word)
    requires k < 32
  {
    w & !Mask(k)
  }

  lemma MasksApart(j: nat, k: nat)
    requires j < 32 && k < 32
    ensures Mask(j) & Mask(k) != 0 <==> j == k
  {
  }

  lemma OrSame(w: Word, m: Word)
    ensures (w | m) & m == m
  {
  }

  lemma OrOther(w: Word, m: Word, n: Word)
    requires m & n == 0
    ensures (w | m) & n == w & n
  {
  }

  lemma AndNotSame(w: Word, m: Word)
    ensures (w & !m) & m == 0
  {
  }

  lemma AndNotOther(w: Word, m: Word, n: Word)
    requires m & n == 0
    ensures (w & !m) & n == w & n
  {
  }

  lemma TestSet(w: Word, j: nat, k: nat)
    requires j < 32 && k < 32
    ensures Test(WordSet(w, k), j) <==> j == k || Test(w, j)
  {
    var m, n := Mask(k), Mask(j);
    MasksApart(k, j);
    if j == k {
      OrSame(w, m);
    } else {
      OrOther(w, m, n);
    }
  }

  lemma TestClear(w: Word, j: nat, k: nat)
    requires j < 32 && k < 32
    ensures Test(WordClear(w, k), j) <==> j != k && Test(w, j)
  {
    var m, n := Mask(k), Mask(j);
    MasksApart(k, j);
    if j == k {
      AndNotSame(w, m);
    } else {
      AndNotOther(w, m, n);
    }
  }

  predicate Bit(words: seq<Word>, b: nat)
    requires b / 32 < |words|
  {
    Test(words[b / 32], b % 32)
  }

  /** The words with the bit of block `b` set. */
  function SetBit(words: seq<Word>, b: nat): (r: seq<Word>)
    requires b / 32 < |words|
  {
    words[b / 32 := WordSet(words[b / 32], b % 32)]
  }

  /** The words with the bit of block `b` cleared. */
  function ClearBit(words: seq<Word>, b: nat): (r: seq<Word>)
    requires b / 32 < |words|
  {
    words[b / 32 := WordClear(words[b / 32], b % 32)]
  }

  lemma BitAfterSet(words: seq<Word>, b: nat, c: nat)
    requires b / 32 < |words| && c / 32 < |words|
    ensures Bit(SetBit(words, b), c) <==> c == b || Bit(words, c)
  {
    TestSet(words[b / 32], c % 32, b % 32);
  }

  lemma BitAfterClear(words: seq<Word>, b: nat, c: nat)
    requires b / 32 < |words| && c / 32 < |words|
    ensures Bit(ClearBit(words, b), c) <==> c != b && Bit(words, c)
  {
    TestClear(words[b / 32], c % 32, b % 32);
  }

  /** The free blocks that the words record. */
  ghost function FreeSet(words: seq<Word>): (f: set<nat>) {
    set b: nat | b < 32 * |words| && Bit(words, b)
  }

  lemma SetIsInsert(words: seq<Word>, b: nat)
    requires b / 32 < |words|
    ensures FreeSet(SetBit(words, b)) == FreeSet(words) + {b}
  {
    forall c: nat | c < 32 * |words| ensures Bit(SetBit(words, b), c) <==> c == b || Bit(words, c) {
      BitAfterSet(words, b, c);
    }
  }

  lemma ClearIsDelete(words: seq<Word>, b: nat)
    requires b / 32 < |words|
    ensures FreeSet(ClearBit(words, b)) == FreeSet(words) - {b}
  {
    forall c: nat | c < 32 * |words| ensures Bit(ClearBit(words, b), c) <==> c != b && Bit(words, c) {
      BitAfterClear(words, b, c);
    }
  }

  /** The block pointers of a file: ten direct ones, then those in its indirect block, each at its own index. */
  ghost function PointersOf(direct: seq<nat>, indirect: nat, blocks: map<nat, seq<nat>>): (p: seq<nat>)
    requires |direct| == NDIRECT
    requires indirect != 0 ==> indirect in blocks && |blocks[indirect]| == NINDIRECT
    ensures |p| == NINDIRECT
  {
    direct + if indirect == 0 then seq(NINDIRECT - NDIRECT, _ => 0) else blocks[indirect][NDIRECT..]
  }

  /** The blocks that the pointers lo, ..., hi - 1 name. */
  ghost function Named(p: seq<nat>, lo: nat, hi: nat): (s: set<nat>)
    requires hi <= |p|
  {
    set k | lo <= k < hi && p[k] != 0 :: p[k]
  }

  lemma NamedStep(p: seq<nat>, lo: nat, k: nat)
    requires |p| == NINDIRECT && lo <= k
    ensures Named(p, lo, Least(k + 1, NINDIRECT))
         == Named(p, lo, Least(k, NINDIRECT)) + if k < NINDIRECT && p[k] != 0 then {p[k]} else {}
  {
  }

  /** How many of the pointers lo, ..., hi - 1 name a block. */
  function Count(p: seq<nat>, lo: nat, hi: nat): (n: nat)
    requires lo <= hi <= |p|
  {
    if lo == hi then 0 else Count(p, lo, hi - 1) + if p[hi - 1] != 0 then 1 else 0
  }

  /** The number of blocks that file_truncate takes a file of `size` bytes to have, and how many it keeps. */
  function BlocksOf(size: nat): (n: nat) {
    size / BY2BLK + 1
  }

  function Kept(newsize: nat): (n: nat) {
    if newsize == 0 then 0 else BlocksOf(newsize)
  }

  function Least(a: nat, b: nat): (m: nat) {
    if a < b then a else b
  }

  class File {
    const direct: array<nat>
    var indirect: nat
    var size: nat
  }

  class Disk {
    const nblocks: nat
    const bitmap: array<Word>
    /** The blocks that hold pointers. */
    var blocks: map<nat, seq<nat>>

    ghost predicate Sized()
      reads this
    {
      nblocks <= 32 * bitmap.Length
    }

    /** block_is_free */
    method BlockIsFree(b: nat) returns (r: bool)
      requires Sized()
      ensures r <==> b < nblocks && b in FreeSet(bitmap[..])
    {
      if b >= nblocks {
        return false;
      }
      r := Bit(bitmap[..], b);
    }

    method SetInPlace(b: nat)
      requires b / 32 < bitmap.Length
      modifies bitmap
      ensures bitmap[..] == SetBit(old(bitmap[..]), b)
    {
      bitmap[b / 32] := WordSet(bitmap[b / 32], b % 32);
    }

    method ClearInPlace(b: nat)
      requires b / 32 < bitmap.Length
      modifies bitmap
      ensures bitmap[..] == ClearBit(old(bitmap[..]), b)
    {
      bitmap[b / 32] := WordClear(bitmap[b / 32], b % 32);
    }

    /** free_block */
    method FreeBlock(b: nat)
      requires Sized()
      modifies bitmap
      ensures FreeSet(bitmap[..]) == old(FreeSet(bitmap[..])) + if 0 < b < nblocks then {b} else {}
    {
      if b == 0 || b >= nblocks {
        return;
      }
      SetIsInsert(bitmap[..], b);
      SetInPlace(b);
    }

    /** alloc_block_num: takes the smallest free block from 3 on, if there is one. */
    method AllocBlock() returns (r: Option<nat>)
      requires Sized()
      modifies bitmap
      ensures r.None? ==> bitmap[..] == old(bitmap[..]) && forall b: nat :: 3 <= b < nblocks ==> b !in FreeSet(bitmap[..])
      ensures r.Some? ==>
                && 3 <= r.value < nblocks && r.value in old(FreeSet(bitmap[..]))
                && (forall b: nat :: 3 <= b < r.value ==> b !in old(FreeSet(bitmap[..])))
                && FreeSet(bitmap[..]) == old(FreeSet(bitmap[..])) - {r.value}
    {
      var b: nat := 3;
      while b < nblocks
        invariant bitmap[..] == old(bitmap[..]) && forall c: nat :: 3 <= c < b ==> c !in FreeSet(bitmap[..])
      {
        if Bit(bitmap[..], b) {
          ClearIsDelete(bitmap[..], b);
          ClearInPlace(b);
          return Some(b);
        }
        b := b + 1;
      }
      r := None;
    }

    /** The file has its pointer block, if any, in memory. */
    ghost predicate Loaded(f: File)
      reads this, f
    {
      && f.direct.Length == NDIRECT && f.direct as object != bitmap as object
      && (f.indirect != 0 ==> f.indirect in blocks && |blocks[f.indirect]| == NINDIRECT)
    }

    ghost function Pointers(f: File): (p: seq<nat>)
      requires Loaded(f)
      reads this, f, f.direct
      ensures |p| == NINDIRECT
    {
      PointersOf(f.direct[..], f.indirect, blocks)
    }

    /** No block but `b`, the indirect block of the file at hand, was written. */
    ghost predicate OthersKept(was: map<nat, seq<nat>>, b: nat)
      reads this
    {
      forall x :: x in was && x != b ==> x in blocks && blocks[x] == was[x]
    }

    /** file_clear_block, with file_block_walk: the block leaves the file and becomes free. */
    method ClearBlock(f: File, k: nat)
      requires Sized() && Loaded(f)
      modifies bitmap, `blocks, f.direct
      ensures Loaded(f) && OthersKept(old(blocks), f.indirect)
      ensures Pointers(f) == if k < NINDIRECT then old(Pointers(f))[k := 0] else old(Pointers(f))
      ensures FreeSet(bitmap[..]) == old(FreeSet(bitmap[..])) +
                if k < NINDIRECT && 0 < old(Pointers(f))[k] < nblocks then {old(Pointers(f))[k]} else {}
    {
      ghost var p := Pointers(f);
      if k < NDIRECT {
        assert p[k] == f.direct[k];
        if f.direct[k] != 0 {
          FreeBlock(f.direct[k]);
          f.direct[k] := 0;
        }
        assert Pointers(f) == p[k := 0];
      } else if k < NINDIRECT && f.indirect != 0 {
        assert p[k] == blocks[f.indirect][k];
        if blocks[f.indirect][k] != 0 {
          FreeBlock(blocks[f.indirect][k]);
          blocks := blocks[f.indirect := blocks[f.indirect][k := 0]];
        }
        assert Pointers(f) == p[k := 0];
      } else {
        assert k < NINDIRECT ==> p[k] == 0 && p == p[k := 0];
      }
    }

    /** The loops of file_truncate. */
    method ClearBlocks(f: File, lo: nat, hi: nat)
      requires Sized() && Loaded(f) && forall k :: 0 <= k < NINDIRECT ==> Pointers(f)[k] < nblocks
      modifies bitmap, `blocks, f.direct
      ensures Loaded(f) && OthersKept(old(blocks), f.indirect)
      ensures forall k :: 0 <= k < NINDIRECT ==> Pointers(f)[k] == if lo <= k < hi then 0 else old(Pointers(f))[k]
      ensures FreeSet(bitmap[..]) == old(FreeSet(bitmap[..])) + Named(old(Pointers(f)), lo, Least(hi, NINDIRECT))
    {
      var k := lo;
      ghost var p := Pointers(f);
      while k < hi
        invariant lo <= k && (k == lo || k <= hi) && Loaded(f) && OthersKept(old(blocks), f.indirect)
        invariant forall i :: 0 <= i < NINDIRECT ==> Pointers(f)[i] == if lo <= i < k then 0 else p[i]
        invariant FreeSet(bitmap[..]) == old(FreeSet(bitmap[..])) + Named(p, lo, Least(k, NINDIRECT))
      {
        NamedStep(p, lo, k);
        ClearBlock(f, k);
        k := k + 1;
      }
    }

    /** file_truncate, pointer by pointer. */
    method CutFile(f: File, newsize: nat)
      requires Sized() && Loaded(f) && f.indirect < nblocks
      requires forall k :: 0 <= k < NINDIRECT ==> Pointers(f)[k] < nblocks && (k * 4096 > f.size ==> Pointers(f)[k] == 0)
      modifies bitmap, `blocks, f.direct, f
      ensures Loaded(f) && f.size == newsize && OthersKept(old(blocks), old(f.indirect))
      ensures forall k :: 0 <= k < NINDIRECT ==> Pointers(f)[k] == if k < Kept(newsize) then old(Pointers(f))[k] else 0
      ensures f.indirect == if Kept(newsize) <= NDIRECT then 0 else old(f.indirect)
      ensures FreeSet(bitmap[..]) == old(FreeSet(bitmap[..])) + Dropped(old(Pointers(f)), old(f.indirect), Kept(newsize))
    {
      ghost var p := Pointers(f);
      var old_n, new_n := BlocksOf(f.size), BlocksOf(newsize);
      if newsize == 0 {
        new_n := 0;
      }
      ClearBlocks(f, new_n, old_n);
      assert Named(p, new_n, Least(old_n, NINDIRECT)) == Named(p, new_n, NINDIRECT);
      ghost var q := Pointers(f);
      if new_n <= NDIRECT && f.indirect != 0 {
        FreeBlock(f.indirect);
        f.indirect := 0;
      }
      f.size := newsize;
      forall k | 0 <= k < NINDIRECT ensures Pointers(f)[k] == if k < Kept(newsize) then p[k] else 0 {
        assert q[k] == if new_n <= k < old_n then 0 else p[k];
        assert k < NDIRECT ==> Pointers(f)[k] == f.direct[k] == q[k];
      }
    }

    /**
     file_truncate, of a file whose pointers lie within its size and on the disk: exactly the dropped blocks
     become free, with the indirect block when the direct pointers suffice, and no kept pointer changes. For a file
     that owns its blocks, the number of free blocks grows by the number dropped, and it owns those it keeps.
     */
    method Truncate(f: File, newsize: nat)
      requires Sized() && Loaded(f) && f.indirect < nblocks
      requires forall k :: 0 <= k < NINDIRECT ==> Pointers(f)[k] < nblocks && (k * 4096 > f.size ==> Pointers(f)[k] == 0)
      modifies bitmap, `blocks, f.direct, f
      ensures Loaded(f) && f.size == newsize && OthersKept(old(blocks), old(f.indirect))
      ensures forall k :: 0 <= k < NINDIRECT ==>
                Pointers(f)[k] == if newsize > 0 && k * 4096 <= newsize then old(Pointers(f))[k] else 0
      ensures f.indirect == if newsize < 40960 then 0 else old(f.indirect)
      ensures FreeSet(bitmap[..]) == old(FreeSet(bitmap[..])) + Freed(old(Pointers(f)), old(f.indirect), newsize)
      ensures old(Owns(Pointers(f), f.indirect, FreeSet(bitmap[..]))) ==>
                && Owns(Pointers(f), f.indirect, FreeSet(bitmap[..]))
                && |FreeSet(bitmap[..])| == |old(FreeSet(bitmap[..]))| + Count(old(Pointers(f)), 0, NINDIRECT)
                                            - Count(Pointers(f), 0, NINDIRECT)
                                            + if newsize < 40960 && old(f.indirect) != 0 then 1 else 0
    {
      ghost var p, ind, free, n := Pointers(f), f.indirect, FreeSet(bitmap[..]), Least(Kept(newsize), NINDIRECT);
      CutFile(f, newsize);
      assert Pointers(f) == Cut(p, n);
      KeptIsCovered(newsize);
      FreedIsDropped(p, ind, newsize);
      if Owns(p, ind, free) {
        TruncationConserves(p, ind, free, n);
        CountCut(p, n);
      }
    }
  }

  /** The blocks that a file with pointers `p` gives up when it keeps `n` of them. */
  ghost function Dropped(p: seq<nat>, indirect: nat, n: nat): (s: set<nat>) {
    Named(p, n, |p|) + if n <= NDIRECT && indirect != 0 then {indirect} else {}
  }

  /** The blocks beyond `newsize` bytes, and the indirect block if ten blocks suffice. */
  ghost function Freed(p: seq<nat>, indirect: nat, newsize: nat): (s: set<nat>) {
    (set k | 0 <= k < |p| && (newsize == 0 || k * 4096 > newsize) && p[k] != 0 :: p[k])
    + if newsize < 40960 && indirect != 0 then {indirect} else {}
  }

  /** The blocks kept are those whose first byte lies within the new size, or just at its end. */
  lemma KeptIsCovered(newsize: nat)
    ensures forall k: nat :: k < Kept(newsize) <==> newsize > 0 && k * 4096 <= newsize
    ensures Kept(newsize) <= NDIRECT <==> newsize < 40960
  {
    forall k: nat ensures k < Kept(newsize) <==> newsize > 0 && k * 4096 <= newsize {
      assert newsize == 4096 * (newsize / 4096) + newsize % 4096;
    }
  }

  lemma FreedIsDropped(p: seq<nat>, indirect: nat, newsize: nat)
    requires |p| == NINDIRECT
    ensures Dropped(p, indirect, Kept(newsize)) == Freed(p, indirect, newsize) == Dropped(p, indirect, Least(Kept(newsize), NINDIRECT))
  {
    KeptIsCovered(newsize);
  }

  lemma {:induction false} CountSplits(p: seq<nat>, n: nat, hi: nat)
    requires n <= hi <= |p|
    ensures Count(p, 0, hi) == Count(p, 0, n) + Count(p, n, hi)
  {
    if n < hi {
      CountSplits(p, n, hi - 1);
    }
  }

  lemma {:induction false} CountCutUpTo(p: seq<nat>, n: nat, hi: nat)
    requires n <= |p| && hi <= |p|
    ensures Count(Cut(p, n), 0, hi) == Count(p, 0, if hi < n then hi else n)
  {
    if hi > 0 {
      CountCutUpTo(p, n, hi - 1);
    }
  }

  lemma CountCut(p: seq<nat>, n: nat)
    requires n <= |p|
    ensures Count(p, n, |p|) == Count(p, 0, |p|) - Count(Cut(p, n), 0, |p|)
  {
    CountSplits(p, n, |p|);
    CountCutUpTo(p, n, |p|);
  }

  /** Where a pointer is kept: the first ten in the file itself, each of the others at its own index in the indirect block. */
  lemma PointerPlaces(direct: seq<nat>, indirect: nat, blocks: map<nat, seq<nat>>, k: nat)
    requires |direct| == 10 && k < 1024 && (indirect != 0 ==> indirect in blocks && |blocks[indirect]| == 1024)
    ensures PointersOf(direct, indirect, blocks)[k] == if k < 10 then direct[k] else if indirect == 0 then 0 else blocks[indirect][k]
  {
  }

  /** No two pointers name the same block, and none names the indirect block or a free one. */
  ghost predicate Owns(p: seq<nat>, indirect: nat, free: set<nat>) {
    && (forall i, j :: 0 <= i < j < |p| && p[i] != 0 ==> p[i] != p[j])
    && (forall i :: 0 <= i < |p| && p[i] != 0 ==> p[i] != indirect && p[i] !in free)
    && (indirect != 0 ==> indirect !in free)
  }

  lemma {:induction false} NamedCount(p: seq<nat>, lo: nat, hi: nat)
    requires lo <= hi <= |p| && forall i, j :: 0 <= i < j < |p| && p[i] != 0 ==> p[i] != p[j]
    ensures |Named(p, lo, hi)| == Count(p, lo, hi)
  {
    if lo < hi {
      NamedCount(p, lo, hi - 1);
      assert Named(p, lo, hi) == Named(p, lo, hi - 1) + if p[hi - 1] != 0 then {p[hi - 1]} else {};
    }
  }

  /** The pointers with those from index `n` on cleared. */
  ghost function Cut(p: seq<nat>, n: nat): (r: seq<nat>)
    requires n <= |p|
    ensures |r| == |p| && forall k :: 0 <= k < |p| ==> r[k] == if k < n then p[k] else 0
  {
    seq(|p|, k requires 0 <= k < |p| => if k < n then p[k] else 0)
  }

  lemma DroppedCount(p: seq<nat>, indirect: nat, free: set<nat>, n: nat)
    requires Owns(p, indirect, free) && n <= |p|
    ensures |free + Dropped(p, indirect, n)| == |free| + Count(p, n, |p|) + if n <= NDIRECT && indirect != 0 then 1 else 0
  {
    NamedCount(p, n, |p|);
    var d := Dropped(p, indirect, n);
    assert free !! d;
    assert |free + d| == |free| + |d|;
  }

  /**
   Truncation conserves blocks: the number of free blocks grows by the number of pointers dropped, and one for a
   dropped indirect block, while every block the file keeps stays in use.
   */
  lemma TruncationConserves(p: seq<nat>, indirect: nat, free: set<nat>, n: nat)
    requires Owns(p, indirect, free) && n <= |p|
    ensures |free + Dropped(p, indirect, n)| == |free| + Count(p, n, |p|) + if n <= NDIRECT && indirect != 0 then 1 else 0
    ensures Owns(Cut(p, n), if n <= NDIRECT then 0 else indirect, free + Dropped(p, indirect, n))
  {
    DroppedCount(p, indirect, free, n);
    var q := Cut(p, n);
    forall i | 0 <= i < |q| && q[i] != 0 ensures q[i] !in Dropped(p, indirect, n) {
      assert q[i] == p[i];
    }
  }
}
