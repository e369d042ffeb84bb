/** Runs of extending walks and size changes over all files of a FAT file system. */
module FatRun {
  import opened Common
  import opened FatTable
  import opened Fat

  /** What the directory records of a file. */
  datatype Dirent = Dirent(first: nat, size: nat)
  type Files = map<nat, Dirent>

  /** Extend: get cluster `k` of a file, extending its chain; Resize: fat_file_set_size. */
  datatype FileOp = Extend(id: nat, k: nat) | Resize(id: nat, newsize: nat)

  ghost predicate EntryOk(x: Dirent, c: seq<nat>) {
    x.first == (if c == [] then 0 else c[0]) && (x.size == 0 <==> c == [])
  }

  /** Every file has its own intact chain, which starts where its entry says. */
  ghost predicate FilesInv(f: seq<nat>, limit: nat, files: Files, chains: Chains) {
    FilesOk(f, limit, chains) && files.Keys == chains.Keys && forall a :: a in files ==> EntryOk(files[a], chains[a])
  }

  lemma OneFileReshaped(f: seq<nat>, g: seq<nat>, limit: nat, files: Files, chains: Chains, id: nat, x: Dirent, d: seq<nat>)
    requires FilesInv(f, limit, files, chains) && id in files && EntryOk(x, d) && IsChain(g, limit, d)
    requires OnlyOwn(f, g, chains[id]) && OwnOrFree(f, chains[id], d)
    ensures FilesInv(g, limit, files[id := x], chains[id := d])
  {
    FilesKept(f, g, limit, chains, id, d);
  }

  lemma ChainsAreAcyclic(f: seq<nat>, limit: nat, chains: Chains)
    requires FilesOk(f, limit, chains) && limit <= EOF
    ensures forall a :: a in chains ==> Distinct(chains[a])
  {
    forall a | a in chains ensures Distinct(chains[a]) {
      AllDistinct(f, limit, chains[a]);
    }
  }

  lemma GrewIsOwn(f: seq<nat>, g: seq<nat>, c: seq<nat>, d: seq<nat>)
    requires Grew(f, g, c, d)
    ensures OnlyOwn(f, g, c) && OwnOrFree(f, c, d) && (c != [] ==> d[0] == c[0])
  {
    forall x | x in d ensures x in c || (x < |f| && f[x] == 0) {
      var i :| 0 <= i < |d| && d[i] == x;
      assert i < |c| ==> d[i] == c[i];
    }
  }

  /** What an operation does to the entry `x` and the chain `c` of the file that it names, when `free` clusters are free. */
  ghost predicate Reshaped(op: FileOp, size: nat, free: int, free': int, x: Dirent, c: seq<nat>, y: Dirent, d: seq<nat>)
    requires size > 0
  {
    match op
    case Extend(_, k) =>
      && y == x && c <= d && free' == free - (|d| - |c|)
      && (if x.size == 0 then k == 0 && d == c else k < |d| && (|d| == |c| || |d| == k + 1))
    case Resize(_, newsize) =>
      && y.size == newsize && (newsize >= x.size > 0 ==> d == c) && (x.size == 0 < newsize ==> |d| == 1)
      && (newsize < x.size ==> d <= c)
      && (0 < newsize < x.size ==> (|d| - 1) * size <= newsize < |d| * size)
      && (newsize == 0 ==> d == [])
      && free' == free - |d| + (if newsize < x.size then Quotient(x.size, size) + 1 else |c|)
  }

  /** The files at one moment of a run, with their chains and the number of free clusters. */
  datatype Moment = Moment(files: Files, chains: Chains, free: int)

  /** One operation reshapes the file that it names, and no other. */
  ghost predicate Did(op: FileOp, size: nat, m: Moment, m': Moment)
    requires size > 0
  {
    if op.id in m.files && op.id in m.chains then
      && op.id in m'.files && op.id in m'.chains
      && m'.files == m.files[op.id := m'.files[op.id]] && m'.chains == m.chains[op.id := m'.chains[op.id]]
      && Reshaped(op, size, m.free, m'.free, m.files[op.id], m.chains[op.id], m'.files[op.id], m'.chains[op.id])
    else m' == m
  }

  ghost predicate IsTrace(ops: seq<FileOp>, size: nat, trace: seq<Moment>)
    requires size > 0
  {
    |trace| <= |ops| + 1 && forall i :: 0 < i < |trace| ==> Did(ops[i - 1], size, trace[i - 1], trace[i])
  }

  lemma TraceGrows(ops: seq<FileOp>, size: nat, trace: seq<Moment>, m: Moment)
    requires size > 0 && IsTrace(ops, size, trace) && 0 < |trace| <= |ops|
    requires Did(ops[|trace| - 1], size, trace[|trace| - 1], m)
    ensures IsTrace(ops, size, trace + [m])
  {
  }

  /** The table is sound, the summary is exact and says that a cluster is free. */
  ghost predicate Sound(fs: FileSystem)
    reads fs, fs.fat
  {
    fs.Valid() && fs.freeCount > 0
  }

  /**
   An extending walk. False stands for a failed assertion of the allocator, or for a walk of an empty file past its
   first cluster, which leads into the reserved entry 0 of the table.
   */
  method ExtendFile(fs: FileSystem, k: nat, x: Dirent, ghost c: seq<nat>) returns (ok: bool, ghost d: seq<nat>)
    requires Sound(fs) && IsChain(fs.fat[..], fs.limit, c) && EntryOk(x, c)
    modifies fs`freeCount, fs`nxtFree, fs.fat
    ensures ok <==> if x.size == 0 then k == 0 else k < |c| || k + 1 - |c| < old(fs.freeCount)
    ensures ok ==>
              && Sound(fs) && IsChain(fs.fat[..], fs.limit, d) && EntryOk(x, d)
              && Reshaped(Extend(0, k), fs.clusterSize, old(fs.freeCount), fs.freeCount, x, c, x, d)
              && OnlyOwn(old(fs.fat[..]), fs.fat[..], c) && OwnOrFree(old(fs.fat[..]), c, d)
  {
    d := c;
    if x.size == 0 {
      return k == 0, c;
    }
    var r;
    r, d := fs.WalkCluster(x.first, k, true, c);
    ok := r != Panic;
    if ok {
      GrewIsOwn(old(fs.fat[..]), fs.fat[..], c, d);
    }
  }

  /** fat_file_set_size; false stands for a failed assertion or a truncation that runs off the chain. */
  method ResizeFile(fs: FileSystem, newsize: nat, x: Dirent, ghost c: seq<nat>)
    returns (ok: bool, y: Dirent, ghost d: seq<nat>)
    requires Sound(fs) && IsChain(fs.fat[..], fs.limit, c) && EntryOk(x, c)
    modifies fs`freeCount, fs`nxtFree, fs.fat
    ensures ok <==>
              && !(x.size == 0 < newsize && old(fs.freeCount) < 2)
              && !(newsize < x.size && |c| < Quotient(x.size, fs.clusterSize) + 1)
    ensures ok ==>
              && Sound(fs) && IsChain(fs.fat[..], fs.limit, d) && EntryOk(y, d)
              && Reshaped(Resize(0, newsize), fs.clusterSize, old(fs.freeCount), fs.freeCount, x, c, y, d)
              && OnlyOwn(old(fs.fat[..]), fs.fat[..], c) && OwnOrFree(old(fs.fat[..]), c, d)
  {
    var f := new Entry(x.first, x.size);
    var r;
    r, d := fs.SetSize(f, newsize, c);
    ok, y := r == Done, Dirent(f.First(), f.size);
  }

  /** No assertion fails and the operation does not leave the chain of the file that it names. */
  ghost predicate Possible(op: FileOp, size: nat, m: Moment)
    requires size > 0
  {
    op.id in m.files && op.id in m.chains ==>
      var x, c := m.files[op.id], m.chains[op.id];
      match op
      case Extend(_, k) => if x.size == 0 then k == 0 else k < |c| || k + 1 - |c| < m.free
      case Resize(_, newsize) =>
        !(x.size == 0 < newsize && m.free < 2) && !(newsize < x.size && |c| < Quotient(x.size, size) + 1)
  }

  /** One operation on the file it names, if there is one. */
  method Step(fs: FileSystem, op: FileOp, files: Files, ghost chains: Chains)
    returns (ok: bool, files': Files, ghost chains': Chains)
    requires Sound(fs) && FilesInv(fs.fat[..], fs.limit, files, chains)
    modifies fs`freeCount, fs`nxtFree, fs.fat
    ensures ok <==> Possible(op, fs.clusterSize, Moment(files, chains, old(fs.freeCount)))
    ensures ok ==> Sound(fs) && FilesInv(fs.fat[..], fs.limit, files', chains') && files'.Keys == files.Keys
    ensures ok ==> Did(op, fs.clusterSize, Moment(files, chains, old(fs.freeCount)), Moment(files', chains', fs.freeCount))
  {
    ok, files', chains' := true, files, chains;
    if op.id in files {
      var x, y := files[op.id], files[op.id];
      ghost var c, d := chains[op.id], chains[op.id];
      if op.Extend? {
        ok, d := ExtendFile(fs, op.k, x, c);
      } else {
        ok, y, d := ResizeFile(fs, op.newsize, x, c);
      }
      if ok {
        OneFileReshaped(old(fs.fat[..]), fs.fat[..], fs.limit, files, chains, op.id, y, d);
        files', chains' := files[op.id := y], chains[op.id := d];
      }
    }
  }

  /**
   Over every run of such operations on any files, up to the first that is not possible, each operation reshapes the
   file that it names and no other, the chains stay intact, acyclic, free of unallocated clusters and disjoint, and the
   summary stays exact.
   */
  method Run(fs: FileSystem, ops: seq<FileOp>, files: Files, ghost chains: Chains)
    returns (ok: bool, files': Files, ghost chains': Chains, ghost trace: seq<Moment>)
    requires Sound(fs) && FilesInv(fs.fat[..], fs.limit, files, chains)
    modifies fs`freeCount, fs`nxtFree, fs.fat
    ensures trace != [] && trace[0] == Moment(files, chains, old(fs.freeCount)) && IsTrace(ops, fs.clusterSize, trace)
    ensures if ok then |trace| == |ops| + 1 && trace[|ops|] == Moment(files', chains', fs.freeCount)
            else |trace| <= |ops| && !Possible(ops[|trace| - 1], fs.clusterSize, trace[|trace| - 1])
    ensures ok ==> Sound(fs) && FilesInv(fs.fat[..], fs.limit, files', chains') && files'.Keys == files.Keys
    ensures ok ==> forall a :: a in chains' ==> Distinct(chains'[a])
  {
    ok, files', chains' := true, files, chains;
    trace := [Moment(files, chains, fs.freeCount)];
    for i := 0 to |ops|
      invariant Sound(fs) && FilesInv(fs.fat[..], fs.limit, files', chains') && files'.Keys == files.Keys
      invariant |trace| == i + 1 && trace[0] == Moment(files, chains, old(fs.freeCount))
      invariant trace[i] == Moment(files', chains', fs.freeCount) && IsTrace(ops, fs.clusterSize, trace)
    {
      ok, files', chains' := Step(fs, ops[i], files', chains');
      if !ok {
        return;
      }
      ghost var m := Moment(files', chains', fs.freeCount);
      TraceGrows(ops, fs.clusterSize, trace, m);
      trace := trace + [m];
    }
    ChainsAreAcyclic(fs.fat[..], fs.limit, chains');
    ok := true;
  }
}
