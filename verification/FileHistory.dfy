/**
  What a sequence of system calls on regular files must return: reading gives the last
  byte written at each offset, zero where nothing was written since the file was last
  emptied, and nothing past the furthest byte written.  The calls run on the real trees
  and free list of KernelFs.
 */
module FileHistory {
  import opened Layout
  import opened KernelFs

  datatype Op =
    | Write(ino: nat, seek: nat, data: seq<byte>)
    | Read(ino: nat, seek: nat, count: nat, ahead: nat)
    | Truncate(ino: nat)

  datatype Result = Wrote(n: nat) | Got(data: seq<byte>) | Emptied

  predicate Fits(op: Op, r: Result) {
    match op
    case Write(_, _, data) => r.Wrote? && r.n <= |data|
    case Read(_, _, _, _) => r.Got?
    case Truncate(_) => r.Emptied?
  }

  predicate AllFit(ops: seq<Op>, rs: seq<Result>) {
    |ops| == |rs| && forall k :: 0 <= k < |ops| ==> Fits(ops[k], rs[k])
  }

  /** The byte at offset x of file i after the calls, `start` being the volume before them. */
  ghost function ByteAfter(start: Volume, ops: seq<Op>, rs: seq<Result>, i: nat, x: nat): byte
    requires AllFit(ops, rs) && i < |start.a| && x < MAXBYTES
    decreases |ops|
  {
    if ops == [] then FileByte(start, i, x)
    else
      var n := |ops| - 1;
      match ops[n]
      case Write(ino, seek, data) =>
        if ino == i && seek <= x < seek + rs[n].n then data[x - seek]
        else ByteAfter(start, ops[..n], rs[..n], i, x)
      case Truncate(ino) =>
        if ino == i then 0 else ByteAfter(start, ops[..n], rs[..n], i, x)
      case Read(_, _, _, _) => ByteAfter(start, ops[..n], rs[..n], i, x)
  }

  /** The size of file i after the calls: the furthest byte written since it was emptied. */
  ghost function SizeAfter(start: nat, ops: seq<Op>, rs: seq<Result>, i: nat): nat
    requires AllFit(ops, rs)
    decreases |ops|
  {
    if ops == [] then start
    else
      var n := |ops| - 1;
      var before := SizeAfter(start, ops[..n], rs[..n], i);
      match ops[n]
      case Write(ino, seek, _) =>
        if ino == i && rs[n].n > 0 && seek + rs[n].n > before then seek + rs[n].n else before
      case Truncate(ino) => if ino == i then 0 else before
      case Read(_, _, _, _) => before
  }

  /** The files hold exactly what the calls so far have put there. */
  ghost predicate Matches(v: Volume, size: seq<nat>, start: Volume, size0: seq<nat>, ops: seq<Op>, rs: seq<Result>) {
    && |v.a| == |start.a| == |size| == |size0| && AllFit(ops, rs)
    && (forall i, x: nat :: 0 <= i < |v.a| && x < MAXBYTES ==>
          FileByte(v, i, x) == ByteAfter(start, ops, rs, i, x))
    && forall i :: 0 <= i < |v.a| ==> size[i] == SizeAfter(size0[i], ops, rs, i)
  }

  /** The answer a call must give, after the earlier calls. */
  ghost predicate Answered(start: Volume, size0: seq<nat>, ops: seq<Op>, rs: seq<Result>, op: Op, r: Result)
    requires AllFit(ops, rs) && op.ino < |start.a| == |size0|
  {
    && Fits(op, r)
    && (op.Read? ==>
          && |r.data| == ReadCount(SizeAfter(size0[op.ino], ops, rs, op.ino), op.seek, op.count)
          && forall j :: 0 <= j < |r.data| ==> HistoryAt(start, ops, rs, op.ino, op.seek + j, r.data[j]))
  }

  /** b is the byte the history puts at offset x of file i. */
  ghost predicate HistoryAt(start: Volume, ops: seq<Op>, rs: seq<Result>, i: nat, x: nat, b: byte)
    requires AllFit(ops, rs) && i < |start.a|
  {
    x < MAXBYTES && b == ByteAfter(start, ops, rs, i, x)
  }

  lemma {:induction false} MatchesNext(v: Volume, size: seq<nat>, w: Volume, size': seq<nat>, start: Volume,
                                       size0: seq<nat>, ops: seq<Op>, rs: seq<Result>, op: Op, r: Result)
    requires Matches(v, size, start, size0, ops, rs) && Fits(op, r) && op.ino < |v.a|
    requires |w.a| == |v.a| == |size'|
    requires forall i, x: nat :: 0 <= i < |v.a| && x < MAXBYTES ==>
               FileByte(w, i, x) ==
               if op.Write? && i == op.ino && op.seek <= x < op.seek + r.n then op.data[x - op.seek]
               else if op.Truncate? && i == op.ino then 0 else FileByte(v, i, x)
    requires forall i :: 0 <= i < |v.a| ==>
               size'[i] ==
               if op.Write? && i == op.ino && r.n > 0 && op.seek + r.n > size[i] then op.seek + r.n
               else if op.Truncate? && i == op.ino then 0 else size[i]
    ensures Matches(w, size', start, size0, ops + [op], rs + [r])
  {
    var all, rall := ops + [op], rs + [r];
    assert all[..|ops|] == ops && rall[..|rs|] == rs;
    forall i, x: nat | 0 <= i < |w.a| && x < MAXBYTES
      ensures FileByte(w, i, x) == ByteAfter(start, all, rall, i, x)
    {
      assert FileByte(v, i, x) == ByteAfter(start, ops, rs, i, x);
    }
  }

  lemma {:induction false} MatchesStart(v: Volume, size: seq<nat>)
    requires |v.a| == |size|
    ensures Matches(v, size, v, size, [], [])
  {}

  lemma {:induction false} MatchesAnswers(v: Volume, size: seq<nat>, start: Volume, size0: seq<nat>,
                                          ops: seq<Op>, rs: seq<Result>, op: Op, data: seq<byte>)
    requires Matches(v, size, start, size0, ops, rs) && op.Read? && op.ino < |v.a|
    requires |data| == ReadCount(size[op.ino], op.seek, op.count) && ReadsAs(v, op.ino, op.seek, data)
    ensures Answered(start, size0, ops, rs, op, Got(data))
  {
    assert size[op.ino] == SizeAfter(size0[op.ino], ops, rs, op.ino);
    forall j | 0 <= j < |data| ensures HistoryAt(start, ops, rs, op.ino, op.seek + j, data[j]) {
      ReadsAt(v, op.ino, op.seek, data, j);
      assert FileByte(v, op.ino, op.seek + j) == ByteAfter(start, ops, rs, op.ino, op.seek + j);
    }
    hide HistoryAt;
  }

  /** Bytes of an emptied file are zero, those of the others as before. */
  lemma {:induction false} EmptiedBytes(v: Volume, w: Volume, i: nat)
    requires i < |v.a| == |w.a|
    requires forall k: nat :: k < MAXBLOCKS ==> FileBlock(w, i, k) == ZERO
    requires forall j, k: nat :: 0 <= j < |v.a| && j != i && k < MAXBLOCKS ==> FileBlock(w, j, k) == FileBlock(v, j, k)
    ensures forall j, x: nat :: 0 <= j < |v.a| && x < MAXBYTES ==>
              FileByte(w, j, x) == if j == i then 0 else FileByte(v, j, x)
  {
    forall j, x: nat | 0 <= j < |v.a| && x < MAXBYTES
      ensures FileByte(w, j, x) == if j == i then 0 else FileByte(v, j, x)
    {
      assert j == i ==> FileBlock(w, i, x / 512) == ZERO;
      assert j != i ==> FileBlock(w, j, x / 512) == FileBlock(v, j, x / 512);
    }
  }

  /** One call on the files, answered and recorded. */
  method Perform(fs: FileSystem, op: Op, stale: Block, ghost ops: seq<Op>, ghost rs: seq<Result>,
                 ghost v0: Volume, ghost s0: seq<nat>)
    returns (r: Result)
    requires fs.Valid() && op.ino < |fs.addr| && Matches(fs.Vol(), fs.size, v0, s0, ops, rs)
    modifies fs, fs.sfree
    ensures fs.Valid() && |fs.addr| == old(|fs.addr|)
    ensures AllFit(ops, rs) && op.ino < |v0.a| == |s0| && Answered(v0, s0, ops, rs, op, r)
    ensures Matches(fs.Vol(), fs.size, v0, s0, ops + [op], rs + [r])
    ensures old(fs.Sorted()) ==> fs.Sorted()
  {
    hide FileSystem.Sorted, FileSystem.FreeOK, FileByte, ByteAfter, SizeAfter, Partition, ReadsAs;
    hide Enough, MissingRun, Spans;
    ghost var v, sizes := fs.Vol(), fs.size;
    match op
    case Write(ino, seek, data) =>
      var n := fs.FWrite(ino, seek, data, stale);
      r := Wrote(n);
      MatchesNext(v, sizes, fs.Vol(), fs.size, v0, s0, ops, rs, op, r);
    case Read(ino, seek, count, ahead) =>
      var data := fs.FRead(ino, seek, count, ahead);
      r := Got(data);
      MatchesAnswers(v, sizes, v0, s0, ops, rs, op, data);
      MatchesNext(v, sizes, v, sizes, v0, s0, ops, rs, op, r);
    case Truncate(ino) =>
      fs.ITruncate(ino);
      r := Emptied;
      EmptiedBytes(v, fs.Vol(), ino);
      MatchesNext(v, sizes, fs.Vol(), fs.size, v0, s0, ops, rs, op, r);
  }

  /** Run any sequence of calls on any files.  Every read answers as the history says,
      whatever blocks, holes, index blocks and free-list batches lie underneath. */
  method Session(fs: FileSystem, ops: seq<Op>, stale: Block) returns (rs: seq<Result>)
    requires fs.Valid() && forall k :: 0 <= k < |ops| ==> ops[k].ino < |fs.addr|
    modifies fs, fs.sfree
    ensures fs.Valid() && AllFit(ops, rs)
    ensures forall k :: 0 <= k < |ops| ==>
              && ops[k].ino < |old(fs.addr)| == |old(fs.size)| && AllFit(ops[..k], rs[..k])
              && Answered(old(fs.Vol()), old(fs.size), ops[..k], rs[..k], ops[k], rs[k])
    ensures Matches(fs.Vol(), fs.size, old(fs.Vol()), old(fs.size), ops, rs)
    ensures old(fs.Sorted()) ==> fs.Sorted()
  {
    hide FileSystem.Sorted, FileSystem.FreeOK, Partition, Matches, FileByte;
    rs := [];
    ghost var v0, s0 := fs.Vol(), fs.size;
    MatchesStart(fs.Vol(), fs.size);
    var k := 0;
    while k < |ops|
      invariant 0 <= k <= |ops| && |rs| == k
      invariant fs.Valid() && |fs.addr| == |v0.a| && (old(fs.Sorted()) ==> fs.Sorted())
      invariant AllFit(ops[..k], rs)
      invariant Matches(fs.Vol(), fs.size, v0, s0, ops[..k], rs)
      invariant forall m :: 0 <= m < k ==>
                  AllFit(ops[..m], rs[..m]) && Answered(v0, s0, ops[..m], rs[..m], ops[m], rs[m])
    {
      var r := Perform(fs, ops[k], stale, ops[..k], rs, v0, s0);
      ghost var before := rs;
      rs := rs + [r];
      assert ops[..k + 1] == ops[..k] + [ops[k]];
      assert rs[..k] == before;
      forall m | 0 <= m <= k
        ensures AllFit(ops[..m], rs[..m]) && Answered(v0, s0, ops[..m], rs[..m], ops[m], rs[m])
      {
        assert rs[..m] == before[..m];
      }
      k := k + 1;
    }
    assert ops[..k] == ops;
  }
}
