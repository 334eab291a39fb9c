/**
  Pipes of pipe.c: a ring of PIPE_MAX bytes and four counters of awake and sleeping readers
  and writers.

  A step runs with the inode locked until it returns or sleeps; a process that sleeps is
  resumed in a later step and goes on where it slept.

  The ghost fields record the bytes readers were given and the bytes writers handed over;
  every step keeps the first followed by the ring's contents equal to the second.
 */
module Pipe {
  import opened Lists
  import opened Layout

  const PIPE_MAX: nat := 5120   // ND blocks of BSIZE bytes

  /** The n bytes that begin at offset x, wrapping at the end. */
  function Wrapped(d: seq<byte>, x: nat, n: nat): (s: seq<byte>)
    requires x < PIPE_MAX && n <= PIPE_MAX == |d|
    ensures |s| == n
  {
    if x + n <= PIPE_MAX then d[x..x + n] else d[x..] + d[..x + n - PIPE_MAX]
  }

  /** An offset of at most two rings, brought into the first. */
  function Around(x: nat): (r: nat)
    requires x < 2 * PIPE_MAX
    ensures r < PIPE_MAX
  {
    if x < PIPE_MAX then x else x - PIPE_MAX
  }

  lemma AroundTwice(x: nat, k: nat, n: nat)
    requires x < PIPE_MAX && k + n <= PIPE_MAX
    ensures Around(x) == x
    ensures Around(x + k) + n < 2 * PIPE_MAX && Around(Around(x + k) + n) == Around(x + k + n)
  {}

  lemma {:induction false} WrappedAt(d: seq<byte>, x: nat, n: nat, i: nat)
    requires x < PIPE_MAX && i < n <= PIPE_MAX == |d|
    ensures Wrapped(d, x, n)[i] == d[Around(x + i)]
  {}

  /** Dropping bytes from the front of the ring. */
  lemma {:induction false} WrappedDrop(d: seq<byte>, x: nat, n: nat, k: nat)
    requires x < PIPE_MAX && k <= n <= PIPE_MAX == |d| && x + k <= PIPE_MAX
    ensures d[x..x + k] == Wrapped(d, x, n)[..k]
    ensures Wrapped(d, Around(x + k), n - k) == Wrapped(d, x, n)[k..]
  {
    hide Wrapped;
    var w, v := Wrapped(d, x, n), Wrapped(d, Around(x + k), n - k);
    forall i | 0 <= i < n - k ensures v[i] == w[k..][i] {
      WrappedAt(d, Around(x + k), n - k, i);
      WrappedAt(d, x, n, k + i);
    }
    forall i | 0 <= i < k ensures d[x..x + k][i] == w[i] {
      WrappedAt(d, x, n, i);
    }
  }

  /** Storing bytes behind those that are there. */
  lemma {:induction false} WrappedStore(d: seq<byte>, e: seq<byte>, x: nat, n: nat, w: nat, more: seq<byte>)
    requires x < PIPE_MAX && n + |more| <= PIPE_MAX == |d| && w + |more| <= PIPE_MAX
    requires w == Around(x + n)
    requires e == d[..w] + more + d[w + |more|..]
    ensures Wrapped(e, x, n + |more|) == Wrapped(d, x, n) + more
  {
    hide Wrapped;
    var r, s := Wrapped(e, x, n + |more|), Wrapped(d, x, n);
    forall i | 0 <= i < n + |more| ensures r[i] == (s + more)[i] {
      WrappedAt(e, x, n + |more|, i);
      if i < n {
        WrappedAt(d, x, n, i);
      } else {
        assert Around(x + i) == w + (i - n);
      }
    }
  }

  lemma {:induction false} OnePiece(before: seq<byte>, bytes: seq<byte>, k: nat, n: nat)
    requires k + n <= |bytes|
    ensures before + bytes[..k] + bytes[k..k + n] == before + bytes[..k + n]
  {}

  /** How a step of pread or pwrite ended. */
  datatype Outcome = Done | MustSleep | WouldBlock | Broken

  /** How popen ended. */
  datatype Opened = Open | Sleeps | NoReader | Interrupted

  class PipeNode {
    const data: array<byte>
    var pnc: nat           // characters in the pipe
    var prx: nat           // where to read
    var pwx: nat           // where to write
    var par: nat           // readers awake
    var paw: nat           // writers awake
    var psr: nat           // readers that went to sleep and have not resumed
    var psw: nat           // writers likewise
    var readsAsleep: nat   // on the event of i_psw: readers in pread
    var opensRead: nat     //   and in popen
    var wokenReaders: nat  // woken or signalled, but not resumed
    var writesAsleep: nat  // on the event of i_psr: writers in pwrite
    var opensWrite: nat    //   and in popen
    var wokenWriters: nat
    ghost var waits: multiset<nat> // what each writer asleep in pwrite still has to write
    ghost var accepted: seq<byte>
    ghost var delivered: seq<byte>

    ghost function Contents(): seq<byte>
      requires data.Length == PIPE_MAX && prx < PIPE_MAX && pnc <= PIPE_MAX
      reads `pnc, `prx, data
    {
      Wrapped(data[..], prx, pnc)
    }

    /** The ring is in order and holds what was accepted but not yet delivered. */
    ghost predicate RingOK()
      reads `pnc, `prx, `pwx, `accepted, `delivered, data
    {
      && data.Length == PIPE_MAX && pnc <= PIPE_MAX && prx < PIPE_MAX && pwx == Around(prx + pnc)
      && (pnc == 0 ==> prx == 0)
      && delivered + Contents() == accepted
    }

    /** The counters count the sleepers, and nobody sleeps for something that is there. */
    ghost predicate SleepersOK()
      reads `pnc, `par, `paw, `psr, `psw, `readsAsleep, `opensRead, `wokenReaders, `writesAsleep, `opensWrite, `wokenWriters, `waits
    {
      && |waits| == writesAsleep
      && psr == readsAsleep + opensRead + wokenReaders && psw == writesAsleep + opensWrite + wokenWriters
      && (readsAsleep > 0 ==> pnc == 0) && (writesAsleep > 0 ==> pnc > 0)
      && (opensRead > 0 ==> paw + psw == 0)
      && (opensWrite > 0 ==> par + psr == 0)
    }

    /** A sleeping pread has some writer to wait for, and a sleeping pwrite some reader. */
    ghost predicate Attended()
      reads `par, `paw, `psr, `psw, `readsAsleep, `writesAsleep
    {
      (readsAsleep > 0 ==> paw + psw > 0) && (writesAsleep > 0 ==> par + psr > 0)
    }

    /** Whether pwrite can put in the next piece when m bytes are left to write. */
    static predicate GoesOn(m: nat, pnc: nat, pwx: nat) {
      m == 0 || (if m <= PIPE_MAX then m + pnc <= PIPE_MAX && m + pwx <= PIPE_MAX else pnc < PIPE_MAX && pwx < PIPE_MAX)
    }

    static ghost predicate NoneGoesOn(waits: multiset<nat>, pnc: nat, pwx: nat) {
      forall m :: m in waits ==> !GoesOn(m, pnc, pwx)
    }

    /** A writer is asleep in pwrite only while its write cannot go on. */
    ghost predicate NoneOverlooked()
      reads `pnc, `pwx, `waits
    {
      NoneGoesOn(waits, pnc, pwx)
    }

    /** Bytes have neither come nor gone. */
    twostate predicate SameBytes()
      reads this, data
    {
      && data[..] == old(data[..]) && pnc == old(pnc) && prx == old(prx) && pwx == old(pwx)
      && accepted == old(accepted) && delivered == old(delivered)
    }

    ghost predicate Valid()
      reads this, data
    {
      RingOK() && SleepersOK()
    }

    constructor ()
      ensures Valid() && Attended() && NoneOverlooked() && fresh(data) && Contents() == [] && accepted == []
      ensures par == paw == psr == psw == 0
    {
      data := new byte[PIPE_MAX](i => 0);
      pnc, prx, pwx, par, paw, psr, psw := 0, 0, 0, 0, 0, 0, 0;
      readsAsleep, opensRead, wokenReaders, writesAsleep, opensWrite, wokenWriters := 0, 0, 0, 0, 0, 0;
      accepted, delivered, waits := [], [], multiset{};
    }

    // ------------------------------------------------------------------- wakeups

    /** pwake(ip, IFWFW): wake those who wait for a writer. */
    method WakeReaders()
      requires psr == readsAsleep + opensRead + wokenReaders
      modifies this`readsAsleep, this`opensRead, this`wokenReaders
      ensures readsAsleep == opensRead == 0 && wokenReaders == psr
    {
      if psr != 0 {
        wokenReaders := wokenReaders + readsAsleep + opensRead;
        readsAsleep, opensRead := 0, 0;
      }
    }

    /** pwake(ip, IFWFR): wake those who wait for a reader. */
    method WakeWriters()
      requires psw == writesAsleep + opensWrite + wokenWriters
      modifies this`writesAsleep, this`opensWrite, this`wokenWriters, this`waits
      ensures writesAsleep == opensWrite == 0 && wokenWriters == psw && waits == multiset{}
    {
      waits := multiset{};
      if psw != 0 {
        wokenWriters := wokenWriters + writesAsleep + opensWrite;
        writesAsleep, opensWrite := 0, 0;
      }
    }

    /** psleep(ip, IFWFW) up to the sleep. */
    method SleepForWriter(opening: bool)
      requires par > 0
      modifies this`par, this`psr, this`readsAsleep, this`opensRead
      ensures par == old(par) - 1 && psr == old(psr) + 1
      ensures opensRead == old(opensRead) + (if opening then 1 else 0)
      ensures readsAsleep == old(readsAsleep) + (if opening then 0 else 1)
    {
      par, psr := par - 1, psr + 1;
      if opening {
        opensRead := opensRead + 1;
      } else {
        readsAsleep := readsAsleep + 1;
      }
    }

    /** psleep(ip, IFWFR) up to the sleep. */
    method SleepForReader(opening: bool, ghost rest: nat)
      requires paw > 0
      modifies this`paw, this`psw, this`writesAsleep, this`opensWrite, this`waits
      ensures waits == old(waits) + (if opening then multiset{} else multiset{rest})
      ensures paw == old(paw) - 1 && psw == old(psw) + 1
      ensures opensWrite == old(opensWrite) + (if opening then 1 else 0)
      ensures writesAsleep == old(writesAsleep) + (if opening then 0 else 1)
    {
      paw, psw := paw - 1, psw + 1;
      if opening {
        opensWrite := opensWrite + 1;
      } else {
        writesAsleep := writesAsleep + 1;
        waits := waits + multiset{rest};
      }
    }

    /** psleep after the sleep, for a reader and for a writer. */
    method ResumeReader()
      requires Valid() && wokenReaders > 0
      modifies this`par, this`psr, this`wokenReaders
      ensures Valid() && (old(Attended()) ==> Attended())
      ensures par == old(par) + 1 && psr == old(psr) - 1 && wokenReaders == old(wokenReaders) - 1
    {
      par, psr, wokenReaders := par + 1, psr - 1, wokenReaders - 1;
    }

    method ResumeWriter()
      requires Valid() && wokenWriters > 0
      modifies this`paw, this`psw, this`wokenWriters
      ensures Valid() && (old(Attended()) ==> Attended())
      ensures paw == old(paw) + 1 && psw == old(psw) - 1 && wokenWriters == old(wokenWriters) - 1
    {
      paw, psw, wokenWriters := paw + 1, psw - 1, wokenWriters - 1;
    }

    /** A signal takes one sleeping reader, or writer, off its event. */
    method SignalReader(opening: bool)
      requires Valid() && (if opening then opensRead else readsAsleep) > 0
      modifies this`wokenReaders, this`opensRead, this`readsAsleep
      ensures Valid() && (old(Attended()) ==> Attended()) && wokenReaders == old(wokenReaders) + 1
    {
      wokenReaders := wokenReaders + 1;
      if opening {
        opensRead := opensRead - 1;
      } else {
        readsAsleep := readsAsleep - 1;
      }
    }

    method SignalWriter(opening: bool)
      requires Valid() && (if opening then opensWrite else writesAsleep) > 0
      modifies this`wokenWriters, this`opensWrite, this`writesAsleep, this`waits
      ensures Valid() && (old(Attended()) ==> Attended()) && wokenWriters == old(wokenWriters) + 1
      ensures waits <= old(waits) && (opening ==> waits == old(waits))
    {
      hide RingOK, Contents, Wrapped, Around, NoneGoesOn, GoesOn;
      wokenWriters := wokenWriters + 1;
      if opening {
        opensWrite := opensWrite - 1;
      } else {
        ghost var m :| m in waits;
        writesAsleep, waits := writesAsleep - 1, waits - multiset{m};
      }
    }

    // --------------------------------------------------------------- open and close

    /** popen for reading, from its beginning. */
    method OpenRead(noDelay: bool) returns (r: Opened)
      requires Valid()
      modifies this
      ensures Valid() && SameBytes() && waits <= old(waits) && (old(Attended()) ==> Attended())
      ensures r == if !noDelay && old(paw + psw) == 0 then Sleeps else Open
      ensures r == Open ==> par == old(par) + 1 && psr == old(psr) && writesAsleep == opensWrite == 0
      ensures r == Sleeps ==> par == old(par) && psr == old(psr) + 1 && opensRead == old(opensRead) + 1
      ensures paw == old(paw) && psw == old(psw)
    {
      par := par + 1;
      r := FinishOpenRead(noDelay);
    }

    /** The rest of popen for reading: test for a writer, sleep or let the writers go on. */
    method FinishOpenRead(noDelay: bool) returns (r: Opened)
      requires RingOK() && par > 0 && psr == readsAsleep + opensRead + wokenReaders
      requires psw == writesAsleep + opensWrite + wokenWriters && (opensRead > 0 ==> paw + psw == 0)
      requires (readsAsleep > 0 ==> pnc == 0) && (writesAsleep > 0 ==> pnc > 0) && |waits| == writesAsleep
      modifies this
      ensures Valid() && SameBytes() && waits <= old(waits)
      ensures r == if !noDelay && old(paw + psw) == 0 then Sleeps else Open
      ensures r == Open ==> par == old(par) && psr == old(psr) && writesAsleep == opensWrite == 0
      ensures r == Open ==> readsAsleep == old(readsAsleep) && opensRead == old(opensRead)
      ensures r == Sleeps ==> par == old(par) - 1 && psr == old(psr) + 1 && opensRead == old(opensRead) + 1
      ensures r == Sleeps ==> readsAsleep == old(readsAsleep)
      ensures paw == old(paw) && psw == old(psw)
    {
      if paw == 0 && psw == 0 && !noDelay {
        SleepForWriter(true);
        return Sleeps;
      }
      WakeWriters();
      return Open;
    }

    /** popen for reading after its sleep.  A signal makes the reader leave without waking
        anybody, which strands sleeping writers exactly if it was the last reader. */
    method ReopenRead(signalled: bool) returns (r: Opened)
      requires Valid() && par > 0
      modifies this
      ensures Valid() && SameBytes() && waits <= old(waits)
      ensures r == if signalled then Interrupted else if pnc == 0 && old(paw + psw) == 0 then Sleeps else Open
      ensures old(Attended()) ==> (Attended() <==> !(signalled && old(writesAsleep) > 0 && old(par + psr) == 1))
      ensures par + psr == old(par + psr) - (if signalled then 1 else 0) && paw == old(paw) && psw == old(psw)
      ensures signalled ==> writesAsleep == old(writesAsleep) && wokenWriters == old(wokenWriters) && par == old(par) - 1
    {
      if signalled {
        par := par - 1;
        return Interrupted;
      }
      if pnc != 0 {
        WakeWriters();
        return Open;
      }
      r := FinishOpenRead(false);
    }

    /** popen for writing, from its beginning. */
    method OpenWrite(noDelay: bool) returns (r: Opened)
      requires Valid()
      modifies this
      ensures Valid() && SameBytes() && waits <= old(waits) && (old(Attended()) ==> Attended())
      ensures r == if old(par + psr) > 0 then Open else if noDelay then NoReader else Sleeps
      ensures r == Open ==> paw == old(paw) + 1 && psw == old(psw) && readsAsleep == opensRead == 0
      ensures r == NoReader ==> paw == old(paw) && psw == old(psw)
      ensures r == Sleeps ==> paw == old(paw) && psw == old(psw) + 1 && opensWrite == old(opensWrite) + 1
      ensures par == old(par) && psr == old(psr)
    {
      hide RingOK, Contents, Wrapped, Around, NoneGoesOn, GoesOn;
      paw := paw + 1;
      if par == 0 && psr == 0 {
        if noDelay {
          paw := paw - 1;
          return NoReader;
        }
        SleepForReader(true, 0);
        return Sleeps;
      }
      WakeReaders();
      return Open;
    }

    /** popen for writing after its sleep. */
    method ReopenWrite(signalled: bool) returns (r: Opened)
      requires Valid() && paw > 0
      modifies this
      ensures Valid() && SameBytes() && waits == old(waits) && r == if signalled then Interrupted else Open
      ensures old(Attended()) ==> (Attended() <==> !(signalled && old(readsAsleep) > 0 && old(paw + psw) == 1))
      ensures paw + psw == old(paw + psw) - (if signalled then 1 else 0) && par == old(par) && psr == old(psr)
      ensures signalled ==> readsAsleep == old(readsAsleep) && wokenReaders == old(wokenReaders) && paw == old(paw) - 1
    {
      if signalled {
        paw := paw - 1;
        return Interrupted;
      }
      WakeReaders();
      return Open;
    }

    /** popen for both. */
    method OpenBoth()
      requires Valid()
      modifies this
      ensures Valid() && SameBytes() && Attended() && waits == multiset{}
      ensures par == old(par) + 1 && paw == old(paw) + 1 && psr == old(psr) && psw == old(psw)
    {
      hide RingOK, Contents, Wrapped, Around, NoneGoesOn, GoesOn;
      par, paw := par + 1, paw + 1;
      WakeReaders();
      WakeWriters();
    }

    /** pclose: everybody asleep is woken; with the last process the pipe is cleared. */
    method Close(reader: bool, writer: bool)
      requires Valid() && (reader ==> par > 0) && (writer ==> paw > 0)
      modifies this
      ensures Valid() && Attended() && readsAsleep == opensRead == writesAsleep == opensWrite == 0 && waits == multiset{}
      ensures par == old(par) - (if reader then 1 else 0) && paw == old(paw) - (if writer then 1 else 0)
      ensures psr == old(psr) && psw == old(psw)
      ensures par + paw + psr + psw > 0 ==> SameBytes()
      ensures par + paw + psr + psw == 0 ==> Contents() == [] && accepted == delivered == []
    {
      hide Wrapped, Contents, Around, RingOK, NoneGoesOn, GoesOn;
      RingFacts();
      WakeWriters();
      WakeReaders();
      if reader {
        par := par - 1;
      }
      if writer {
        paw := paw - 1;
      }
      if paw == 0 && psw == 0 && par == 0 && psr == 0 {
        Clear();
      }
    }

    /** pclear: the pipe is empty and nobody's. */
    method Clear()
      requires data.Length == PIPE_MAX
      modifies this`pnc, this`prx, this`pwx, this`par, this`paw, this`psr, this`psw, this`accepted, this`delivered
      ensures RingOK() && pnc == 0 && Contents() == [] && accepted == delivered == [] && par == paw == psr == psw == 0
    {
      pnc, prx, pwx, par, paw, psr, psw := 0, 0, 0, 0, 0, 0, 0;
      accepted, delivered := [], [];
    }

    // --------------------------------------------------------------- read and write

    /** pread up to its end or its next sleep: all that is there, up to what was asked for. */
    method Read(count: nat, noDelay: bool, nonBlock: bool) returns (bytes: seq<byte>, r: Outcome)
      requires Valid() && par > 0
      modifies this
      ensures Valid() && (old(Attended()) ==> Attended())
      ensures old(pnc) > 0 ==> r == Done && bytes == old(Contents())[..Min(count, old(pnc))]
      ensures old(pnc) > 0 ==> Contents() == old(Contents())[Min(count, old(pnc))..]
      ensures old(pnc) == 0 ==> bytes == [] && Contents() == []
      ensures old(pnc) == 0 ==>
                r == if noDelay || old(paw + psw) == 0 then Done else if nonBlock then WouldBlock else MustSleep
      ensures accepted == old(accepted) && delivered == old(delivered) + bytes
      ensures pnc == old(pnc) - |bytes| && (pnc > 0 ==> prx == Around(old(prx) + |bytes|))
      ensures pnc < PIPE_MAX && old(pnc) > 0 ==> writesAsleep == opensWrite == 0
      ensures old(NoneOverlooked()) ==> NoneOverlooked()
      ensures par + psr == old(par + psr) && (r == MustSleep <==> readsAsleep > old(readsAsleep))
      ensures paw == old(paw) && psw == old(psw)
    {
      hide Wrapped, Around, NoneGoesOn, GoesOn, RingOK, Contents;
      RingFacts();
      NothingThere();
      ghost var w0, c0, x0 := waits, pnc, pwx;
      bytes := [];
      if pnc == 0 {
        if noDelay || (paw == 0 && psw == 0) {
          return bytes, Done;
        }
        if nonBlock {
          return bytes, WouldBlock;
        }
        SleepForWriter(false);
        return bytes, MustSleep;
      }
      bytes := Take(count);
      if pnc < PIPE_MAX {
        WakeWriters();
      }
      AfterRead(w0, c0, x0);
      r := Done;
    }

    lemma NothingThere()
      requires RingOK()
      ensures pnc == 0 ==> Contents() == []
    {}

    lemma {:induction false} AfterRead(ws: multiset<nat>, pnc0: nat, pwx0: nat)
      requires waits == if pnc < PIPE_MAX then multiset{} else ws
      ensures NoneGoesOn(ws, pnc0, pwx0) ==> NoneOverlooked()
    {
      forall m | m in waits && !GoesOn(m, pnc0, pwx0) ensures !GoesOn(m, pnc, pwx) {}
    }

    /** The transfer loop of pread. */
    method Take(count: nat) returns (bytes: seq<byte>)
      requires RingOK() && pnc > 0
      modifies this`pnc, this`prx, this`pwx, this`delivered
      ensures RingOK() && bytes == old(Contents())[..Min(count, old(pnc))]
      ensures Contents() == old(Contents())[Min(count, old(pnc))..] && delivered == old(delivered) + bytes
      ensures pnc == old(pnc) - |bytes| && (pnc > 0 ==> prx == Around(old(prx) + |bytes|))
    {
      hide Wrapped, Around, Contents;
      var ioc := count;
      bytes := [];
      AroundTwice(prx, 0, 0);
      while ioc > 0 && pnc > 0
        invariant RingOK() && ioc == count - |bytes| && pnc == old(pnc) - |bytes|
        invariant bytes + Contents() == old(Contents()) && delivered == old(delivered) + bytes
        invariant pnc > 0 ==> prx == Around(old(prx) + |bytes|)
      {
        ghost var was := Contents();
        var n := Min(Min(PIPE_MAX - prx, ioc), pnc);
        var piece := TakePiece(n);
        AroundTwice(old(prx), |bytes|, n);
        bytes := bytes + piece;
        ioc := ioc - n;
      }
    }

    /** fread of one piece from the ring. */
    method TakePiece(n: nat) returns (piece: seq<byte>)
      requires RingOK() && 0 < n <= pnc && prx + n <= PIPE_MAX
      modifies this`pnc, this`prx, this`pwx, this`delivered
      ensures RingOK() && |piece| == n && piece + Contents() == old(Contents()) && delivered == old(delivered) + piece
      ensures pnc == old(pnc) - n && (pnc > 0 ==> prx == Around(old(prx) + n))
    {
      hide Wrapped;
      ghost var was := Contents();
      WrappedDrop(data[..], prx, pnc, n);
      piece := data[prx..prx + n];
      delivered := delivered + piece;
      prx := prx + n;
      if prx == PIPE_MAX {
        prx := 0;
      }
      pnc := pnc - n;
      if pnc == 0 {
        prx, pwx := 0, 0;
      }
      assert piece == was[..n] && Contents() == was[n..];
    }

    lemma RingFacts()
      requires RingOK()
      ensures pnc <= PIPE_MAX && pwx < PIPE_MAX && prx < PIPE_MAX && data.Length == PIPE_MAX && (pnc == 0 ==> pwx == 0)
      ensures pwx == Around(prx + pnc)
    {}

    /** Whether a write enters the ring without waiting: room, and no wrap at the end. */
    predicate Fits(n: nat)
      requires pnc <= PIPE_MAX && pwx <= PIPE_MAX
      reads this
    {
      n <= PIPE_MAX - pnc && n <= PIPE_MAX - pwx
    }

    /** How much of a write enters before it must wait.  Of more than PIPE_MAX bytes it is all there
        is room for, except that a rest of at most PIPE_MAX bytes behind the ring's end stays out. */
    static function Enters(len: nat, pnc: nat, pwx: nat): (k: nat)
      requires pnc <= PIPE_MAX && pwx <= PIPE_MAX
      ensures k <= len && (len > PIPE_MAX ==> k < len)
    {
      var room, tail := PIPE_MAX - pnc, PIPE_MAX - pwx;
      if len <= PIPE_MAX then (if len <= room && len <= tail then len else 0)
      else if room <= tail || len - tail > PIPE_MAX then room else tail
    }

    /** pwrite up to its end or its next sleep; k bytes have entered the ring.  A write of at
        most PIPE_MAX bytes enters whole or not at all. */
    method Write(bytes: seq<byte>, noDelay: bool, nonBlock: bool) returns (k: nat, r: Outcome)
      requires Valid() && paw > 0
      modifies this, data
      ensures Valid() && (old(Attended()) ==> Attended()) && k <= |bytes|
      ensures Contents() == old(Contents()) + bytes[..k]
      ensures accepted == old(accepted) + bytes[..k] && delivered == old(delivered)
      ensures r == Broken <==> bytes != [] && old(par + psr) == 0
      ensures r == Broken ==> k == 0
      ensures old(par + psr) > 0 && |bytes| <= PIPE_MAX ==> k == if old(Fits(|bytes|)) then |bytes| else 0
      ensures old(par + psr) > 0 && |bytes| > PIPE_MAX ==> k == Enters(|bytes|, old(pnc), old(pwx))
      ensures r != Broken && k < |bytes| ==> !GoesOn(|bytes| - k, pnc, pwx)
      ensures r != Broken && k < |bytes| ==> r == if noDelay then Done else if nonBlock then WouldBlock else MustSleep
      ensures k == |bytes| ==> r == Done
      ensures k > 0 ==> readsAsleep == opensRead == 0
      ensures paw + psw == old(paw + psw) && psw == old(psw) + (if r == MustSleep then 1 else 0)
      ensures writesAsleep == old(writesAsleep) + (if r == MustSleep then 1 else 0)
      ensures waits == old(waits) + (if r == MustSleep then multiset{|bytes| - k} else multiset{})
      ensures par == old(par) && psr == old(psr) && prx == old(prx) && pnc == old(pnc) + k
      ensures old(NoneOverlooked()) ==> (NoneOverlooked() <==> !Overlooks(old(waits), old(pnc), old(pwx), k))
    {
      hide Wrapped, Around, RingOK, Contents, SleepersOK, Attended, NoneGoesOn, Overlooks, GoesOn;
      RingFacts();
      ghost var w0, c0, x0, held := waits, pnc, pwx, Contents();
      Undelivered(held);
      k, r := PutAll(bytes, noDelay, nonBlock);
      RingFacts();
      Undelivered(held + bytes[..k]);
      WroteMore(w0, c0, x0, k, if r == MustSleep then multiset{|bytes| - k} else multiset{});
    }

    /** The loop of pwrite. */
    method PutAll(bytes: seq<byte>, noDelay: bool, nonBlock: bool) returns (k: nat, r: Outcome)
      requires Valid() && paw > 0
      modifies this, data
      ensures Valid() && (old(Attended()) ==> Attended()) && k <= |bytes|
      ensures accepted == old(accepted) + bytes[..k] && delivered == old(delivered)
      ensures r == Broken <==> bytes != [] && old(par + psr) == 0
      ensures r == Broken ==> k == 0
      ensures old(par + psr) > 0 ==> k == Enters(|bytes|, old(pnc), old(pwx))
      ensures r != Broken && k < |bytes| ==> !GoesOn(|bytes| - k, pnc, pwx)
      ensures r != Broken && k < |bytes| ==> r == if noDelay then Done else if nonBlock then WouldBlock else MustSleep
      ensures k == |bytes| ==> r == Done
      ensures k > 0 ==> readsAsleep == opensRead == 0
      ensures paw + psw == old(paw + psw) && psw == old(psw) + (if r == MustSleep then 1 else 0)
      ensures writesAsleep == old(writesAsleep) + (if r == MustSleep then 1 else 0)
      ensures waits == old(waits) + (if r == MustSleep then multiset{|bytes| - k} else multiset{})
      ensures par == old(par) && psr == old(psr) && prx == old(prx) && pnc == old(pnc) + k
    {
      hide Wrapped, Around, RingOK, Contents, SleepersOK, Attended, NoneGoesOn, Overlooks, GoesOn, Entering, Enters;
      RingFacts();
      k := PutPieces(bytes);
      if k == |bytes| {
        return k, Done;
      }
      if par == 0 && psr == 0 {
        return k, Broken;
      }
      r := Hold(noDelay, nonBlock, |bytes| - k);
    }

    /** The turns of the loop that put something in, up to the one that stops or waits. */
    method PutPieces(bytes: seq<byte>) returns (k: nat)
      requires Valid() && paw > 0
      modifies data, this`pwx, this`pnc, this`accepted, this`readsAsleep, this`opensRead, this`wokenReaders
      ensures Valid() && (old(Attended()) ==> Attended()) && k <= |bytes|
      ensures accepted == old(accepted) + bytes[..k] && pnc == old(pnc) + k
      ensures par + psr == 0 ==> k == 0
      ensures par + psr > 0 ==> k == Enters(|bytes|, old(pnc), old(pwx))
      ensures par + psr > 0 && k < |bytes| ==> pnc > 0 && !GoesOn(|bytes| - k, pnc, pwx)
      ensures k > 0 ==> readsAsleep == opensRead == 0
      ensures k == 0 ==> readsAsleep == old(readsAsleep) && opensRead == old(opensRead)
    {
      hide Wrapped, Around, RingOK, Contents, SleepersOK, Attended, NoneGoesOn, Overlooks, GoesOn, Entering, Enters;
      RingFacts();
      k := 0;
      NothingIn(|bytes|, pnc, pwx);
      while k < |bytes|
        invariant Valid() && (old(Attended()) ==> Attended()) && k <= |bytes|
        invariant data.Length == PIPE_MAX && prx < PIPE_MAX && pnc <= PIPE_MAX && pwx < PIPE_MAX
        invariant accepted == old(accepted) + bytes[..k] && pnc == old(pnc) + k
        invariant k > 0 ==> par + psr > 0 && readsAsleep == opensRead == 0
        invariant k == 0 ==> readsAsleep == old(readsAsleep) && opensRead == old(opensRead)
        invariant Entering(|bytes|, k, old(pnc), old(pwx), pwx)
      {
        if par == 0 && psr == 0 {
          return;
        }
        RingFacts();
        var ioc := |bytes| - k;
        var n := Min(Min(PIPE_MAX - pwx, ioc), PIPE_MAX - pnc);
        if n == 0 || (ioc <= PIPE_MAX && n != ioc) {
          NoRoom(ioc, n);
          EnteringStops(|bytes|, k, n, old(pnc), old(pwx), pwx);
          return;
        }
        OnePiece(old(accepted), bytes, k, n);
        MoreIn(|bytes|, k, n, old(pnc), old(pwx), pwx);
        PutAndWake(bytes[k..k + n]);
        k := k + n;
      }
      EnteringEnds(|bytes|, old(pnc), old(pwx), pwx);
    }

    /** k of len bytes are in: none, a short write as a whole, or of a long one all there is room for
        or all up to the ring's end. */
    static predicate Entering(len: nat, k: nat, pnc0: nat, pwx0: nat, pwx: nat) {
      && pnc0 <= PIPE_MAX && pwx0 < PIPE_MAX
      && if k == 0 then pwx == pwx0
         else if len <= PIPE_MAX then k == len && len + pnc0 <= PIPE_MAX && len + pwx0 <= PIPE_MAX
         else
           && (k == PIPE_MAX - pnc0 || (k == PIPE_MAX - pwx0 < PIPE_MAX - pnc0 && pwx == 0))
           && (k == PIPE_MAX - pnc0 > PIPE_MAX - pwx0 ==> len - (PIPE_MAX - pwx0) > PIPE_MAX)
    }

    static lemma NothingIn(len: nat, pnc0: nat, pwx0: nat)
      requires pnc0 <= PIPE_MAX && pwx0 < PIPE_MAX
      ensures Entering(len, 0, pnc0, pwx0, pwx0)
    {}

    static lemma EnteringStops(len: nat, k: nat, n: nat, pnc0: nat, pwx0: nat, pwx: nat)
      requires pnc0 + k <= PIPE_MAX && pwx < PIPE_MAX && k < len && Entering(len, k, pnc0, pwx0, pwx)
      requires n == Min(Min(PIPE_MAX - pwx, len - k), PIPE_MAX - pnc0 - k)
      requires n == 0 || (len - k <= PIPE_MAX && n != len - k)
      ensures k == Enters(len, pnc0, pwx0)
    {}

    static lemma EnteringEnds(len: nat, pnc0: nat, pwx0: nat, pwx: nat)
      requires Entering(len, len, pnc0, pwx0, pwx)
      ensures len == Enters(len, pnc0, pwx0)
    {}

    static lemma MoreIn(len: nat, k: nat, n: nat, pnc0: nat, pwx0: nat, pwx: nat)
      requires pnc0 + k <= PIPE_MAX && pwx < PIPE_MAX && k < len && Entering(len, k, pnc0, pwx0, pwx)
      requires n == Min(Min(PIPE_MAX - pwx, len - k), PIPE_MAX - pnc0 - k)
      requires n > 0 && (len - k <= PIPE_MAX ==> n == len - k)
      ensures Entering(len, k + n, pnc0, pwx0, Around(pwx + n))
    {}

    /** A write of k bytes goes past the end of the ring and frees the way for a writer that was
        asleep because its write would have; pwrite wakes only readers. */
    static predicate Overlooks(waits: multiset<nat>, pnc: nat, pwx: nat, k: nat) {
      exists m :: m in waits && m <= PIPE_MAX && MakesWay(m, pnc, pwx, k)
    }

    static predicate MakesWay(m: nat, pnc: nat, pwx: nat, k: nat) {
      pwx + k >= PIPE_MAX && PIPE_MAX - pwx < m && m + pnc + k <= PIPE_MAX
    }

    lemma NoRoom(m: nat, n: nat)
      requires m > 0 && pnc <= PIPE_MAX && pwx <= PIPE_MAX
      requires n == Min(Min(PIPE_MAX - pwx, m), PIPE_MAX - pnc) && (n == 0 || (m <= PIPE_MAX && n != m))
      ensures !GoesOn(m, pnc, pwx)
    {}

    lemma {:induction false} Undelivered(c: seq<byte>)
      requires RingOK()
      ensures Contents() == c <==> accepted == delivered + c
    {
      if accepted == delivered + c {
        assert Contents() == accepted[|delivered|..] == c;
      }
    }

    lemma {:induction false} WroteMore(ws: multiset<nat>, pnc0: nat, pwx0: nat, k: nat, added: multiset<nat>)
      requires RingOK() && waits == ws + added && pnc == pnc0 + k && pwx0 == Around(prx + pnc0)
      requires forall m :: m in added ==> !GoesOn(m, pnc, pwx)
      ensures NoneGoesOn(ws, pnc0, pwx0) ==> (NoneOverlooked() <==> !Overlooks(ws, pnc0, pwx0, k))
    {
      if NoneGoesOn(ws, pnc0, pwx0) {
        forall m | m in ws ensures GoesOn(m, pnc, pwx) <==> m <= PIPE_MAX && MakesWay(m, pnc0, pwx0, k) {
          assert !GoesOn(m, pnc0, pwx0);
        }
      }
    }

    /** pwrite when the write does not fit. */
    method Hold(noDelay: bool, nonBlock: bool, ghost rest: nat) returns (r: Outcome)
      requires Valid() && pnc > 0 && paw > 0 && par + psr > 0 && !GoesOn(rest, pnc, pwx)
      modifies this`paw, this`psw, this`writesAsleep, this`opensWrite, this`waits
      ensures waits == old(waits) + (if r == MustSleep then multiset{rest} else multiset{})
      ensures psw == old(psw) + (if r == MustSleep then 1 else 0)
      ensures SleepersOK() && (old(Attended()) ==> Attended())
      ensures r == if noDelay then Done else if nonBlock then WouldBlock else MustSleep
      ensures paw + psw == old(paw + psw) && writesAsleep == old(writesAsleep) + (if r == MustSleep then 1 else 0)
    {
      hide RingOK;
      if noDelay {
        return Done;
      }
      if nonBlock {
        return WouldBlock;
      }
      SleepForReader(false, rest);
      r := MustSleep;
    }

    method PutAndWake(piece: seq<byte>)
      requires Valid() && 0 < |piece| <= PIPE_MAX - pnc && |piece| <= PIPE_MAX - pwx
      modifies data, this`pwx, this`pnc, this`accepted, this`readsAsleep, this`opensRead, this`wokenReaders
      ensures RingOK() && SleepersOK() && (old(Attended()) ==> Attended()) && readsAsleep == opensRead == 0
      ensures prx < PIPE_MAX && pnc <= PIPE_MAX && pwx < PIPE_MAX
      ensures accepted == old(accepted) + piece && pnc == old(pnc) + |piece|
      ensures pwx == Around(old(pwx) + |piece|)
    {
      hide RingOK, Contents;
      Put(piece);
      if pnc > 0 {
        WakeReaders();
      }
      RingFacts();
    }

    /** fwrite of one piece into the ring. */
    method Put(piece: seq<byte>)
      requires RingOK() && 0 < |piece| <= PIPE_MAX - pnc && |piece| <= PIPE_MAX - pwx
      modifies data, this`pwx, this`pnc, this`accepted
      ensures RingOK() && Contents() == old(Contents()) + piece && accepted == old(accepted) + piece
      ensures pnc == old(pnc) + |piece| && pwx == Around(old(pwx) + |piece|)
    {
      hide Wrapped;
      ghost var d := data[..];
      forall i | 0 <= i < |piece| {
        data[pwx + i] := piece[i];
      }
      assert data[..] == d[..pwx] + piece + d[pwx + |piece|..];
      WrappedStore(d, data[..], prx, pnc, pwx, piece);
      pwx := pwx + |piece|;
      if pwx == PIPE_MAX {
        pwx := 0;
      }
      pnc := pnc + |piece|;
      accepted := accepted + piece;
      assert delivered + (Wrapped(d, prx, pnc - |piece|) + piece) == delivered + Wrapped(d, prx, pnc - |piece|) + piece;
    }

    // --------------------------------------------------------------------- any run

    /** A write fits unless there is not the room, or the room is split by the ring's end;
        an emptied pipe takes any write of at most PIPE_MAX bytes. */
    lemma {:induction false} FitsExactly(n: nat)
      requires Valid()
      ensures pnc <= PIPE_MAX && prx < PIPE_MAX && pwx < PIPE_MAX
      ensures Fits(n) <==> n <= PIPE_MAX - pnc && (prx + pnc >= PIPE_MAX || prx + pnc + n <= PIPE_MAX)
      ensures pnc == 0 ==> (Fits(n) <==> n <= PIPE_MAX)
    {
    }

    /** Which steps can happen. */
    predicate Enabled(e: Event)
      reads this
    {
      match e
      case OpenR(_) => true
      case OpenW(_) => true
      case OpenRW => true
      case ReopenR(_) => par > 0
      case ReopenW(_) => paw > 0
      case CloseIt(reader, writer) => (reader ==> par > 0) && (writer ==> paw > 0)
      case ReadIt(_, _, _) => par > 0
      case WriteIt(_, _, _) => paw > 0
      case WakeUp(reader) => (if reader then wokenReaders else wokenWriters) > 0
      case Interrupt(reader, opening) =>
        (if reader then (if opening then opensRead else readsAsleep)
         else (if opening then opensWrite else writesAsleep)) > 0
    }

    /** The steps that strand sleepers: an open given up by the last reader, or writer. */
    predicate Strands(e: Event)
      reads this
    {
      (e.ReopenR? && e.signalled && writesAsleep > 0 && par + psr == 1)
      || (e.ReopenW? && e.signalled && readsAsleep > 0 && paw + psw == 1)
    }

    /** One step; `got` was delivered to a reader, `put` came from a writer. */
    method Step(e: Event) returns (got: seq<byte>, put: seq<byte>, cleared: bool)
      requires Valid() && Enabled(e)
      modifies this, data
      ensures Valid() && (old(Attended()) ==> (Attended() <==> !old(Strands(e))))
      ensures old(NoneOverlooked()) ==>
                (NoneOverlooked() <==> !(e.WriteIt? && Overlooks(old(waits), old(pnc), old(pwx), |put|)))
      ensures !cleared ==> accepted == old(accepted) + put && delivered == old(delivered) + got
      ensures cleared ==> got == put == [] && accepted == delivered == Contents() == []
    {
      hide RingOK, SleepersOK, Attended, Contents;
      got, put, cleared := [], [], false;
      match e {
        case OpenR(nd) =>
          var r := OpenRead(nd);
        case OpenW(nd) =>
          var r := OpenWrite(nd);
        case OpenRW =>
          OpenBoth();
        case ReopenR(signalled) =>
          var r := ReopenRead(signalled);
        case ReopenW(signalled) =>
          var r := ReopenWrite(signalled);
        case CloseIt(reader, writer) =>
          Close(reader, writer);
          cleared := par + paw + psr + psw == 0;
        case ReadIt(count, nd, nb) =>
          var r;
          got, r := Read(count, nd, nb);
        case WriteIt(bytes, nd, nb) =>
          var k, r := Write(bytes, nd, nb);
          put := bytes[..k];
        case WakeUp(reader) =>
          if reader {
            ResumeReader();
          } else {
            ResumeWriter();
          }
        case Interrupt(reader, opening) =>
          if reader {
            SignalReader(opening);
          } else {
            SignalWriter(opening);
          }
      }
    }
  }

  /** One atomic step of some process. */
  datatype Event =
    | OpenR(noDelay: bool)
    | OpenW(noDelay: bool)
    | OpenRW
    | ReopenR(signalled: bool)
    | ReopenW(signalled: bool)
    | CloseIt(reader: bool, writer: bool)
    | ReadIt(count: nat, noDelay: bool, nonBlock: bool)
    | WriteIt(bytes: seq<byte>, noDelay: bool, nonBlock: bool)
    | WakeUp(reader: bool)
    | Interrupt(reader: bool, opening: bool)

  /** Any interleaving: what readers got, followed by what is in the ring, is what writers put
      since the pipe was last closed by everybody; no reader and writer are asleep in pread
      and pwrite at once, none sleeps unattended unless a given-up open stranded it, and none
      sleeps on a write that could go on unless another write went past the ring's end. */
  method Run(events: seq<Event>) returns (p: PipeNode, got: seq<byte>, put: seq<byte>, stranded: bool, ghost overlooked: bool)
    ensures p.Valid() && got + p.Contents() == put && p.pwx == (p.prx + p.pnc) % PIPE_MAX
    ensures !(p.readsAsleep > 0 && p.writesAsleep > 0)
    ensures !stranded ==> p.Attended()
    ensures !overlooked ==> p.NoneOverlooked()
  {
    hide PipeNode.Contents, PipeNode.Strands, PipeNode.Enabled, PipeNode.Overlooks, PipeNode.NoneGoesOn;
    p := new PipeNode();
    got, put, stranded, overlooked := [], [], false, false;
    for i := 0 to |events|
      invariant p.Valid() && fresh(p) && fresh(p.data)
      invariant got == p.delivered && put == p.accepted && (!stranded ==> p.Attended())
      invariant !overlooked ==> p.NoneOverlooked()
    {
      if p.Enabled(events[i]) {
        stranded := stranded || p.Strands(events[i]);
        ghost var waits, pnc, pwx := p.waits, p.pnc, p.pwx;
        var g, w, cleared := p.Step(events[i]);
        overlooked := overlooked || (events[i].WriteIt? && PipeNode.Overlooks(waits, pnc, pwx, |w|));
        if cleared {
          got, put := [], [];
        } else {
          got, put := got + g, put + w;
        }
      }
    }
  }

  // ---- the two ways to be stranded, and the one to be overlooked

  /** A reader opens and sleeps; a writer opens, fills the pipe and sleeps in pwrite with one more
      byte; a signal reaches the woken reader before it runs, and it gives up. */
  method StrandWriter() returns (p: PipeNode)
    ensures p.Valid() && p.writesAsleep == 1 && p.par + p.psr == 0 && p.wokenWriters == 0 && !p.Attended()
  {
    hide PipeNode.Contents, PipeNode.RingOK, PipeNode.NoneGoesOn, PipeNode.Overlooks;
    p := new PipeNode();
    var how := p.OpenRead(false);
    how := p.OpenWrite(false);
    EmptyRing(p);
    var k, r := p.Write(seq(PIPE_MAX, _ => 65), false, false);
    k, r := p.Write([66], false, false);
    p.ResumeReader();
    how := p.ReopenRead(true);
  }

  /** A writer opens and sleeps; a reader opens and sleeps in pread on the empty pipe; a signal
      reaches the woken writer before it runs, and it gives up. */
  method StrandReader() returns (p: PipeNode)
    ensures p.Valid() && p.readsAsleep == 1 && p.paw + p.psw == 0 && p.wokenReaders == 0 && !p.Attended()
  {
    hide PipeNode.Contents, PipeNode.RingOK, PipeNode.NoneGoesOn, PipeNode.Overlooks;
    p := new PipeNode();
    var how := p.OpenWrite(false);
    how := p.OpenRead(false);
    EmptyRing(p);
    var bytes, r := p.Read(1, false, false);
    p.ResumeWriter();
    how := p.ReopenWrite(true);
  }

  lemma EmptyRing(p: PipeNode)
    requires p.RingOK() && p.Contents() == []
    ensures p.pnc == p.prx == p.pwx == 0
  {
    assert |p.Contents()| == p.pnc;
  }

  /** With bytes 1000 to 4999 of the ring in use, a write of 500 sleeps; then a write of 120 ends
      at the ring's end, so that the 500 would fit, but its writer sleeps on. */
  method OverlookWriter() returns (p: PipeNode)
    ensures p.Valid() && p.writesAsleep == 1 && p.wokenWriters == 0 && p.waits == multiset{500}
    ensures p.prx == 1000 && p.pnc == 4120 && p.pwx == 0 && p.Fits(500) && !p.NoneOverlooked()
  {
    hide PipeNode.Contents, PipeNode.RingOK, PipeNode.Attended;
    p := new PipeNode();
    p.OpenBoth();
    p.OpenBoth();
    EmptyRing(p);
    var k, r := p.Write(seq(5000, _ => 65), false, false);
    p.RingFacts();
    var bytes, s := p.Read(1000, false, false);
    p.RingFacts();
    k, r := p.Write(seq(500, _ => 66), false, false);
    p.RingFacts();
    k, r := p.Write(seq(120, _ => 67), false, false);
    p.RingFacts();
    assert 500 in p.waits;
  }

  // ---- one long write among others

  /** a is b with some of its bytes left out. */
  ghost predicate InOrder(a: seq<byte>, b: seq<byte>) {
    a == [] ||
    (b != [] && (InOrder(a, b[..|b| - 1])
                 || (a[|a| - 1] == b[|b| - 1] && InOrder(a[..|a| - 1], b[..|b| - 1]))))
  }

  lemma {:induction false} InOrderMore(a: seq<byte>, b: seq<byte>, more: seq<byte>)
    requires InOrder(a, b)
    ensures InOrder(a, b + more)
  {
    if more == [] {
      assert b + more == b;
    } else {
      InOrderMore(a, b, more[..|more| - 1]);
      assert (b + more)[..|b + more| - 1] == b + more[..|more| - 1];
    }
  }

  lemma {:induction false} InOrderBoth(a: seq<byte>, b: seq<byte>, c: seq<byte>)
    requires InOrder(a, b)
    ensures InOrder(a + c, b + c)
  {
    if c == [] {
      assert a + c == a && b + c == b;
    } else {
      InOrderBoth(a, b, c[..|c| - 1]);
      assert (b + c)[..|b + c| - 1] == b + c[..|c| - 1] && (a + c)[..|a + c| - 1] == a + c[..|c| - 1];
    }
  }

  /** Steps of other processes while a writer sleeps. */
  method Others(p: PipeNode, events: seq<Event>) returns (put: seq<byte>, cleared: bool)
    requires p.Valid()
    modifies p, p.data
    ensures p.Valid() && (!cleared ==> p.accepted == old(p.accepted) + put)
  {
    hide PipeNode.Contents, PipeNode.RingOK, PipeNode.SleepersOK, PipeNode.Enabled, PipeNode.Attended;
    put, cleared := [], false;
    for i := 0 to |events|
      invariant p.Valid() && (!cleared ==> p.accepted == old(p.accepted) + put)
    {
      if p.Enabled(events[i]) {
        var g, w, c := p.Step(events[i]);
        put, cleared := put + w, cleared || c;
      }
    }
  }

  /** A whole pwrite, sleeps included, with the steps of others in between: the n bytes it has
      written have gone into the pipe in their order, and so they come out, since everything
      accepted is delivered in order. */
  method LongWrite(p: PipeNode, bytes: seq<byte>, between: seq<seq<Event>>) returns (n: nat, put: seq<byte>, cleared: bool)
    requires p.Valid() && p.paw > 0
    modifies p, p.data
    ensures p.Valid() && n <= |bytes| && InOrder(bytes[..n], put)
    ensures !cleared ==> p.accepted == old(p.accepted) + put && p.delivered + p.Contents() == p.accepted
  {
    hide PipeNode.Contents, PipeNode.SleepersOK, PipeNode.Attended, PipeNode.NoneGoesOn, PipeNode.Overlooks, InOrder;
    n, put, cleared := 0, [], false;
    assert InOrder([], []) by {
      NothingInOrder();
    }
    for i := 0 to |between|
      invariant p.Valid() && p.paw > 0 && n <= |bytes| && InOrder(bytes[..n], put)
      invariant !cleared ==> p.accepted == old(p.accepted) + put
    {
      var k, r := p.Write(bytes[n..], false, false);
      InOrderBoth(bytes[..n], put, bytes[n..][..k]);
      assert bytes[..n] + bytes[n..][..k] == bytes[..n + k];
      n, put := n + k, put + bytes[n..][..k];
      if r != MustSleep {
        return;
      }
      var more, c := Others(p, between[i]);
      InOrderMore(bytes[..n], put, more);
      put, cleared := put + more, cleared || c;
      if p.wokenWriters == 0 {
        return;
      }
      p.ResumeWriter();
    }
  }

  lemma NothingInOrder()
    ensures InOrder([], [])
  {}
}
