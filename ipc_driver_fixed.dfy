/**
 * The fixed-capacity driver (ipc_driver1.c): the same mailbox protocol over a
 * constant 1024-byte buffer, no ioctl, and statistics kept by every read.
 */
module IpcDriverFixed {
  import opened CTypes
  import opened Kernel
  import opened MailboxProtocol
  import NumberTheory

  /** `SHM_SIZE`. */
  const ShmSize: nat := 1024

  /** `unsigned long` counters wrap modulo 2^64. */
  const ULongModulus: int := 0x1_0000_0000_0000_0000

  /** The read statistics: `reads_count`, `total_bytes_read`, `max_read`, `min_read`. */
  datatype ReadStats = ReadStats(readsCount: nat, totalBytesRead: nat, maxRead: SizeT, minRead: SizeT)

  /** The statistics at module load. */
  const InitialStats: ReadStats := ReadStats(0, 0, 0, SizeMax)

  predicate StatsValid(s: ReadStats) {
    s.readsCount < ULongModulus && s.totalBytesRead < ULongModulus
  }

  /** The bookkeeping at the top of `device_read(len)`, done before the data check. */
  function RecordRead(s: ReadStats, len: SizeT): (t: ReadStats)
    ensures t.maxRead == if len > s.maxRead then len else s.maxRead
    ensures t.minRead == if len < s.minRead then len else s.minRead
    ensures t.readsCount == (s.readsCount + 1) % ULongModulus
    ensures t.totalBytesRead == (s.totalBytesRead + len) % ULongModulus
  {
    ReadStats(
      (s.readsCount + 1) % ULongModulus,
      (s.totalBytesRead + len) % ULongModulus,
      if len > s.maxRead then len else s.maxRead,
      if len < s.minRead then len else s.minRead)
  }

  /** The statistics after reads of the given lengths, in order. */
  function RecordReads(s: ReadStats, lens: seq<SizeT>): ReadStats
    decreases |lens|
  {
    if lens == [] then s else RecordReads(RecordRead(s, lens[0]), lens[1..])
  }

  function Sum(lens: seq<SizeT>): nat
    decreases |lens|
  {
    if lens == [] then 0 else lens[0] + Sum(lens[1..])
  }

  lemma ModAddMod(a: int, b: int, m: int)
    requires m > 0
    ensures (a % m + b) % m == (a + b) % m
  {
    var q := a / m;
    assert a == m * q + a % m;
    assert a + b == (a % m + b) + m * q;
    NumberTheory.ModOfMultiplePlus(a % m + b, q, m);
  }

  /**
   * After any sequence of reads, `max_read` is at least and `min_read` at most
   * every requested length, each is one of them (or its start value), and the
   * counters are the number of reads and the sum of the lengths modulo 2^64.
   */
  lemma {:induction false} RecordReadsSpec(s: ReadStats, lens: seq<SizeT>)
    requires StatsValid(s)
    ensures var t := RecordReads(s, lens);
            && (forall i :: 0 <= i < |lens| ==> t.minRead <= lens[i] <= t.maxRead)
            && s.maxRead <= t.maxRead && t.minRead <= s.minRead
            && (t.maxRead == s.maxRead || t.maxRead in lens)
            && (t.minRead == s.minRead || t.minRead in lens)
            && t.readsCount == (s.readsCount + |lens|) % ULongModulus
            && t.totalBytesRead == (s.totalBytesRead + Sum(lens)) % ULongModulus
    decreases |lens|
  {
    if lens != [] {
      var s' := RecordRead(s, lens[0]);
      RecordReadsSpec(s', lens[1..]);
      ModAddMod(s.readsCount + 1, |lens| - 1, ULongModulus);
      ModAddMod(s.totalBytesRead + lens[0], Sum(lens[1..]), ULongModulus);
      var t := RecordReads(s, lens);
      forall i | 0 <= i < |lens|
        ensures t.minRead <= lens[i] <= t.maxRead
      {
        if i > 0 {
          assert lens[i] == lens[1..][i - 1];
        }
      }
      assert t.maxRead == s'.maxRead || t.maxRead in lens[1..];
      assert t.minRead == s'.minRead || t.minRead in lens[1..];
    }
  }

  /**
   * From module load, `max_read` is the largest and `min_read` the smallest
   * length requested so far (SIZE_MAX and 0 before the first read).
   */
  lemma StatsFromLoad(lens: seq<SizeT>)
    ensures var t := RecordReads(InitialStats, lens);
            && (forall i :: 0 <= i < |lens| ==> t.minRead <= lens[i] <= t.maxRead)
            && (|lens| > 0 ==> t.maxRead in lens && t.minRead in lens)
            && t.readsCount == |lens| % ULongModulus
  {
    RecordReadsSpec(InitialStats, lens);
    var t := RecordReads(InitialStats, lens);
    if |lens| > 0 {
      assert lens[0] <= t.maxRead && t.minRead <= lens[0];
      if t.maxRead == 0 {
        assert lens[0] == 0;
      }
      if t.minRead == SizeMax {
        assert lens[0] == SizeMax;
      }
    }
  }

  /** The module globals of ipc_driver1.c. */
  class FixedDevice {
    const sharedMem: array<Byte>
    var dataWritten: int
    var readersRemaining: int
    const rwSem: Semaphore
    var readsCount: nat
    var totalBytesRead: nat
    var maxRead: SizeT
    var minRead: SizeT

    /** The globals as a protocol state. */
    ghost function State(): Mailbox
      reads this, sharedMem, rwSem
    {
      Mailbox(sharedMem[..], dataWritten, readersRemaining, rwSem.count)
    }

    ghost function Stats(): ReadStats
      reads this
    {
      ReadStats(readsCount, totalBytesRead, maxRead, minRead)
    }

    ghost predicate Valid()
      reads this, sharedMem, rwSem
    {
      sharedMem.Length == ShmSize && Inv(State()) && StatsValid(Stats())
    }

    /** The initialised globals over a freshly allocated `SHM_SIZE` buffer. */
    constructor ()
      ensures Valid() && fresh(sharedMem) && fresh(rwSem)
      ensures State() == Initial(sharedMem[..]) && Stats() == InitialStats
    {
      sharedMem := new Byte[ShmSize];
      dataWritten := 0;
      readersRemaining := ReadersPerCycle;
      rwSem := new Semaphore(MaxReaderCount);
      readsCount, totalBytesRead, maxRead, minRead := 0, 0, 0, SizeMax;
    }

    /**
     * `device_read(len)` into a user buffer with room for `room` bytes: the
     * statistics record len whatever happens next.
     */
    method Read(len: SizeT, room: nat) returns (ret: int, data: seq<Byte>)
      requires Valid()
      modifies this, rwSem
      ensures Valid()
      ensures Stats() == RecordRead(old(Stats()), len)
      ensures var r := MailboxProtocol.Read(old(State()), len, room);
              State() == r.next && ret == r.ret && data == r.data
    {
      var bytesToRead := Min(len, ShmSize);
      if len > maxRead {
        maxRead := len;
      }
      if len < minRead {
        minRead := len;
      }
      readsCount := (readsCount + 1) % ULongModulus;
      totalBytesRead := (totalBytesRead + len) % ULongModulus;
      if dataWritten == 0 {
        return 0, [];
      }
      var rc := rwSem.DownInterruptible();
      if rc != 0 {
        return -EINTR, [];
      }
      if room < bytesToRead {
        data := sharedMem[..room];
        rwSem.Up();
        return -EFAULT, data;
      }
      data := sharedMem[..bytesToRead];
      readersRemaining := readersRemaining - 1;
      if readersRemaining <= 0 {
        dataWritten := 0;
        readersRemaining := ReadersPerCycle;
      }
      rwSem.Up();
      ret := bytesToRead;
    }

    /** `device_write(len)` from user memory whose readable bytes are `user`. */
    method Write(user: seq<Byte>, len: SizeT) returns (ret: int)
      requires Valid()
      modifies this, sharedMem, rwSem
      ensures Valid()
      ensures Stats() == old(Stats())
      ensures var w := MailboxProtocol.Write(old(State()), user, len);
              State() == w.next && ret == w.ret
    {
      var bytesToWrite := Min(len, ShmSize);
      var i := 0;
      while i < MaxReaderCount
        invariant 0 <= i <= MaxReaderCount
        invariant i <= old(rwSem.count) && rwSem.count == old(rwSem.count) - i
        modifies rwSem
      {
        var rc := rwSem.DownInterruptible();
        if rc != 0 {
          return -EINTR;
        }
        i := i + 1;
      }
      var notCopied := CopyFromUser(sharedMem, user, bytesToWrite);
      if notCopied != 0 {
        rwSem.Up();
        return -EFAULT;
      }
      dataWritten := 1;
      Memset(sharedMem, bytesToWrite, ShmSize - bytesToWrite);
      assert sharedMem[..] == user[..bytesToWrite] + Zeros(ShmSize - bytesToWrite);
      i := 0;
      while i < MaxReaderCount
        invariant 0 <= i <= MaxReaderCount
        invariant rwSem.count == old(rwSem.count) - MaxReaderCount + i
        modifies rwSem
      {
        rwSem.Up();
        i := i + 1;
      }
      ret := bytesToWrite;
    }
  }

  /**
   * Reads and writes move exactly min(len, 1024) bytes when they succeed,
   * since the capacity never changes.
   */
  lemma TransfersAreBounded(m: Mailbox, user: seq<Byte>, wlen: SizeT, len: SizeT, room: nat)
    requires |m.mem| == ShmSize
    ensures var w := MailboxProtocol.Write(m, user, wlen);
            w.ret >= 0 ==> w.ret == Min(wlen, 1024) && |w.next.mem| == ShmSize
    ensures var r := MailboxProtocol.Read(m, len, room);
            ReadSucceeds(m, len, room) ==> r.ret == Min(len, 1024) && |r.data| == r.ret
  {
  }
}
