/**
 * The single-slot mailbox protocol shared by both drivers, as a pure state
 * machine. A writer stores one message, which is then handed to three
 * successful reads (one read cycle) before reads report "no data" again.
 * A semaphore with four permits keeps writers and readers apart: a read
 * holds one permit while it copies, a write holds all four.
 */
module MailboxProtocol {
  import opened CTypes
  import opened Kernel

  /** `MAX_READER_COUNT`: the permits of `rw_sem`, all of which a write takes. */
  const MaxReaderCount: nat := 4
  /** The start value of `readers_remaining`: the successful reads a message serves. */
  const ReadersPerCycle: int := 3

  /**
   * The driver's globals between two calls: the buffer `shared_mem` (its
   * length is the capacity), `data_written`, `readers_remaining` and the free
   * permits of `rw_sem`.
   */
  datatype Mailbox = Mailbox(mem: seq<Byte>, dataWritten: int, readersRemaining: int, permits: nat)

  /** What holds between any two calls. */
  predicate Inv(m: Mailbox) {
    && (m.dataWritten == 0 || m.dataWritten == 1)
    && 1 <= m.readersRemaining <= ReadersPerCycle
    && m.permits <= MaxReaderCount
  }

  /** The state after module initialisation over a freshly allocated buffer. */
  function Initial(mem: seq<Byte>): (m: Mailbox)
    ensures Inv(m) && m.permits == MaxReaderCount
    ensures m.dataWritten == 0 && m.readersRemaining == ReadersPerCycle
  {
    Mailbox(mem, 0, ReadersPerCycle, MaxReaderCount)
  }

  /** A read may proceed past the semaphore and complete its copy. */
  predicate ReadSucceeds(m: Mailbox, len: SizeT, room: nat) {
    m.dataWritten != 0 && m.permits > 0 && room >= Min(len, |m.mem|)
  }

  /** The read-cycle bookkeeping after one successful read. */
  function EndOfRead(m: Mailbox): (n: Mailbox)
    ensures n.mem == m.mem && n.permits == m.permits
    ensures m.readersRemaining > 1 ==> n == m.(readersRemaining := m.readersRemaining - 1)
    ensures m.readersRemaining <= 1 ==> n.dataWritten == 0 && n.readersRemaining == ReadersPerCycle
  {
    var left := m.readersRemaining - 1;
    if left <= 0 then m.(dataWritten := 0, readersRemaining := ReadersPerCycle)
    else m.(readersRemaining := left)
  }

  datatype ReadOutcome = ReadOutcome(next: Mailbox, ret: int, data: seq<Byte>)

  /**
   * `device_read(len)` into a user buffer with room for `room` bytes:
   * `data` is what reaches the user buffer, `ret` the return value.
   */
  function Read(m: Mailbox, len: SizeT, room: nat): (r: ReadOutcome)
    ensures r.next.mem == m.mem && r.next.permits == m.permits
    ensures m.dataWritten == 0 ==> r.ret == 0 && r.next == m && r.data == []
    ensures r.ret == -EINTR <==> m.dataWritten != 0 && m.permits == 0
    ensures r.ret == -EFAULT <==> m.dataWritten != 0 && m.permits > 0 && room < Min(len, |m.mem|)
    ensures r.ret < 0 ==> r.next == m
    ensures r.ret == -EFAULT ==> r.data == m.mem[..room]
    ensures ReadSucceeds(m, len, room) ==>
              r.ret == Min(len, |m.mem|) && r.data == m.mem[..r.ret] && r.next == EndOfRead(m)
    ensures Inv(m) ==> Inv(r.next)
  {
    var n := Min(len, |m.mem|);
    if m.dataWritten == 0 then ReadOutcome(m, 0, [])
    else if m.permits == 0 then ReadOutcome(m, -EINTR, [])
    else if room < n then ReadOutcome(m, -EFAULT, m.mem[..room])
    else ReadOutcome(EndOfRead(m), n, m.mem[..n])
  }

  datatype WriteOutcome = WriteOutcome(next: Mailbox, ret: int)

  /**
   * `device_write(len)` from user memory of which the bytes `user` are
   * readable, as written: an interrupted acquisition returns still holding
   * the permits it took, and a failed copy returns only one of the four.
   */
  function Write(m: Mailbox, user: seq<Byte>, len: SizeT): (r: WriteOutcome)
    ensures |r.next.mem| == |m.mem|
    ensures r.next.readersRemaining == m.readersRemaining
    ensures r.next.permits <= m.permits
    ensures r.ret == -EINTR <==> m.permits < MaxReaderCount
    ensures r.ret == -EINTR ==> r.next == m.(permits := 0)
    ensures r.ret == -EFAULT <==> m.permits >= MaxReaderCount && |user| < Min(len, |m.mem|)
    ensures r.ret == -EFAULT ==>
              r.next.permits == m.permits - 3 && r.next.dataWritten == m.dataWritten
              && r.next.mem == UserCopy(m.mem, user, Min(len, |m.mem|))
    ensures m.permits >= MaxReaderCount && |user| >= Min(len, |m.mem|) ==> r.ret == Min(len, |m.mem|)
    ensures r.ret >= 0 ==>
              && r.ret == Min(len, |m.mem|)
              && r.next.permits == m.permits
              && r.next.dataWritten == 1
              && r.next.mem[..r.ret] == user[..r.ret]
              && (forall i :: r.ret <= i < |m.mem| ==> r.next.mem[i] == 0)
    ensures Inv(m) ==> Inv(r.next)
  {
    var n := Min(len, |m.mem|);
    if m.permits < MaxReaderCount then
      WriteOutcome(m.(permits := 0), -EINTR)
    else if |user| < n then
      WriteOutcome(m.(mem := UserCopy(m.mem, user, n), permits := m.permits - MaxReaderCount + 1), -EFAULT)
    else
      WriteOutcome(m.(mem := user[..n] + Zeros(|m.mem| - n), dataWritten := 1), n)
  }

  /**
   * `device_write` with its error paths corrected: every permit taken is
   * given back before an error is returned.
   */
  function WriteWithRollback(m: Mailbox, user: seq<Byte>, len: SizeT): (r: WriteOutcome)
    ensures r.next.permits == m.permits
    ensures var w := Write(m, user, len); r.ret == w.ret && r.next == w.next.(permits := m.permits)
    ensures Inv(m) ==> Inv(r.next)
  {
    var n := Min(len, |m.mem|);
    if m.permits < MaxReaderCount then
      WriteOutcome(m, -EINTR)
    else if |user| < n then
      WriteOutcome(m.(mem := UserCopy(m.mem, user, n)), -EFAULT)
    else
      WriteOutcome(m.(mem := user[..n] + Zeros(|m.mem| - n), dataWritten := 1), n)
  }

  // ---------------------------------------------------------------------------
  // Sequences of calls

  datatype Op = ReadOp(len: SizeT, room: nat) | WriteOp(user: seq<Byte>, wlen: SizeT)

  /** The state after a sequence of calls and the value each call returned. */
  datatype Trace = Trace(final: Mailbox, rets: seq<int>)

  /** The calls of ops, one after the other, with the driver's write as written. */
  function Run(m: Mailbox, ops: seq<Op>): (t: Trace)
    ensures |t.rets| == |ops|
    ensures |t.final.mem| == |m.mem|
    ensures t.final.permits <= m.permits
    ensures Inv(m) ==> Inv(t.final)
    decreases |ops|
  {
    if ops == [] then Trace(m, [])
    else
      var (next, ret) := match ops[0]
        case ReadOp(len, room) => var r := Read(m, len, room); (r.next, r.ret)
        case WriteOp(user, len) => var w := Write(m, user, len); (w.next, w.ret);
      var rest := Run(next, ops[1..]);
      Trace(rest.final, [ret] + rest.rets)
  }

  /** The calls of ops with the corrected write. */
  function RunWithRollback(m: Mailbox, ops: seq<Op>): (t: Trace)
    ensures |t.rets| == |ops|
    ensures t.final.permits == m.permits
    ensures Inv(m) ==> Inv(t.final)
    decreases |ops|
  {
    if ops == [] then Trace(m, [])
    else
      var (next, ret) := match ops[0]
        case ReadOp(len, room) => var r := Read(m, len, room); (r.next, r.ret)
        case WriteOp(user, len) => var w := WriteWithRollback(m, user, len); (w.next, w.ret);
      var rest := RunWithRollback(next, ops[1..]);
      Trace(rest.final, [ret] + rest.rets)
  }

  /** k reads of len bytes each into a buffer with room for `room` bytes. */
  function Reads(k: nat, len: SizeT, room: nat): (ops: seq<Op>)
    ensures |ops| == k && forall i :: 0 <= i < k ==> ops[i] == ReadOp(len, room)
  {
    seq(k, _ => ReadOp(len, room))
  }

  // ---------------------------------------------------------------------------
  // The read cycle

  /**
   * Once a message is stored, exactly `readers_remaining` reads succeed with
   * min(len, capacity) bytes; every later read finds no data and returns 0.
   */
  lemma {:induction false} ReadCycle(m: Mailbox, k: nat, len: SizeT, room: nat)
    requires Inv(m) && m.dataWritten == 1 && m.permits > 0 && room >= Min(len, |m.mem|)
    ensures Run(m, Reads(k, len, room)).rets
            == seq(k, i => if i < m.readersRemaining then Min(len, |m.mem|) else 0)
    ensures k >= m.readersRemaining ==> Run(m, Reads(k, len, room)).final.dataWritten == 0
    decreases k
  {
    if k > 0 {
      var ops := Reads(k, len, room);
      var r := Read(m, len, room);
      assert ops[1..] == Reads(k - 1, len, room);
      if m.readersRemaining > 1 {
        ReadCycle(r.next, k - 1, len, room);
      } else {
        NoDataReads(r.next, k - 1, len, room);
      }
    }
  }

  /** Without data every read returns 0 and changes nothing. */
  lemma {:induction false} NoDataReads(m: Mailbox, k: nat, len: SizeT, room: nat)
    requires m.dataWritten == 0
    ensures Run(m, Reads(k, len, room)) == Trace(m, seq(k, _ => 0))
    decreases k
  {
    if k > 0 {
      assert Reads(k, len, room)[1..] == Reads(k - 1, len, room);
      NoDataReads(m, k - 1, len, room);
    }
  }

  /**
   * A successful write at the start of a cycle is served to exactly three
   * reads.
   */
  lemma ThreeReadsPerMessage(m: Mailbox, user: seq<Byte>, wlen: SizeT, k: nat, len: SizeT, room: nat)
    requires Inv(m) && m.readersRemaining == ReadersPerCycle && m.permits == MaxReaderCount
    requires |user| >= Min(wlen, |m.mem|) && room >= Min(len, |m.mem|)
    ensures Run(m, [WriteOp(user, wlen)] + Reads(k, len, room)).rets
            == [Min(wlen, |m.mem|)] + seq(k, i => if i < 3 then Min(len, |m.mem|) else 0)
  {
    var ops := [WriteOp(user, wlen)] + Reads(k, len, room);
    assert ops[1..] == Reads(k, len, room);
    ReadCycle(Write(m, user, wlen).next, k, len, room);
  }

  /**
   * A write does not restart the read cycle: a message written after two of
   * the three reads of the previous one is served to one read only.
   */
  lemma MidCycleWrite(m: Mailbox, user: seq<Byte>, wlen: SizeT, k: nat, len: SizeT, room: nat)
    requires Inv(m) && m.readersRemaining == 1 && m.permits == MaxReaderCount
    requires |user| >= Min(wlen, |m.mem|) && room >= Min(len, |m.mem|)
    ensures Run(m, [WriteOp(user, wlen)] + Reads(k, len, room)).rets
            == [Min(wlen, |m.mem|)] + seq(k, i => if i < 1 then Min(len, |m.mem|) else 0)
  {
    var ops := [WriteOp(user, wlen)] + Reads(k, len, room);
    assert ops[1..] == Reads(k, len, room);
    ReadCycle(Write(m, user, wlen).next, k, len, room);
  }

  // ---------------------------------------------------------------------------
  // The permit leak of the write path

  /**
   * Once a write has lost permits, no later write succeeds: each one returns
   * -EINTR, whatever the calls in between.
   */
  lemma {:induction false} LeakIsPermanent(m: Mailbox, ops: seq<Op>)
    requires m.permits < MaxReaderCount
    ensures forall i :: 0 <= i < |ops| && ops[i].WriteOp? ==> Run(m, ops).rets[i] == -EINTR
    decreases |ops|
  {
    if ops != [] {
      var next := match ops[0]
        case ReadOp(l, r) => Read(m, l, r).next
        case WriteOp(u, l) => Write(m, u, l).next;
      LeakIsPermanent(next, ops[1..]);
    }
  }

  /**
   * With every permit lost and a message stored, the device is stuck: each
   * call returns -EINTR and nothing changes any more.
   */
  lemma {:induction false} Wedged(m: Mailbox, ops: seq<Op>)
    requires m.permits == 0 && m.dataWritten == 1
    ensures Run(m, ops) == Trace(m, seq(|ops|, _ => -EINTR))
    decreases |ops|
  {
    if ops != [] {
      Wedged(m, ops[1..]);
    }
  }

  /**
   * One write whose user buffer faults leaves one permit; the next write
   * takes it and is interrupted holding it, and from then on every read of
   * the stored message fails with -EINTR.
   */
  lemma FaultingWriteWedgesDevice(mem: seq<Byte>)
    requires |mem| == 1024
    ensures var ops := [WriteOp([104, 105], 2), WriteOp([], 5), ReadOp(2, 2), WriteOp([120], 1), ReadOp(2, 2)];
            var t := Run(Initial(mem), ops);
            t.rets == [2, -EFAULT, 2, -EINTR, -EINTR] && t.final.permits == 0
  {
    var ops := [WriteOp([104, 105], 2), WriteOp([], 5), ReadOp(2, 2), WriteOp([120], 1), ReadOp(2, 2)];
    var m0 := Initial(mem);
    var m1 := Write(m0, [104, 105], 2).next;
    var m2 := Write(m1, [], 5).next;
    var m3 := Read(m2, 2, 2).next;
    var m4 := Write(m3, [120], 1).next;
    assert m2.permits == 1 && m2.dataWritten == 1;
    assert m4.permits == 0 && m4.dataWritten == 1;
    assert ops[1..][1..][1..][1..] == [ReadOp(2, 2)];
    assert ops[1..][1..][1..] == [WriteOp([120], 1), ReadOp(2, 2)];
    assert ops[1..][1..] == [ReadOp(2, 2), WriteOp([120], 1), ReadOp(2, 2)];
    assert ops[1..] == [WriteOp([], 5), ReadOp(2, 2), WriteOp([120], 1), ReadOp(2, 2)];
  }

  /** With the corrected write, the permit pool is never depleted between calls. */
  lemma {:induction false} RollbackKeepsWritesWorking(m: Mailbox, ops: seq<Op>)
    requires Inv(m) && m.permits == MaxReaderCount
    ensures forall i :: 0 <= i < |ops| && ops[i].WriteOp? && |ops[i].user| >= Min(ops[i].wlen, |m.mem|) ==>
              RunWithRollback(m, ops).rets[i] == Min(ops[i].wlen, |m.mem|)
    decreases |ops|
  {
    if ops != [] {
      var next := match ops[0]
        case ReadOp(l, r) => Read(m, l, r).next
        case WriteOp(u, l) => WriteWithRollback(m, u, l).next;
      assert |next.mem| == |m.mem| && next.permits == MaxReaderCount && Inv(next);
      RollbackKeepsWritesWorking(next, ops[1..]);
    }
  }
}
