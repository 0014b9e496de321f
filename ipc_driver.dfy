/**
 * The resizable-buffer driver (ipc_driver.c): the mailbox globals as a
 * `Device` object, `device_read`, `device_write` and `device_ioctl`.
 */
module IpcDriver {
  import opened CTypes
  import opened Kernel
  import opened MailboxProtocol
  import NumberTheory

  /** The start value of `shm_size`. */
  const DefaultShmSize: nat := 1024
  /** The largest size `IOCTL_SET_SHM_SIZE` accepts. */
  const MaxShmSize: nat := 1024 * 10
  /** `MAJOR_DEVICE_NUMBER`, the ioctl type of the driver's commands. */
  const MajorDeviceNumber: nat := 42

  /** `_IOC(dir, type, nr, size)` of asm-generic/ioctl.h. */
  function IoctlCode(dir: nat, typ: nat, nr: nat, size: nat): (c: nat)
    requires dir < 4 && typ < 0x100 && nr < 0x100 && size < 0x4000
    ensures c < 0x1_0000_0000
    ensures c % 0x100 == nr && c / 0x100 % 0x100 == typ
  {
    var high := dir * 0x40_0000 + size * 0x100 + typ;
    NumberTheory.DivModUnique(high * 0x100 + nr, 0x100, high, nr);
    NumberTheory.DivModUnique(high, 0x100, dir * 0x4000 + size, typ);
    dir * 0x4000_0000 + size * 0x1_0000 + typ * 0x100 + nr
  }

  /** `_IOR(42, 0, int)`. */
  const IoctlGetShmSize: UInt32 := IoctlCode(2, MajorDeviceNumber, 0, 4)
  /** `_IOW(42, 1, int)`. */
  const IoctlSetShmSize: UInt32 := IoctlCode(1, MajorDeviceNumber, 1, 4)
  /** `_IOR(42, 2, int)`. */
  const IoctlGetReaderCount: UInt32 := IoctlCode(2, MajorDeviceNumber, 2, 4)
  /** `_IOR(42, 3, int)`. */
  const IoctlGetCurrentBufferSize: UInt32 := IoctlCode(2, MajorDeviceNumber, 3, 4)

  predicate KnownCommand(cmd: UInt32) {
    cmd == IoctlGetShmSize || cmd == IoctlSetShmSize
    || cmd == IoctlGetReaderCount || cmd == IoctlGetCurrentBufferSize
  }

  /**
   * What `device_ioctl` does: its return value, the new buffer size when it
   * reallocates the buffer, and the `int` it stores through the user pointer.
   */
  datatype IoctlOutcome = IoctlOutcome(ret: int, newSize: Option<nat>, stored: Option<Int32>)

  /**
   * `device_ioctl(cmd, arg)`. `user` is the `int` at the user pointer arg, or
   * None when that address cannot be accessed; `curLen` is the length the
   * driver reports for the stored string.
   */
  function IoctlDispatch(cmd: UInt32, user: Option<Int32>, shmSize: nat, curLen: nat): (r: IoctlOutcome)
    ensures r.ret == 0 || r.ret == -EFAULT || r.ret == -EINVAL
    ensures !KnownCommand(cmd) ==> r == IoctlOutcome(-EINVAL, None, None)
    ensures KnownCommand(cmd) && user.None? ==> r == IoctlOutcome(-EFAULT, None, None)
    ensures r.newSize.Some? <==> cmd == IoctlSetShmSize && user.Some? && 0 < user.value <= MaxShmSize
    ensures r.newSize.Some? ==> r.newSize.value == user.value && r.ret == 0
    ensures cmd == IoctlSetShmSize && user.Some? && !(0 < user.value <= MaxShmSize) ==> r.ret == -EINVAL
    ensures r.stored.Some? <==> KnownCommand(cmd) && cmd != IoctlSetShmSize && user.Some?
    ensures cmd == IoctlGetShmSize && user.Some? ==> r.stored == Some(IntOfSize(shmSize))
    ensures cmd == IoctlGetReaderCount && user.Some? ==> r.stored == Some(MaxReaderCount as Int32)
    ensures cmd == IoctlGetCurrentBufferSize && user.Some? ==> r.stored == Some(IntOfSize(curLen))
    ensures r.stored.Some? ==> r.ret == 0
  {
    if cmd == IoctlGetShmSize then
      if user.None? then IoctlOutcome(-EFAULT, None, None)
      else IoctlOutcome(0, None, Some(IntOfSize(shmSize)))
    else if cmd == IoctlSetShmSize then
      if user.None? then IoctlOutcome(-EFAULT, None, None)
      else if 0 < user.value <= MaxShmSize then IoctlOutcome(0, Some(user.value), None)
      else IoctlOutcome(-EINVAL, None, None)
    else if cmd == IoctlGetReaderCount then
      if user.None? then IoctlOutcome(-EFAULT, None, None)
      else IoctlOutcome(0, None, Some(MaxReaderCount as Int32))
    else if cmd == IoctlGetCurrentBufferSize then
      if user.None? then IoctlOutcome(-EFAULT, None, None)
      else IoctlOutcome(0, None, Some(IntOfSize(curLen)))
    else
      IoctlOutcome(-EINVAL, None, None)
  }

  /**
   * The length `IOCTL_GET_CURRENT_BUFFER_SIZE` reports: the number of bytes
   * before the first zero byte, scanning no further than the buffer's end.
   */
  function BufferStringLength(mem: seq<Byte>): (n: nat)
    ensures n <= |mem|
    ensures forall i :: 0 <= i < n ==> mem[i] != 0
    ensures n < |mem| ==> mem[n] == 0
  {
    Strnlen(mem, |mem|)
  }

  /**
   * After a successful write of n bytes, the reported length is the length of
   * the string in those n bytes: the zeroed tail ends it, so it is at most n.
   */
  lemma BufferStringLengthAfterWrite(m: Mailbox, user: seq<Byte>, len: SizeT)
    requires MailboxProtocol.Write(m, user, len).ret >= 0
    ensures var w := MailboxProtocol.Write(m, user, len);
            BufferStringLength(w.next.mem) == Strnlen(user[..w.ret], w.ret) <= w.ret
  {
    var w := MailboxProtocol.Write(m, user, len);
    var n := w.ret;
    var k := Strnlen(user[..n], n);
    assert forall i :: 0 <= i < k ==> w.next.mem[i] == user[..n][i];
    if k < n {
      assert w.next.mem[k] == user[..n][k];
    }
    StrnlenUnique(w.next.mem, |w.next.mem|, k);
  }

  /**
   * `strlen(shared_mem)` needs a zero byte in the buffer, but a write that
   * fills the whole buffer with non-zero bytes leaves none: strlen then reads
   * past the end of the allocation.
   */
  lemma FullWriteLeavesNoTerminator(m: Mailbox, user: seq<Byte>)
    requires m.permits == MaxReaderCount && |user| == |m.mem| <= MaxShmSize
    requires forall i :: 0 <= i < |user| ==> user[i] != 0
    ensures var w := MailboxProtocol.Write(m, user, |user|);
            w.ret == |m.mem| && 0 !in w.next.mem
  {
    var w := MailboxProtocol.Write(m, user, |user|);
    assert w.next.mem == w.next.mem[..w.ret];
  }

  /** The module globals of ipc_driver.c. */
  class Device {
    var shmSize: SizeT
    var sharedMem: array<Byte>
    var dataWritten: int
    var readersRemaining: int
    const rwSem: Semaphore

    /** The globals as a protocol state. */
    ghost function State(): Mailbox
      reads this, sharedMem, rwSem
    {
      Mailbox(sharedMem[..], dataWritten, readersRemaining, rwSem.count)
    }

    ghost predicate Valid()
      reads this, sharedMem, rwSem
    {
      sharedMem.Length == shmSize && 0 < shmSize <= MaxShmSize && Inv(State())
    }

    /** The initialised globals over a freshly allocated 1024-byte buffer. */
    constructor ()
      ensures Valid() && fresh(sharedMem) && fresh(rwSem)
      ensures shmSize == DefaultShmSize && State() == Initial(sharedMem[..])
    {
      shmSize := DefaultShmSize;
      sharedMem := new Byte[DefaultShmSize];
      dataWritten := 0;
      readersRemaining := ReadersPerCycle;
      rwSem := new Semaphore(MaxReaderCount);
    }

    /** `device_read(len)` into a user buffer with room for `room` bytes. */
    method Read(len: SizeT, room: nat) returns (ret: int, data: seq<Byte>)
      requires Valid()
      modifies this, rwSem
      ensures Valid()
      ensures var r := MailboxProtocol.Read(old(State()), len, room);
              State() == r.next && ret == r.ret && data == r.data
      ensures shmSize == old(shmSize) && sharedMem == old(sharedMem)
    {
      var bytesToRead := Min(len, shmSize);
      if dataWritten == 0 {
        return 0, [];
      }
      var rc := rwSem.DownInterruptible();
      if rc != 0 {
        return -EINTR, [];
      }
      if room < bytesToRead {
        data := sharedMem[..room];
        rwSem.Up();
        return -EFAULT, data;
      }
      data := sharedMem[..bytesToRead];
      readersRemaining := readersRemaining - 1;
      if readersRemaining <= 0 {
        dataWritten := 0;
        readersRemaining := ReadersPerCycle;
      }
      rwSem.Up();
      ret := bytesToRead;
    }

    /** `device_write(len)` from user memory whose readable bytes are `user`. */
    method Write(user: seq<Byte>, len: SizeT) returns (ret: int)
      requires Valid()
      modifies this, sharedMem, rwSem
      ensures Valid()
      ensures var w := MailboxProtocol.Write(old(State()), user, len);
              State() == w.next && ret == w.ret
      ensures shmSize == old(shmSize) && sharedMem == old(sharedMem)
    {
      var bytesToWrite := Min(len, shmSize);
      var i := 0;
      while i < MaxReaderCount
        invariant 0 <= i <= MaxReaderCount
        invariant i <= old(rwSem.count) && rwSem.count == old(rwSem.count) - i
        modifies rwSem
      {
        var rc := rwSem.DownInterruptible();
        if rc != 0 {
          return -EINTR;
        }
        i := i + 1;
      }
      var notCopied := CopyFromUser(sharedMem, user, bytesToWrite);
      if notCopied != 0 {
        rwSem.Up();
        return -EFAULT;
      }
      dataWritten := 1;
      Memset(sharedMem, bytesToWrite, shmSize - bytesToWrite);
      assert sharedMem[..] == user[..bytesToWrite] + Zeros(shmSize - bytesToWrite);
      i := 0;
      while i < MaxReaderCount
        invariant 0 <= i <= MaxReaderCount
        invariant rwSem.count == old(rwSem.count) - MaxReaderCount + i
        modifies rwSem
      {
        rwSem.Up();
        i := i + 1;
      }
      ret := bytesToWrite;
    }

    /**
     * `device_write` with its error paths corrected: the permits already
     * taken are given back before -EINTR or -EFAULT is returned.
     */
    method WriteWithRollback(user: seq<Byte>, len: SizeT) returns (ret: int)
      requires Valid()
      modifies this, sharedMem, rwSem
      ensures Valid()
      ensures var w := MailboxProtocol.WriteWithRollback(old(State()), user, len);
              State() == w.next && ret == w.ret
      ensures shmSize == old(shmSize) && sharedMem == old(sharedMem)
    {
      var bytesToWrite := Min(len, shmSize);
      var i := 0;
      while i < MaxReaderCount
        invariant 0 <= i <= MaxReaderCount
        invariant i <= old(rwSem.count) && rwSem.count == old(rwSem.count) - i
        modifies rwSem
      {
        var rc := rwSem.DownInterruptible();
        if rc != 0 {
          var j := 0;
          while j < i
            invariant 0 <= j <= i
            invariant rwSem.count == j
            modifies rwSem
          {
            rwSem.Up();
            j := j + 1;
          }
          return -EINTR;
        }
        i := i + 1;
      }
      var notCopied := CopyFromUser(sharedMem, user, bytesToWrite);
      if notCopied == 0 {
        dataWritten := 1;
        Memset(sharedMem, bytesToWrite, shmSize - bytesToWrite);
        assert sharedMem[..] == user[..bytesToWrite] + Zeros(shmSize - bytesToWrite);
      }
      i := 0;
      while i < MaxReaderCount
        invariant 0 <= i <= MaxReaderCount
        invariant rwSem.count == old(rwSem.count) - MaxReaderCount + i
        modifies rwSem
      {
        rwSem.Up();
        i := i + 1;
      }
      ret := if notCopied == 0 then bytesToWrite else -EFAULT;
    }

    /**
     * `device_ioctl(cmd, arg)`, where `user` is the `int` at arg or None when
     * arg cannot be accessed; `stored` is what is written back through arg.
     * A resize allocates a new buffer of unspecified contents and leaves the
     * flag, the read cycle and the semaphore as they were.
     */
    method Ioctl(cmd: UInt32, user: Option<Int32>) returns (ret: int, stored: Option<Int32>)
      requires Valid()
      modifies this
      ensures Valid()
      ensures var o := IoctlDispatch(cmd, user, old(shmSize), BufferStringLength(old(sharedMem[..])));
              && ret == o.ret && stored == o.stored
              && (o.newSize.Some? ==> shmSize == o.newSize.value && fresh(sharedMem))
              && (o.newSize.None? ==> shmSize == old(shmSize) && sharedMem == old(sharedMem))
      ensures dataWritten == old(dataWritten) && readersRemaining == old(readersRemaining)
      ensures rwSem.count == old(rwSem.count)
    {
      var o := IoctlDispatch(cmd, user, shmSize, BufferStringLength(sharedMem[..]));
      if o.newSize.Some? {
        shmSize := o.newSize.value;
        sharedMem := new Byte[shmSize];
      }
      ret, stored := o.ret, o.stored;
    }
  }

  /** A fresh device serves each message to three reads, then reports no data. */
  method ThreeReadersScenario() returns (rets: seq<int>)
    ensures rets == [2, 2, 2, 2, 0]
  {
    var d := new Device();
    var w := d.Write([104, 105], 2);
    var r1, _ := d.Read(2, 16);
    var r2, _ := d.Read(2, 16);
    var r3, _ := d.Read(2, 16);
    var r4, _ := d.Read(2, 16);
    rets := [w, r1, r2, r3, r4];
  }
}
