/**
 * The few kernel services the drivers call: a counting semaphore
 * (<linux/semaphore.h>), copy_from_user (<linux/uaccess.h>) and memset.
 * Everything runs in one task, so a semaphore never sees a concurrent caller.
 */
module Kernel {
  import opened CTypes

  /**
   * The bytes `copy_from_user(dst, user, n)` leaves in a buffer whose old
   * contents are mem, when the user memory readable at the source pointer is
   * `user`: the readable bytes are copied, and on a fault the rest of the n
   * requested bytes are zeroed.
   */
  function UserCopy(mem: seq<Byte>, user: seq<Byte>, n: nat): (r: seq<Byte>)
    requires n <= |mem|
    ensures |r| == |mem|
    ensures forall i :: 0 <= i < n && i < |user| ==> r[i] == user[i]
    ensures forall i :: |user| <= i < n ==> r[i] == 0
    ensures forall i :: n <= i < |mem| ==> r[i] == mem[i]
  {
    if |user| >= n then user[..n] + mem[n..] else user + Zeros(n - |user|) + mem[n..]
  }

  /** The number of bytes copy_from_user reports as not copied. */
  function NotCopied(user: seq<Byte>, n: nat): (k: nat)
    ensures k == 0 <==> |user| >= n
    ensures k <= n
  {
    if |user| >= n then 0 else n - |user|
  }

  /** A counting semaphore, as `struct semaphore`. */
  class Semaphore {
    var count: nat

    constructor (n: nat)
      ensures count == n
    {
      count := n;
    }

    /**
     * `down_interruptible`: takes a free permit. With none free the caller
     * sleeps until an `up` or a signal; no other task runs here, so only a
     * signal can end that sleep, and the call returns -EINTR.
     */
    method DownInterruptible() returns (rc: int)
      modifies this
      ensures old(count) > 0 ==> rc == 0 && count == old(count) - 1
      ensures old(count) == 0 ==> rc == -EINTR && count == 0
    {
      if count > 0 {
        count := count - 1;
        rc := 0;
      } else {
        rc := -EINTR;
      }
    }

    /** `up`: returns one permit. */
    method Up()
      modifies this
      ensures count == old(count) + 1
    {
      count := count + 1;
    }
  }

  /**
   * `copy_from_user(dst, user, n)` into the start of dst; returns the number
   * of bytes it could not copy.
   */
  method CopyFromUser(dst: array<Byte>, user: seq<Byte>, n: nat) returns (notCopied: nat)
    requires n <= dst.Length
    modifies dst
    ensures dst[..] == UserCopy(old(dst[..]), user, n)
    ensures notCopied == NotCopied(user, n)
  {
    var i := 0;
    while i < n
      invariant 0 <= i <= n
      invariant forall k :: 0 <= k < i && k < |user| ==> dst[k] == user[k]
      invariant forall k :: |user| <= k < i ==> dst[k] == 0
      invariant forall k :: i <= k < dst.Length ==> dst[k] == old(dst[k])
    {
      dst[i] := if i < |user| then user[i] else 0;
      i := i + 1;
    }
    notCopied := NotCopied(user, n);
  }

  /** `memset(a + off, 0, n)`. */
  method Memset(a: array<Byte>, off: nat, n: nat)
    requires off + n <= a.Length
    modifies a
    ensures forall i :: 0 <= i < a.Length ==> a[i] == if off <= i < off + n then 0 else old(a[i])
  {
    var i := off;
    while i < off + n
      invariant off <= i <= off + n
      invariant forall k :: 0 <= k < a.Length ==> a[k] == if off <= k < i then 0 else old(a[k])
    {
      a[i] := 0;
      i := i + 1;
    }
  }
}
