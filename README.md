# Simple IPC driver and its RSA byte cipher, in Dafny

This project models the core of a small Linux character-device driver for
inter-process communication, together with the toy RSA cipher written for
it, and proves properties of that model.

- **ipc_driver.c**: a single-slot mailbox. A writer stores one message in the
  kernel buffer `shared_mem` of `shm_size` bytes, sets `data_written` and
  zero-fills the rest of the buffer. The message is then served to three
  successful reads, counted down in `readers_remaining`, after which reads
  return 0 again. A counting semaphore `rw_sem` with `MAX_READER_COUNT` = 4
  permits keeps a writer (all four permits) apart from readers (one each).
  `device_ioctl` reports and changes the buffer size, reports the reader
  count and reports the length of the stored string. Modelled as the class
  `IpcDriver.Device`, whose fields are those globals. Its read and write
  methods are proved against a pure state machine in `MailboxProtocol`, and
  its ioctl method against the pure dispatcher `IpcDriver.IoctlDispatch`.
- **ipc_driver1.c**: the earlier variant with the constant 1024-byte buffer
  and no ioctl. Its read path keeps `max_read`, `min_read`, `reads_count`
  and `total_bytes_read`. Modelled as the class `IpcDriverFixed.FixedDevice`,
  proved against the same state machine and a pure statistics function.
- **crypto_lib.c**: `mod_exp`, square-and-multiply exponentiation with C's
  `%`, and `mod_inverse`, the extended Euclidean algorithm, both as methods
  with loops. `encrypt_shared_memory` writes each message byte's ciphertext
  (e = 17, n = 61 * 53 = 3233) as a `%05lld` field into `encrypted_mem`.
  `decrypt_shared_memory` parses those fields with `simple_strtol` and raises
  each one to d = 2753 into `decrypted_mem`. The two static buffers are the
  class `CryptoLib.CipherBuffers`. The file uses `SHM_SIZE`, `shared_mem` and
  `data_written`, which only ipc_driver1.c defines, so it is modelled against
  that driver. Nothing in the drivers calls it, so the model does not connect
  it to the drivers.

The RSA round trip is proved from first principles in `NumberTheory`:
- Fermat's little theorem, by the binomial theorem;
- the Chinese remainder step for 61 and 53;
- x^(17 * 2753) = x (mod 3233).

The round trip holds for every byte 1..255. The drivers need Linux 6.4 or
later: they use the two-argument `DEFINE_SEMAPHORE` (ipc_driver.c:57,
ipc_driver1.c:53) and the one-argument `class_create` (ipc_driver.c:101,
ipc_driver1.c:94). Since Linux 6.2 the kernel is compiled with
`-funsigned-char`, so `(long long)message[i]` zero-extends each byte to
0..255 (`CTypes.CharValue`), and every ciphertext is a residue in
[0, 3233). C's truncating `%` is still modelled (`CTypes.CRem`), and
`NumberTheory.RsaRoundTrip` also covers negative values in (-3233, 0).

The environment is modelled as follows:
- **Semaphore**: `down_interruptible` is deterministic. With a free permit it
  takes it. With none it would sleep, and in a single-task model only a
  signal can wake it, so it returns -EINTR. A signal cannot interrupt a call
  that finds a free permit, because the kernel's fast path takes the permit
  without sleeping.
- **User memory**: given as a parameter. For `copy_from_user` this is the
  sequence of readable bytes at the user pointer. A copy longer than it
  faults: the bytes before the fault are copied and the rest of the n bytes
  are zero-filled. The model has the fault right after the readable
  sequence; since that sequence is arbitrary, this covers a copy that stops
  earlier. For
  `copy_to_user` it is the room in the user buffer. The ioctl's user `int`
  is an `Option`, and `None` means the address faults.

A write does not reset `readers_remaining`, so a message written in the
middle of a read cycle is served only to the reads left in that cycle. The
model follows the code here (`MailboxProtocol.MidCycleWrite`).

## Model

| member | source | states |
|---|---|---|
| CTypes.IntOfSize | ipc_driver.c:173 | `(int)shm_size` keeps sizes below 2^31 and is congruent to the size modulo 2^32 |
| CTypes.CRem | crypto_lib.c:8-10 | C's `%` has the dividend's sign, lies strictly between -m and m, and equals Euclidean `%` for a non-negative dividend |
| CTypes.CharValue | crypto_lib.c:66 | `(long long)message[i]` zero-extends a byte: the value lies in [0, 256) and is congruent to the byte modulo 256 |
| CTypes.CharOf | crypto_lib.c:98 | the `(char)` cast keeps the value modulo 256 |
| CTypes.Strnlen | crypto_lib.c:60 | the length is at most max, no zero byte comes before it, and a zero byte ends it when it is below max |
| CTypes.StrnlenUnique | crypto_lib.c:60 | a count with no zero byte before it that stops at a zero byte or at max is exactly the strnlen value |
| CTypes.Strlen | crypto_lib.c:77 | strlen of a terminated buffer is the index of its first zero byte |
| CTypes.Min | ipc_driver.c:243 | `min(len, shm_size)`, here and at line 291, is at most each argument and equal to one of them |
| Kernel.UserCopy | ipc_driver.c:317 | `copy_from_user` puts the readable user bytes first, zeroes the faulting rest of the n bytes and leaves the bytes beyond n unchanged |
| Kernel.NotCopied | ipc_driver.c:317 | `copy_from_user` reports 0 uncopied bytes exactly when all n bytes are readable |
| Kernel.Semaphore.constructor | ipc_driver.c:57 | the semaphore starts with the given permit count |
| Kernel.Semaphore.DownInterruptible | ipc_driver.c:257-260 | takes a permit and returns 0 when one is free, otherwise returns -EINTR and leaves the count at 0 |
| Kernel.Semaphore.Up | ipc_driver.c:283 | returns one permit |
| Kernel.CopyFromUser | ipc_driver.c:317 | the loop leaves the buffer as `UserCopy` describes and returns `NotCopied` |
| Kernel.Memset | ipc_driver.c:328 | bytes [off, off + n) become zero and every other byte keeps its value |
| MailboxProtocol.Initial | ipc_driver.c:39-40 | after load `data_written` is 0, `readers_remaining` is 3, all 4 permits are free, and the invariant holds |
| MailboxProtocol.EndOfRead | ipc_driver.c:276-281 | a successful read decrements `readers_remaining`; the read that brings it to 0 clears `data_written` and restarts the count at 3 |
| MailboxProtocol.Read | ipc_driver.c:242-287 | no data gives 0 and no change. No permit gives -EINTR. Too little room gives -EFAULT with the permit returned and nothing else changed. Otherwise it returns min(len, shm_size) and that prefix of the buffer. Permits are unchanged in every case, each error holds iff its condition does, and the invariant is preserved |
| MailboxProtocol.Write | ipc_driver.c:290-335 | as written: -EINTR iff fewer than 4 permits are free, leaving none. -EFAULT iff the copy faults, returning 1 of the 4 permits. With 4 free permits and a readable copy the write succeeds: it returns min(len, shm_size), sets `data_written`, copies the prefix, zeroes the tail and keeps the permits. `readers_remaining` never changes |
| MailboxProtocol.WriteWithRollback | ipc_driver.c:309-320 | the corrected write returns the same values and state as `Write`, except that every taken permit is given back |
| MailboxProtocol.Run | ipc_driver.c:242-335 | one return value per call, the capacity is fixed, the permit count never grows, and the invariant is kept |
| MailboxProtocol.RunWithRollback | ipc_driver.c:309-320 | with the corrected write, the permit count after any call sequence equals the starting count |
| MailboxProtocol.ReadCycle | ipc_driver.c:276-281 | with a message stored, exactly `readers_remaining` reads return min(len, shm_size) and every later read returns 0 |
| MailboxProtocol.NoDataReads | ipc_driver.c:252-255 | with no data, every read returns 0 and changes nothing |
| MailboxProtocol.ThreeReadsPerMessage | ipc_driver.c:40 | a write at the start of a cycle is served to exactly three reads |
| MailboxProtocol.MidCycleWrite | ipc_driver.c:290-335 | a write does not restart the cycle: written when one read is left, the message serves one read |
| MailboxProtocol.LeakIsPermanent | ipc_driver.c:309-315 | once permits are lost, every later write returns -EINTR, whatever calls come between |
| MailboxProtocol.Wedged | ipc_driver.c:257-260 | with no permits and a stored message, every call returns -EINTR and the state never changes |
| MailboxProtocol.FaultingWriteWedgesDevice | ipc_driver.c:317-320 | a write that faults, then a write, then a read ends with no permits, and the next read fails with -EINTR |
| MailboxProtocol.RollbackKeepsWritesWorking | ipc_driver.c:309-320 | with the corrected write, every later write whose copy succeeds returns min(len, shm_size) |
| IpcDriver.IoctlCode | ipc_driver.c:23-26 | the `_IOC` encoding fits 32 bits and keeps the command number and type in its low two bytes |
| IpcDriver.IoctlDispatch | ipc_driver.c:164-220 | an unknown command gives -EINVAL. A faulting user pointer gives -EFAULT. A resize happens iff 0 < n <= 10240, otherwise -EINVAL. The GET commands store the size, 4, or the string length |
| IpcDriver.BufferStringLength | ipc_driver.c:207-208 | the reported length is the index of the first zero byte, never past the buffer |
| IpcDriver.BufferStringLengthAfterWrite | ipc_driver.c:207-208 | after a write of k bytes, the reported length is the string length within those k bytes, so at most k |
| IpcDriver.FullWriteLeavesNoTerminator | ipc_driver.c:208 | a write of shm_size non-zero bytes succeeds and leaves no zero byte for `strlen` to stop at |
| IpcDriver.Device.constructor | ipc_driver.c:36-40 | a 1024-byte buffer, with the protocol's initial state |
| IpcDriver.Device.Read | ipc_driver.c:242-287 | the new globals, return value and copied data are those of `MailboxProtocol.Read`, and the validity invariant holds |
| IpcDriver.Device.Write | ipc_driver.c:290-335 | the permit loops, copy and memset leave the globals as `MailboxProtocol.Write` does |
| IpcDriver.Device.WriteWithRollback | ipc_driver.c:309-320 | the corrected write method matches `MailboxProtocol.WriteWithRollback` |
| IpcDriver.Device.Ioctl | ipc_driver.c:164-220 | return value and stored int as `IoctlDispatch` decides. A resize installs a fresh buffer of the new size. The flag, the read cycle and the semaphore are untouched |
| IpcDriver.ThreeReadersScenario | ipc_driver.c:276-281 | on a fresh device, a 2-byte write and four reads return 2, 2, 2, 2, 0 |
| IpcDriverFixed.RecordRead | ipc_driver1.c:180-190 | `max_read` and `min_read` take len when it is beyond them; both counters wrap modulo 2^64 |
| IpcDriverFixed.RecordReadsSpec | ipc_driver1.c:180-190 | after any reads, `min_read` <= each len <= `max_read`. Each of the two is its start value or one of the lens. The counters are the count and the sum modulo 2^64 |
| IpcDriverFixed.StatsFromLoad | ipc_driver1.c:43-46 | from load, `max_read` and `min_read` are the largest and smallest requested lengths |
| IpcDriverFixed.FixedDevice.constructor | ipc_driver1.c:33-35 | a 1024-byte buffer, the protocol's initial state and the initial statistics |
| IpcDriverFixed.FixedDevice.Read | ipc_driver1.c:177-229 | statistics updated by `RecordRead` before the data check, even when there is no data; the rest as `MailboxProtocol.Read` |
| IpcDriverFixed.FixedDevice.Write | ipc_driver1.c:232-269 | as `MailboxProtocol.Write` over the fixed buffer; the read statistics are unchanged |
| IpcDriverFixed.TransfersAreBounded | ipc_driver1.c:178 | successful reads and writes move exactly min(len, 1024) bytes |
| NumberTheory.SquareAndMultiplyStep | crypto_lib.c:7-11 | one loop iteration keeps result * base^exp fixed under C's `%` |
| NumberTheory.CRemMul | crypto_lib.c:9-10 | C's `%` commutes with multiplication whatever the signs |
| NumberTheory.Bezout | crypto_lib.c:18-30 | gcd(a, b) is an integer combination of a and b |
| NumberTheory.Fermat | crypto_lib.c:66 | a^p - a is divisible by a prime p |
| NumberTheory.FermatPower | crypto_lib.c:98 | x^(1 + (p - 1)k) - x is divisible by a prime p |
| NumberTheory.CrtStep | crypto_lib.c:45 | a multiple of both 61 and 53 is a multiple of 3233 |
| NumberTheory.RsaIdentity | crypto_lib.c:44-48 | x^(17 * 2753) mod 3233 = x for 0 <= x < 3233 |
| NumberTheory.RsaRoundTrip | crypto_lib.c:66 | for -3233 < v < 3233, raising C's remainder of v^17 to the power 2753 under C's `%` gives v back |
| CryptoLib.ModExp | crypto_lib.c:5-14 | for exp > 0, the result is C's remainder of base^exp, which for base >= 0 is (base^exp) mod m in [0, m). For exp <= 0 it is 1 |
| CryptoLib.EuclidLoopStep | crypto_lib.c:20-28 | one iteration keeps the gcd and both Bezout relations modulo phi, keeps the coefficient signs opposite, bounds \|t\| below phi, and strictly decreases newr |
| CryptoLib.ModInverse | crypto_lib.c:18-30 | (e * d) mod phi = gcd(phi, e) mod phi, and d is in [0, phi) when phi > 1 |
| CryptoLib.GcdOfKey | crypto_lib.c:44-47 | gcd(3120, 17) = 1 |
| CryptoLib.PrivateExponent | crypto_lib.c:48 | 2753 is the only inverse of 17 modulo 3120 in [0, 3120) |
| CryptoLib.KeyInverse | crypto_lib.c:44-48 | what `mod_inverse(17, 3120)` guarantees pins its result to 2753 |
| CryptoLib.Format05 | crypto_lib.c:67 | `%05lld` of a value in (-10000, 100000) is five non-zero characters |
| CryptoLib.FormatRoundTrip | crypto_lib.c:96-97 | `simple_strtol` of a `%05lld` field and its NUL gives the value back, negative ones included |
| CryptoLib.StrToL | crypto_lib.c:97 | `simple_strtol` gives a value <= 0 after a leading minus sign and >= 0 otherwise, and 0 when no digit follows the optional minus sign |
| CryptoLib.EncryptByte | crypto_lib.c:66 | every ciphertext is a residue in [0, 3233), so it fits the zero-padded 5-digit field |
| CryptoLib.DecryptValue | crypto_lib.c:98 | decrypting the ciphertext of any of the 256 bytes gives that byte |
| CryptoLib.Encode | crypto_lib.c:65-67 | five characters per message byte, none of them zero |
| CryptoLib.EncodeChunk | crypto_lib.c:67 | chunk i sits at offset 5i and is the field of byte i's ciphertext |
| CryptoLib.EncodeStep | crypto_lib.c:67 | writing chunk i and its NUL over the zeroed tail extends the encoding by byte i |
| CryptoLib.StrncpyMessage | crypto_lib.c:54-55 | `message` holds the bytes of the buffer before its first NUL, at most 255 of them, and its strnlen is that count |
| CryptoLib.SourceMessageLength | crypto_lib.c:60 | the length the code encrypts is at most 255 |
| CryptoLib.LongMessageOverflows | crypto_lib.c:54-67 | as written: a message of 205 or more bytes is encrypted in full, and its last field ends past the 1024-byte `encrypted_mem` |
| CryptoLib.MessageLength | crypto_lib.c:54-60 | corrected length: the code's length capped at 204, so that 5 * len + 1 <= 1024. It agrees with the code whenever the code stays in bounds |
| CryptoLib.EncryptedImage | crypto_lib.c:63-68 | `encrypted_mem` after encryption holds a NUL, and its strlen is 5 times the message length |
| CryptoLib.DecryptChunk | crypto_lib.c:96-98 | parsing and decrypting the 5-character field of a byte's ciphertext gives the byte |
| CryptoLib.DecryptedImage | crypto_lib.c:90-99 | `decrypted_mem` after decryption holds one byte per complete chunk and zeros after them, so it always holds a NUL |
| CryptoLib.ChunkDecrypts | crypto_lib.c:96-98 | chunk i of the encrypted buffer decrypts to message byte i |
| CryptoLib.RoundTrip | crypto_lib.c:37-103 | decrypting the encrypted buffer yields the message followed by zero bytes |
| CryptoLib.FormatInto | crypto_lib.c:67 | `snprintf` writes the five characters and a NUL at the offset and nothing else |
| CryptoLib.EncryptChunk | crypto_lib.c:66-67 | one loop iteration extends the encoded prefix by the next byte's chunk |
| CryptoLib.EncryptInto | crypto_lib.c:63-69 | the memset and loop leave the encoding of the first len bytes, then zeros |
| CryptoLib.CipherBuffers.constructor | crypto_lib.c:33-34 | both static buffers start as 1024 zero bytes |
| CryptoLib.CipherBuffers.EncryptSharedMemory | crypto_lib.c:37-73 | a null buffer or no data gives -EINVAL with `encrypted_mem` unchanged; otherwise 0 and `encrypted_mem` is the encoded message followed by zeros |
| CryptoLib.CipherBuffers.DecryptSharedMemory | crypto_lib.c:76-103 | an empty `encrypted_mem` gives -EINVAL with `decrypted_mem` unchanged; otherwise 0 and byte i is decrypted chunk i for i < strlen / 5, zero beyond |
| CryptoLib.EncryptThenDecrypt | crypto_lib.c:37-103 | encrypting a stored message and decrypting it leaves the message, then zeros, in `decrypted_mem` |

## Left out

- `device_init`, `device_exit`, `ipc_proc_init` and `ipc_proc_exit` in both drivers are left out: they only register the device and create the class, node and proc file.
- A failed `kmalloc`, at load or on resize, is left out. The model always allocates.
- `stats_read` is left out: it formats the proc file text.
- `device_open` and `device_closed` are left out: they only count `userspace_accesses` and log.
- `printk` logging is left out everywhere.
- Several bookkeeping counters are left out:
  - in both drivers: `userspace_accesses`, `writes_count` and `total_bytes_write`;
  - in ipc_driver.c: `reads_count` and `total_bytes_read` in the read path, and `max_written` and `min_written` in the write path.
  They only feed the proc file. The read statistics of ipc_driver1.c are modelled.
- reader.c, writer.c and message.h are not part of this model: they are user-space test programs and a struct layout with no driver behaviour.
- Concurrency is not modelled. Calls run one at a time, so the model proves nothing about the mutual exclusion `rw_sem` provides between tasks.
- Kernel.Semaphore.DownInterruptible does not model a signal that arrives while the caller waits for a permit another task will release. Without other tasks, a wait ends only by a signal.
- MailboxProtocol.Read: a faulting `copy_to_user` is modelled as having copied `room` bytes. The kernel may copy fewer, which the user cannot observe through the return value.
- CryptoLib.ModExp requires a positive modulus and does not model `long long` overflow. Every call in the source uses n = 3233, and all intermediate values stay below 3233^2.
- CryptoLib.ModInverse requires non-negative arguments and does not model `long long` overflow. Its only call is `mod_inverse(17, 3120)`.
- CryptoLib.CipherBuffers.EncryptSharedMemory encrypts at most 204 bytes instead of 255 (see Findings). It also skips the private exponent: the code computes it only to print it.
- IpcDriver.Device.Ioctl reports the string length with a scan bounded by the buffer, instead of an unbounded `strlen` (see Findings).
- The `*offset` argument of read and write is left out: the code never uses it.

## Findings

| source | as written | input that shows it | evidently intended | confidence | as-written member | corrected member |
|---|---|---|---|---|---|---|
| ipc_driver.c:309-320 | the write returns -EINTR still holding the permits it took, and returns only one of four permits on a copy fault; ipc_driver1.c:243-253 repeats both | a write from an unreadable user buffer, then any write: that write is interrupted holding the last permit. Every later write returns -EINTR, and so does every read while a message is stored | every permit taken is released before an error return, as the read path does with its one permit | high (not executed) | MailboxProtocol.FaultingWriteWedgesDevice | MailboxProtocol.RollbackKeepsWritesWorking |
| crypto_lib.c:54-67 | up to 255 bytes are encrypted into a 1024-byte buffer at 5 bytes each | a stored message of 205 non-zero bytes: the last `snprintf` writes offsets 1020..1025 | the encrypted message fits, with its NUL, in `encrypted_mem` (at most 204 bytes) | high (not executed) | CryptoLib.LongMessageOverflows | CryptoLib.MessageLength |
| ipc_driver.c:207-208 | `strlen(shared_mem)` over a buffer that need not hold a zero byte | a write of `shm_size` non-zero bytes, then `IOCTL_GET_CURRENT_BUFFER_SIZE`: strlen runs past the allocation | the length of the stored string, at most the buffer size | high (not executed) | IpcDriver.FullWriteLeavesNoTerminator | IpcDriver.BufferStringLengthAfterWrite |
