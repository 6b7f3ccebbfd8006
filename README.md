# uniquefs: file-creation gate and fixed-buffer read

This project models two parts of `uniquefs.c`, an early revision of a tiny in-memory Linux
filesystem that is meant to hold a single ("unique") file:

- **The file-creation gate.** A global counter `nbfiles` is capped by `MAX_NB_FILES = 1`.
  `create` refuses with `-EPERM` when the cap is reached or the mode is not a regular file. It
  then refuses with `-ENAMETOOLONG` when the name is longer than `UNIQUEFS_NAME_MAX = 32` bytes.
  Otherwise it calls `mknod` and counts the file only if `mknod` returned 0. `unlink` uncounts a
  file when the host's `simple_unlink` succeeds. `rename` only re-checks the new name's length.
  `mknod` itself is also in the directory operations table, so a FIFO or device node can be made
  without `create`. Such a node is never counted, but unlinking it still decrements the counter. The model
  therefore proves only the upper bound `nbfiles <= MAX_NB_FILES`. It also shows concretely that
  the counter can reach -1, after which `create` calls for two different names both succeed.
- **The inode dispatch.** `uniquefs_get_inode` gives a new inode uniquefs' file operations, its
  directory operations, or a special-inode setup, depending on the file-type bits of its mode.
- **The read.** Every regular file reads as the seven bytes `"Hello\n\0"`. A read at offset `pos`
  of `size` bytes copies `min(size, 7 - pos)` bytes, less whatever `copy_to_user` leaves
  uncopied. The file offset then advances by exactly the number of bytes copied.

Modules: `Kernel` (byte, mode and device types, errno values, `Option`), `Inodes` (mode bits and
the dispatch), `Gate` (pure result functions, a trace semantics over runs of requests, and the
class `UniqueFs` that holds `nbfiles` and is updated in place), `HelloRead` (clipping,
single and repeated reads, and the class `OpenFile` whose `pos` is the caller's `*offset`).

Each host call becomes a parameter that carries its outcome:
- whether `new_inode` found an inode: `inodeAvailable`;
- the status returned by `simple_unlink` or `simple_rename`: `hostResult`;
- the byte count `copy_to_user` could not copy: `uncopied`, at most the count it was asked to copy.

This revision of `uniquefs.c` does not have:
- a per-mount quota: there is a single global counter, and mounting does not touch it;
- a lower bound of 0 on that counter;
- a distinct capacity error: a full directory yields `-EPERM`;
- a paged content store, a write path or memory mapping: reads serve a constant buffer.

## Model

| member | source | states |
|---|---|---|
| `Inodes.KindOf` | uniquefs.c:69-81 | A regular type gives uniquefs' file inode, a directory type its directory inode, and every other type a special inode that keeps the mode and device number. |
| `Inodes.GetInode` | uniquefs.c:58-84 | An inode exists exactly when the host could allocate one, and it is then dispatched on its mode. |
| `Inodes.RegularBitIsRedundant` | uniquefs.c:104-110 | Once `S_ISREG` holds, OR-ing `S_IFREG` into the mode leaves it unchanged, so `create` always builds a regular-file inode. |
| `Gate.MknodResult` | uniquefs.c:86-97 | Returns 0 exactly when an inode was obtained, and `-ENOSPC` with no inode otherwise. The counter is unchanged. |
| `Gate.CreateResult` | uniquefs.c:101-115 | Error precedence as four if-and-only-ifs (`-EPERM`, then `-ENAMETOOLONG` with length 32 accepted, then `-ENOSPC`, then 0). The counter rises by one exactly on success, the bound `<= MAX_NB_FILES` is preserved, and on success the entry gets a regular-file inode. |
| `Gate.UnlinkResult` | uniquefs.c:117-124 | Returns the host's result. The counter drops by one exactly when that result is 0 and is unchanged otherwise. |
| `Gate.RenameResult` | uniquefs.c:126-132 | `-ENAMETOOLONG` for new names over 32 bytes, the host's result otherwise. The counter is never changed. |
| `Gate.Step` | uniquefs.c:134-140 | Each request of the operations table moves the counter by exactly its `Delta`: +1 for a successful create, -1 for a successful unlink, 0 otherwise. No request can take the counter past the cap. |
| `Gate.Run` | uniquefs.c:101-124 | Over any run of requests, the final counter is the start value plus successful creates minus successful unlinks. |
| `Gate.CounterBoundedAbove` | uniquefs.c:104-113 | A run of requests that starts with `nbfiles <= MAX_NB_FILES` ends with it too. |
| `Gate.CounterHasNoLowerBound` | uniquefs.c:117-138 | A FIFO or device node made through `.mknod` and then unlinked leaves the counter at -1. |
| `Gate.BypassAdmitsTwoCreates` | uniquefs.c:101-138 | After that mknod/unlink pair, `create` calls for two different names in a row both return 0 although the cap is 1. |
| `Gate.UniqueFs.constructor` | uniquefs.c:20 | The counter starts at 0. |
| `Gate.UniqueFs.Mknod` | uniquefs.c:86-97 | Same outcome as `MknodResult`. The method's frame excludes the counter. |
| `Gate.UniqueFs.Create` | uniquefs.c:101-115 | The new counter and the return code are those of `CreateResult` on the old counter. |
| `Gate.UniqueFs.Unlink` | uniquefs.c:117-124 | The new counter and the return code are those of `UnlinkResult` on the old counter. |
| `Gate.UniqueFs.Rename` | uniquefs.c:126-132 | The name-length check, then the host's result. The counter lies outside the method's frame. |
| `Gate.UniqueFs.Serve` | uniquefs.c:134-140 | Dispatching any request through the operations table changes the counter and returns what `Step` says. |
| `HelloRead.Clipped` | uniquefs.c:38-42 | The count to copy is the minimum of the request and the bytes left: it fits both, and it equals one of them. |
| `HelloRead.ReadResult` | uniquefs.c:34-46 | Copies the clipped count less the uncopied bytes. The bytes delivered are the buffer's from the offset on, and the offset advances by exactly the count returned. |
| `HelloRead.ReadAtEndIsEmpty` | uniquefs.c:38-44 | A read at offset 7 returns 0, delivers nothing and leaves the offset at 7. |
| `HelloRead.ReadMany` | uniquefs.c:38-44 | For any partial copies, repeated reads deliver exactly the buffer's contiguous bytes between the first and the last offset. Nothing is repeated or skipped. |
| `HelloRead.FullCopiesAdvance` | uniquefs.c:38-44 | With complete copies, repeated reads end at `min(7, start + total requested)`. |
| `HelloRead.ReadsFromStartDeliverContent` | uniquefs.c:36-44 | With complete copies, reads from offset 0 that ask for at least 7 bytes in total concatenate to exactly `"Hello\n\0"`. |
| `HelloRead.OpenFile.constructor` | uniquefs.c:34 | The read offset `*offset` starts at 0, as the host sets it when the file is opened. |
| `HelloRead.OpenFile.Read` | uniquefs.c:34-46 | Writes the `ReadResult` bytes into the user buffer, leaves the rest of that buffer alone, returns the count and advances `pos` by it. |

## Left out

- Kernel registration and lifecycle (`uniquefs_fill_super`, `uniquefs_mount`, `uniquefs_kill_sb`, `uniquefs_init`, `uniquefs_exit`): calls into the host's VFS, class and device frameworks with no logic of their own.
- Inode construction details in `uniquefs_get_inode`: inode numbers, owner and group set by `inode_init_owner`, timestamps, and mapping flags. Only the mode dispatch is kept.
- The directory timestamp update in `mknod`, and the `d_instantiate` and `dget` calls. An instantiated entry appears only as the returned inode.
- The host helpers `simple_unlink`, `simple_rename`, `new_inode` and `copy_to_user`: foreign calls, represented only by the status or count they return.
- Concurrency: `nbfiles` is an unsynchronised global. The operations are modelled one at a time, and nothing is claimed about atomicity.
- `Gate.UniqueFs.Unlink`: `nbfiles` is an unbounded integer. The 32-bit signed counter's overflow below `INT_MIN` is undefined behaviour in C and needs more than 2^31 uncounted unlinks, so it is not modelled.
- `HelloRead.OpenFile.Read`: offsets above 7 or below 0 are excluded by its precondition. For such offsets the source wraps `7 - *offset` as a `size_t` and copies from outside the buffer, so there is no defined behaviour to model.
- `HelloRead.OpenFile.Read`: `copy_to_user` is taken to copy a prefix of what it was asked for and to leave the rest of the user buffer untouched.
- Write, mmap, paged content storage, per-mount quota: not present in this revision (write and mmap are commented out).
