/** The mode-based dispatch of `uniquefs_get_inode`: which operation tables an inode receives. */
module Inodes {
  import opened Kernel

  /** File-type field of a mode, the two file types uniquefs handles itself, and the FIFO type. */
  const S_IFMT: Mode := 0xF000
  const S_IFREG: Mode := 0x8000
  const S_IFDIR: Mode := 0x4000
  const S_IFIFO: Mode := 0x1000

  /** `S_ISREG`: the file-type field of the mode says "regular file". */
  predicate IsRegular(mode: Mode) {
    mode & S_IFMT == S_IFREG
  }

  /** What a freshly built inode is, as decided by the `switch` on its file type. */
  datatype Inode =
    | RegularFile                    // uniquefs file operations: reads serve the fixed buffer
    | Directory                      // uniquefs directory operations over the generic ones
    | Special(mode: Mode, rdev: Dev) // device, fifo or socket node set up by the host

  /** The `switch (mode & S_IFMT)`: a regular or a directory type picks uniquefs' own tables,
      every other type becomes a special inode that keeps the mode and the device number. */
  function KindOf(mode: Mode, dev: Dev): (k: Inode)
    ensures k.RegularFile? <==> IsRegular(mode)
    ensures k.Directory? <==> mode & S_IFMT == S_IFDIR
    ensures k.Special? ==> k.mode == mode && k.rdev == dev
  {
    match mode & S_IFMT
    case 0x8000 => RegularFile
    case 0x4000 => Directory
    case _ => Special(mode, dev)
  }

  /** `uniquefs_get_inode`: `new_inode` may fail (its outcome is the parameter `inodeAvailable`);
      when it succeeds, the inode is dispatched on its mode. */
  function GetInode(mode: Mode, dev: Dev, inodeAvailable: bool): (r: Option<Inode>)
    ensures r.Some? <==> inodeAvailable
    ensures r.Some? ==> r.value == KindOf(mode, dev)
  {
    if inodeAvailable then Some(KindOf(mode, dev)) else None
  }

  /** `create` passes `mode | S_IFREG` to `mknod` only after `S_ISREG(mode)` has held,
      so the added bit changes nothing and the new inode is a regular file. */
  lemma RegularBitIsRedundant(mode: Mode, dev: Dev)
    requires IsRegular(mode)
    ensures mode | S_IFREG == mode
    ensures KindOf(mode | S_IFREG, dev) == RegularFile
  {
  }
}
