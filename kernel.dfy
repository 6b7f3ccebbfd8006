/** Host types and error numbers that the uniquefs operations use. */
module Kernel {

  /** One byte of user-visible data. */
  type Byte = bv8

  /** `umode_t`: the 16-bit file type and permission bits of an inode. */
  type Mode = bv16

  /** `dev_t`: the 32-bit device number handed to `mknod`. */
  type Dev = bv32

  /** A directory-entry name, counted in bytes like `d_name.len`. */
  type Name = seq<Byte>

  /** Error numbers of the Linux generic errno table; operations return their negation. */
  const EPERM: int := 1
  const ENOSPC: int := 28
  const ENAMETOOLONG: int := 36

  datatype Option<T> = None | Some(value: T)
}
