/**
 What every part of the model uses: optional values and the error numbers of Linux.
 */
module Options {
  datatype Option<+T> = None | Some(value: T)
}

module Errno {
  const OK: nat := 0
  const EPERM: nat := 1
  const ENOENT: nat := 2
  const ESRCH: nat := 3
  const EBADF: nat := 9
  const EAGAIN: nat := 11
  const EACCES: nat := 13
  const EBUSY: nat := 16
  const EEXIST: nat := 17
  const ENOTDIR: nat := 20
  const EISDIR: nat := 21
  const EINVAL: nat := 22
  const EFBIG: nat := 27
  const ENOSPC: nat := 28
  const ENOTEMPTY: nat := 39
  const ENODATA: nat := 61
  const EOVERFLOW: nat := 75
  const EOPNOTSUPP: nat := 95
}
