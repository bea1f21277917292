/**
 * The Linux kernel error numbers the drivers return, negated, from their
 * operations (include/uapi/asm-generic/errno-base.h and errno.h).
 */
module Errno {
  const EIO: int := 5
  const ENXIO: int := 6
  const ENOMEM: int := 12
  const EFAULT: int := 14
  const EINVAL: int := 22
  const ETIME: int := 62
}
