/** The error numbers of `bsd/sys/errno.h` that the MAC framework uses. */
module Errno {
  const EPERM := 1
  const ENOENT := 2
  const ESRCH := 3
  const EDEADLK := 11
  const ENOMEM := 12
  const EACCES := 13
  const EBUSY := 16
  const EEXIST := 17
  const EINVAL := 22
  const ENOPOLICY := 103
}
