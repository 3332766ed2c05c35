/** Error numbers of the Linux system-call interface, as the modelled code returns them (negated). */
module Errno {
  const EPERM := 1
  const ESRCH := 3
  const EAGAIN := 11
  const ENOMEM := 12
  const EACCES := 13
  const EFAULT := 14
  const EINVAL := 22

  datatype Option<+T> = None | Some(value: T)
}
