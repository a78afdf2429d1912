/** The error numbers the file system code returns, and a result that is a value or one of them. */
module Outcomes {
  datatype Errno = EIO | ENOSPC | EFBIG | ENOENT | EINVAL | EOPNOTSUPP | ENOTDIR | ELOOP | ENAMETOOLONG | ENODEV

  datatype Outcome<T> = Ok(value: T) | Err(error: Errno)
}
