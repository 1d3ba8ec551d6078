/** Error codes and limits that several parts share. */
module Definitions {
  const ENOENT: int := 2
  const E2BIG: int := 7
  const EBADF: int := 9
  const EAGAIN: int := 11
  const ENOMEM: int := 12
  const EBUSY: int := 16
  const EEXIST: int := 17
  const EINVAL: int := 22
  const ENOSPC: int := 28
  const EMLINK: int := 31
  const ENAMETOOLONG: int := 36
  const ENODATA: int := 61
  const EPROTO: int := 71
  const EBADMSG: int := 74
  const EOVERFLOW: int := 75
  const EILSEQ: int := 84
  const EMSGSIZE: int := 90
  const ENOTCONN: int := 107
  const ESTALE: int := 116

  const SIZE_RANGE: int := 0x1_0000_0000_0000_0000   // of a size_t
  const INT64_MAX: int := 0x7FFF_FFFF_FFFF_FFFF
  const INT32_MAX: int := 0x7FFF_FFFF

  const MAX_NAME: nat := 1023          // bytes in the name of a namespace or tuple
  const MAX_KEY: nat := 2048           // bytes in a Redis key
  const MAX_SGE: nat := 256            // entries of a scatter/gather list
  const SLOTS: nat := 16384            // hash slots of a Redis cluster
  const SEPARATOR: string := "::"      // between namespace and tuple name
}
