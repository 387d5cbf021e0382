/** The status codes of the file protocol (section 2.6 of RFC 1813). */
module Nfs3Status {
  import opened Bytes

  const OK: u32 := 0
  const ERR_NO_ENTRY: u32 := 2
  const ERR_IO: u32 := 5
  const ERR_ACCESS: u32 := 13
  const ERR_NOTDIR: u32 := 20
  const ERR_ISDIR: u32 := 21
  const ERR_INVAL: u32 := 22
  const ERR_BADHANDLE: u32 := 10001
  const ERR_BAD_COOKIE: u32 := 10003
  const ERR_NOTSUPP: u32 := 10004
}
