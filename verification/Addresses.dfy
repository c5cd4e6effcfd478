/** Client addresses (cliaddr_t of src/proxy.h). */
module Addresses {
  import opened Bytes

  /** Family, port and address: what cliaddr_eq compares. Fields it does not
      look at are not part of the value, so == is cliaddr_eq. */
  datatype Addr = V4(port: Word, ip: Word) | V6(port: Word, ip6: seq<Byte>)
}
