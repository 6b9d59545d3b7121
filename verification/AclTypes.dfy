/** Types and limits that the argument contexts share. */
module AclTypes {
  import opened Bytes

  const MAX_ALL_PARAM_SIZE: nat := 0x4000_0000
  const MAX_SINGLE_PARAM_SIZE: nat := 4096
  const POINTER_SIZE: nat := 8

  /** The pointer slot at addrOffset is to receive the address of the data at dataOffset. */
  datatype PlaceHolderInfo = PlaceHolderInfo(addrOffset: u32, dataOffset: u32)

  datatype AddrInfo = AddrInfo(addr: u64, length: u64)
}
