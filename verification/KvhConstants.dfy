/** The sizes of a Format B datagram of the KVH 1775, and what its bytes are compared with. */
module KvhConstants {
  const DATAGRAM_SIZE := 40
  const N_BYTES_HEADER := 4
  const N_BYTES_CRC := 4
  const HEADER: bv32 := 0xfe81ff56
  const NOMINAL_STATUS: bv8 := 0x77
}
