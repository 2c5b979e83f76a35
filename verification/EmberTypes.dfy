/** The stack's fixed-width types, and the one library type, that the other modules share. */
module EmberTypes {
  datatype Option<T> = None | Some(value: T)

  type Byte = b: int | 0 <= b <= 0xFF

  /** A 16-bit network short id. */
  type NodeId = i: int | 0 <= i <= 0xFFFF

  /** A 64-bit long address. */
  type Eui64 = e: int | 0 <= e <= 0xFFFF_FFFF_FFFF_FFFF

  /** The short id of an address table entry that is not in use. */
  const UNUSED_NODE_ID: NodeId := 0xFFFF

  /** An integer kept in an unsigned byte. */
  function ToByte(n: int): (b: Byte)
    ensures 0 <= n <= 0xFF ==> b == n
  {
    n % 0x100
  }
}
