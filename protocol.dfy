/**
 * The protocol messages that the layer list and the layer dock emit, and the
 * flag bits they carry.  The bit values are those of the protocol's message
 * definitions (the generated message header is not part of this model).
 */
module Protocol {
  import opened Common

  /** Layer-create flags */
  const LAYER_CREATE_FLAGS_GROUP: bv8 := 0x01
  const LAYER_CREATE_FLAGS_INTO: bv8 := 0x02

  /** Layer-attributes flags */
  const LAYER_ATTRIBUTES_FLAGS_CENSOR: bv8 := 0x01
  const LAYER_ATTRIBUTES_FLAGS_FIXED: bv8 := 0x02
  const LAYER_ATTRIBUTES_FLAGS_ISOLATED: bv8 := 0x04

  /** Layer-ACL flags: the lock bit; the low bits hold the access tier */
  const ACL_ALL_LOCKED_BIT: bv8 := 0x80

  datatype AccessTier = Operator | Trusted | Authenticated | Guest
  {
    /** The tier's numeric value, `uint8_t(tier)` */
    function Value(): (v: bv8)
      ensures v < 4
    {
      match this
      case Operator => 0
      case Trusted => 1
      case Authenticated => 2
      case Guest => 3
    }
  }

  datatype Message =
    | UndoPoint(contextId: Byte)
    | LayerCreate(contextId: Byte, id: U16, source: U16, target: U16, fill: U32, flags: bv8, title: string)
    | LayerDelete(contextId: Byte, id: U16, mergeTo: U16)
    | LayerAcl(contextId: Byte, id: U16, flags: bv8, exclusive: seq<Byte>)
    | LayerOrder(contextId: Byte, layers: seq<U16>)
}
