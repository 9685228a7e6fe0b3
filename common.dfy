// Shared value types of the HomeKit accessory model.

module Common {

  /** An unsigned 8-bit value (uint8_t). */
  type byte = x: int | 0 <= x < 0x100

  /** The width of the 16-bit lengths and cursors used by the TLV codec (uint16_t). */
  const U16: int := 0x1_0000

  /** The width of instance and accessory ids (iid_t is uint32_t). */
  const U32: int := 0x1_0000_0000

  datatype Option<T> = None | Some(value: T)

  /** No object occurs twice in s. */
  ghost predicate Distinct<T>(s: seq<T>)
  {
    forall i, j :: 0 <= i < j < |s| ==> s[i] != s[j]
  }
}
