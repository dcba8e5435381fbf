/**
  Bytes, sizes and marker bytes of the Mk2PVRouter serial link.

  A frame on the wire is `0x02`, then groups `0x0A tag 0x09 value 0x09 crc 0x0D`,
  then `0x03`.  The sizes are those of the decoder's fixed buffers.
 */
module Wire {

  /** One byte of the serial link, read as an unsigned value. */
  type byte = b: int | 0 <= b < 0x100

  datatype Option<+T> = None | Some(value: T)

  /** Capacity of the tag scratch buffer, terminator included. */
  const MAX_TAG_SIZE: nat := 16
  /** Capacity of the value scratch buffer, terminator included. */
  const MAX_VAL_SIZE: nat := 16
  /** Capacity of the frame buffer (the header's comment speaks of 1024, the constant is 1048). */
  const MAX_BUF_SIZE: nat := 1048

  const START_FRAME: byte := 0x02
  const END_FRAME: byte := 0x03
  const LINE_FEED: byte := 0x0A
  const CARRIAGE_RETURN: byte := 0x0D
  const TAB: byte := 0x09
  const NUL: byte := 0x00

  /** Number of bytes `read_chars_until_` may take from the serial link per call. */
  const READ_QUOTA: nat := 128

  /** Trailing bytes of a group that the checksum does not cover (the checksum byte). */
  const CHECKSUM_AREA_END: nat := 1
}
