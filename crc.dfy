/**
  The group checksum: the low six bits of the byte sum of a group's covered
  bytes, offset by 0x20 into the printable range.
 */
module Crc {
  import opened Wire

  /** Sum of the byte values of `s`, unbounded. */
  function Sum(s: seq<byte>): nat
  {
    if s == [] then 0 else Sum(s[..|s| - 1]) + s[|s| - 1]
  }

  /**
    How many leading bytes of a group of length `len` the checksum covers:
    all but the last `tail`; none when the group is shorter than that.
   */
  function Covered(len: nat, tail: nat): (n: nat)
    ensures n <= len
    ensures len >= tail ==> n + tail == len
  {
    if len > tail then len - tail else 0
  }

  /** The checksum byte the wire format attaches to the covered bytes `s`. */
  function Checksum(s: seq<byte>): (c: byte)
    ensures 0x20 <= c <= 0x5F
    ensures c != TAB && c != LINE_FEED && c != CARRIAGE_RETURN && c != NUL
  {
    Sum(s) % 64 + 0x20
  }

  /**
    Keeping the running sum in an 8-bit accumulator (wrapping modulo 256)
    does not change its low six bits.
   */
  lemma WrapKeepsLowBits(x: nat)
    ensures x % 256 % 64 == x % 64
  {
    var q := x / 256;
    var r := x % 256;
    assert x == 64 * (4 * q) + r;
    assert r == 64 * (r / 64) + r % 64;
    assert x == 64 * (4 * q + r / 64) + r % 64;
  }

  /** On an 8-bit value, masking with 0x3F keeps exactly the remainder modulo 64. */
  lemma MaskIsMod64(x: bv8)
    ensures (x & 0x3F) as int == x as int % 64
  {
  }

  /**
    The checksum test of `check_crc_` on the group `frame[g..e]` (the bytes
    after its LF and before its CR): the group's last byte must equal the
    checksum of the bytes before it.  For an empty group the "last byte" is
    the one before the group, i.e. the LF that opened it.
   */
  predicate GroupCrcOk(frame: seq<byte>, g: nat, e: nat)
    requires 0 < g <= e <= |frame|
  {
    frame[e - 1] == Checksum(frame[g .. g + Covered(e - g, CHECKSUM_AREA_END)])
  }

  /**
    A group passes only when its last byte lies in 0x20..0x5F, the range of
    the checksum, so never when that byte is a TAB, an LF, a CR or a NUL.
   */
  lemma PassingCrcByte(frame: seq<byte>, g: nat, e: nat)
    requires 0 < g <= e <= |frame| && GroupCrcOk(frame, g, e)
    ensures 0x20 <= frame[e - 1] <= 0x5F
    ensures frame[e - 1] != TAB && frame[e - 1] != LINE_FEED && frame[e - 1] != CARRIAGE_RETURN && frame[e - 1] != NUL
  {
  }

  /** An empty group (LF directly followed by CR) never passes the checksum test. */
  lemma EmptyGroupFails(frame: seq<byte>, g: nat)
    requires 0 < g <= |frame| && frame[g - 1] == LINE_FEED
    ensures !GroupCrcOk(frame, g, g)
  {
  }

  /** A non-empty group passes exactly when its last byte is the checksum of all earlier bytes. */
  lemma GroupCrcOkIff(frame: seq<byte>, g: nat, e: nat)
    requires 0 < g < e <= |frame|
    ensures GroupCrcOk(frame, g, e) <==> frame[e - 1] == Checksum(frame[g .. e - 1])
  {
  }
}
