/**
 * Little-endian packing of 16- and 32-bit quantities into byte buffers
 * (cs/csendian.h). `ULong` is `unsigned long`: 64 bits wide under LP64,
 * where `set_le_long` keeps only the low 32 bits of its argument, and 32
 * bits wide under ILP32, where it stores the whole value. The 64-bit model
 * covers both: an ILP32 value is one whose high 32 bits are zero.
 */
module CsEndian {

  type UByte = bv8
  type UShort = bv16
  type ULong = bv64

  /** `get_le_short`: byte 0 is the low byte. */
  function GetLeShort(buff: seq<UByte>): (r: UShort)
    requires |buff| >= 2
    ensures r == buff[0] as UShort + 0x100 * buff[1] as UShort
  {
    (buff[0] as UShort) | ((buff[1] as UShort) << 8)
  }

  /** `get_le_long`: four bytes, low byte first; never reaches 2^32. */
  function GetLeLong(buff: seq<UByte>): (r: ULong)
    requires |buff| >= 4
    ensures r == buff[0] as ULong + 0x100 * buff[1] as ULong
                 + 0x1_0000 * buff[2] as ULong + 0x100_0000 * buff[3] as ULong
    ensures r < 0x1_0000_0000
  {
    (buff[0] as ULong) | ((buff[1] as ULong) << 8)
      | ((buff[2] as ULong) << 16) | ((buff[3] as ULong) << 24)
  }

  /** The two bytes `set_le_short` stores for `value`. */
  function LeShortBytes(value: UShort): (r: seq<UByte>)
    ensures |r| == 2
  {
    [(value & 0xff) as UByte, ((value >> 8) & 0xff) as UByte]
  }

  /** The four bytes `set_le_long` stores for `value`: its low 32 bits. */
  function LeLongBytes(value: ULong): (r: seq<UByte>)
    ensures |r| == 4
  {
    [(value & 0xff) as UByte, ((value >> 8) & 0xff) as UByte,
     ((value >> 16) & 0xff) as UByte, ((value >> 24) & 0xff) as UByte]
  }

  /** `set_le_short`: writes `buff[0..1]` and nothing else. */
  method SetLeShort(buff: array<UByte>, value: UShort)
    requires buff.Length >= 2
    modifies buff
    ensures buff[..2] == LeShortBytes(value)
    ensures buff[2..] == old(buff[2..])
    ensures GetLeShort(buff[..]) == value
  {
    buff[0] := (value & 0xff) as UByte;
    buff[1] := ((value >> 8) & 0xff) as UByte;
    ShortRoundTrip(value);
  }

  /** `set_le_long`: writes `buff[0..3]` and nothing else; reads back `value mod 2^32`. */
  method SetLeLong(buff: array<UByte>, value: ULong)
    requires buff.Length >= 4
    modifies buff
    ensures buff[..4] == LeLongBytes(value)
    ensures buff[4..] == old(buff[4..])
    ensures GetLeLong(buff[..]) == value & 0xffff_ffff
  {
    buff[0] := (value & 0xff) as UByte;
    buff[1] := ((value >> 8) & 0xff) as UByte;
    buff[2] := ((value >> 16) & 0xff) as UByte;
    buff[3] := ((value >> 24) & 0xff) as UByte;
    LongRoundTrip(value);
  }

  /** Reading back what `set_le_short` stored gives the value stored. */
  lemma ShortRoundTrip(value: UShort)
    ensures GetLeShort(LeShortBytes(value)) == value
  {
  }

  /** Reading back what `set_le_long` stored gives the value modulo 2^32. */
  lemma LongRoundTrip(value: ULong)
    ensures GetLeLong(LeLongBytes(value)) == value & 0xffff_ffff
    ensures GetLeLong(LeLongBytes(value)) == value % 0x1_0000_0000
  {
  }

  /** Storing the value read from two bytes restores those bytes. */
  lemma ShortBytesRoundTrip(buff: seq<UByte>)
    requires |buff| >= 2
    ensures LeShortBytes(GetLeShort(buff)) == buff[..2]
  {
  }

  /** Storing the value read from four bytes restores those bytes. */
  lemma LongBytesRoundTrip(buff: seq<UByte>)
    requires |buff| >= 4
    ensures LeLongBytes(GetLeLong(buff)) == buff[..4]
  {
  }
}
