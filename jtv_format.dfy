/**
 * The packed binary layouts of a JTV channel pair (jtv.h): the `.ndx`
 * index image (an `NDX_HEADER` followed by `NDX_RECORD`s) and the `.pdt`
 * text image (length-prefixed `PDT_RECORD`s). The structs are read by
 * casting a pointer into the image, so every multi-byte field is a native
 * little-endian load. The width of `unsigned long` depends on the data
 * model the library is compiled for.
 */
module JtvFormat {

  import opened Wrappers

  /** One byte of an image (a C `char` buffer read as unsigned bytes). */
  type Byte = b: int | 0 <= b < 256

  /** The C data model: `unsigned long` is 8 bytes under LP64, 4 under ILP32. */
  datatype Abi = LP64 | ILP32

  function ULongSize(abi: Abi): (n: nat)
    ensures n == 4 || n == 8
  {
    match abi
    case LP64 => 8
    case ILP32 => 4
  }

  /** `sizeof(NDX_HEADER)`: a single `unsigned long rec_count`. */
  function NdxHeaderSize(abi: Abi): nat
  {
    ULongSize(abi)
  }

  /** Width of `win_time`, an `unsigned long long`. */
  const WinTimeSize: nat := 8

  /** `sizeof(NDX_RECORD)`: `win_time` directly followed by `str_seek`, no padding. */
  function NdxRecordSize(abi: Abi): (n: nat)
    ensures n == WinTimeSize + ULongSize(abi)
    ensures n == 12 || n == 16
  {
    WinTimeSize + ULongSize(abi)
  }

  /** Width of `sz_str`, the `unsigned short` that starts a `PDT_RECORD`. */
  const SzStrSize: nat := 2

  /** The unsigned value of bytes stored low byte first. */
  function LeValue(bytes: seq<Byte>): (v: nat)
    ensures v < Pow256(|bytes|)
  {
    if bytes == [] then 0 else bytes[0] + 256 * LeValue(bytes[1..])
  }

  function Pow256(n: nat): (p: nat)
    ensures p >= 1
  {
    if n == 0 then 1 else 256 * Pow256(n - 1)
  }

  /** Eight bytes hold exactly the values below 2^64. */
  lemma Pow256Eight()
    ensures Pow256(8) == 0x1_0000_0000_0000_0000
  {
    assert Pow256(2) == 0x1_0000;
    assert Pow256(4) == 0x1_0000_0000;
    assert Pow256(6) == 0x1_0000_0000_0000;
  }

  /** The `width` bytes that store `v` low byte first. */
  function LeBytes(v: nat, width: nat): (bytes: seq<Byte>)
    ensures |bytes| == width
  {
    if width == 0 then [] else [v % 256] + LeBytes(v / 256, width - 1)
  }

  /** Storing a value that fits and loading it back gives the value. */
  lemma {:induction false} LeValueOfLeBytes(v: nat, width: nat)
    requires v < Pow256(width)
    ensures LeValue(LeBytes(v, width)) == v
  {
    if width > 0 {
      var bytes := LeBytes(v, width);
      assert bytes[1..] == LeBytes(v / 256, width - 1);
      LeValueOfLeBytes(v / 256, width - 1);
    }
  }

  /** Loading bytes and storing the value back restores the bytes. */
  lemma {:induction false} LeBytesOfLeValue(bytes: seq<Byte>)
    ensures LeBytes(LeValue(bytes), |bytes|) == bytes
  {
    if bytes != [] {
      var v := LeValue(bytes);
      assert v % 256 == bytes[0] && v / 256 == LeValue(bytes[1..]);
      LeBytesOfLeValue(bytes[1..]);
    }
  }

  /** One decoded `NDX_RECORD`. */
  datatype NdxRecord = NdxRecord(winTime: nat, strSeek: nat)

  /** The record a `.ndx` image holds at byte `offset`. */
  function ReadNdxRecord(image: seq<Byte>, offset: nat, abi: Abi): (r: NdxRecord)
    requires offset + NdxRecordSize(abi) <= |image|
    ensures r.winTime < Pow256(WinTimeSize) && r.winTime < 0x1_0000_0000_0000_0000
    ensures r.strSeek < Pow256(ULongSize(abi))
  {
    Pow256Eight();
    NdxRecord(LeValue(image[offset..offset + WinTimeSize]),
              LeValue(image[offset + WinTimeSize..offset + NdxRecordSize(abi)]))
  }

  /** A record whose fields fit their widths. */
  predicate Storable(r: NdxRecord, abi: Abi)
  {
    r.winTime < Pow256(WinTimeSize) && r.strSeek < Pow256(ULongSize(abi))
  }

  function EncodeNdxRecord(r: NdxRecord, abi: Abi): (bytes: seq<Byte>)
    ensures |bytes| == NdxRecordSize(abi)
  {
    LeBytes(r.winTime, WinTimeSize) + LeBytes(r.strSeek, ULongSize(abi))
  }

  /** An `.ndx` image: a header holding `recCount`, then the records in order. */
  function EncodeNdx(recCount: nat, records: seq<NdxRecord>, abi: Abi): (image: seq<Byte>)
    ensures |image| == NdxHeaderSize(abi) + |records| * NdxRecordSize(abi)
  {
    if records == [] then LeBytes(recCount, NdxHeaderSize(abi))
    else EncodeNdx(recCount, records[..|records| - 1], abi) + EncodeNdxRecord(records[|records| - 1], abi)
  }

  /** Decoding stride `i` of an encoded index image gives back record `i`. */
  lemma {:induction false} NdxRoundTrip(recCount: nat, records: seq<NdxRecord>, abi: Abi, i: nat)
    requires i < |records|
    requires Storable(records[i], abi)
    ensures NdxHeaderSize(abi) + (i + 1) * NdxRecordSize(abi) <= |EncodeNdx(recCount, records, abi)|
    ensures ReadNdxRecord(EncodeNdx(recCount, records, abi), NdxHeaderSize(abi) + i * NdxRecordSize(abi), abi)
            == records[i]
  {
    var n, w := |records|, NdxRecordSize(abi);
    var front := EncodeNdx(recCount, records[..n - 1], abi);
    var image := front + EncodeNdxRecord(records[n - 1], abi);
    assert image == EncodeNdx(recCount, records, abi);
    var off := NdxHeaderSize(abi) + i * w;
    StrideArithmetic(NdxHeaderSize(abi), i, n, w);
    if i == n - 1 {
      assert off == |front|;
      RecordRoundTrip(front, records[i], abi);
    } else {
      NdxRoundTrip(recCount, records[..n - 1], abi, i);
      assert records[..n - 1][i] == records[i];
      PrefixRead(front, EncodeNdxRecord(records[n - 1], abi), off, abi);
    }
    assert ReadNdxRecord(image, off, abi) == records[i];
  }

  lemma StrideArithmetic(h: nat, i: nat, n: nat, w: nat)
    requires i < n
    ensures h + (i + 1) * w == h + i * w + w
    ensures h + (i + 1) * w <= h + n * w
    ensures h + n * w == h + (n - 1) * w + w
    ensures i < n - 1 ==> h + (i + 1) * w <= h + (n - 1) * w
  {
    assert (i + 1) * w <= n * w;
    if i < n - 1 {
      assert (i + 1) * w <= (n - 1) * w;
    }
  }

  /** A record appended after `front` is read back at offset `|front|`. */
  lemma RecordRoundTrip(front: seq<Byte>, r: NdxRecord, abi: Abi)
    requires Storable(r, abi)
    ensures ReadNdxRecord(front + EncodeNdxRecord(r, abi), |front|, abi) == r
  {
    var image := front + EncodeNdxRecord(r, abi);
    var off := |front|;
    assert image[off..off + WinTimeSize] == LeBytes(r.winTime, WinTimeSize);
    assert image[off + WinTimeSize..off + NdxRecordSize(abi)] == LeBytes(r.strSeek, ULongSize(abi));
    LeValueOfLeBytes(r.winTime, WinTimeSize);
    LeValueOfLeBytes(r.strSeek, ULongSize(abi));
  }

  /** Appending bytes does not change a record read wholly inside the prefix. */
  lemma PrefixRead(front: seq<Byte>, back: seq<Byte>, off: nat, abi: Abi)
    requires off + NdxRecordSize(abi) <= |front|
    ensures ReadNdxRecord(front + back, off, abi) == ReadNdxRecord(front, off, abi)
  {
    var image := front + back;
    assert image[off..off + WinTimeSize] == front[off..off + WinTimeSize];
    assert image[off + WinTimeSize..off + NdxRecordSize(abi)]
        == front[off + WinTimeSize..off + NdxRecordSize(abi)];
  }

  /** Why a `PDT_RECORD` cannot be read at the stored offset. */
  datatype PdtError =
    | SeekOutOfRange   // `str_seek` leaves no room for `sz_str`
    | TitleOutOfRange  // the `sz_str` bytes run past the image

  /**
   * The `sz_str` string bytes of the record at `seek`, with the bounds the
   * C code never checks made explicit: it dereferences `pdt_image + str_seek`
   * without ever consulting `pdt_size`.
   */
  function ReadPdtRecord(image: seq<Byte>, seek: nat): (r: Result<seq<Byte>, PdtError>)
    ensures r.Failure? <==> seek + SzStrSize > |image|
                            || seek + SzStrSize + LeValue(image[seek..seek + SzStrSize]) > |image|
    ensures r.Success? ==> |r.value| == LeValue(image[seek..seek + SzStrSize])
                           && image[seek + SzStrSize..seek + SzStrSize + |r.value|] == r.value
    ensures r == Failure(SeekOutOfRange) <==> seek + SzStrSize > |image|
  {
    if seek + SzStrSize > |image| then Failure(SeekOutOfRange)
    else
      var size := LeValue(image[seek..seek + SzStrSize]);
      if seek + SzStrSize + size > |image| then Failure(TitleOutOfRange)
      else Success(image[seek + SzStrSize..seek + SzStrSize + size])
  }

  /** One `PDT_RECORD`: the length prefix, then the bytes, no terminator. */
  function EncodePdtRecord(text: seq<Byte>): (bytes: seq<Byte>)
    ensures |bytes| == SzStrSize + |text|
  {
    LeBytes(|text|, SzStrSize) + text
  }

  /** Reading the record that was written at `seek` gives back its text. */
  lemma PdtRoundTrip(before: seq<Byte>, text: seq<Byte>, after: seq<Byte>)
    requires |text| < Pow256(SzStrSize)
    ensures ReadPdtRecord(before + EncodePdtRecord(text) + after, |before|) == Success(text)
  {
    var image := before + EncodePdtRecord(text) + after;
    var seek := |before|;
    assert image[seek..seek + SzStrSize] == LeBytes(|text|, SzStrSize);
    LeValueOfLeBytes(|text|, SzStrSize);
    assert image[seek + SzStrSize..seek + SzStrSize + |text|] == text;
  }

  /** A `.pdt` image holding the given texts as consecutive records. */
  function EncodePdt(texts: seq<seq<Byte>>): (image: seq<Byte>)
  {
    if texts == [] then [] else EncodePdtRecord(texts[0]) + EncodePdt(texts[1..])
  }

  /** The offset of text `i` in `EncodePdt(texts)`: what its index record stores as `str_seek`. */
  function SeekOf(texts: seq<seq<Byte>>, i: nat): nat
    requires i <= |texts|
  {
    |EncodePdt(texts[..i])|
  }

  lemma {:induction false} EncodePdtAppend(a: seq<seq<Byte>>, b: seq<seq<Byte>>)
    ensures EncodePdt(a + b) == EncodePdt(a) + EncodePdt(b)
  {
    if a == [] {
      assert a + b == b;
    } else {
      assert (a + b)[0] == a[0] && (a + b)[1..] == a[1..] + b;
      EncodePdtAppend(a[1..], b);
    }
  }

  /** Text `i` of an encoded `.pdt` image is read back at `SeekOf(texts, i)`. */
  lemma PdtImageRoundTrip(texts: seq<seq<Byte>>, i: nat)
    requires i < |texts|
    requires |texts[i]| < Pow256(SzStrSize)
    ensures ReadPdtRecord(EncodePdt(texts), SeekOf(texts, i)) == Success(texts[i])
  {
    var tail := texts[i..];
    assert texts == texts[..i] + tail;
    EncodePdtAppend(texts[..i], tail);
    assert tail[0] == texts[i] && tail[1..] == texts[i + 1..];
    var front, rest := EncodePdt(texts[..i]), EncodePdt(texts[i + 1..]);
    assert EncodePdt(texts) == front + EncodePdtRecord(texts[i]) + rest;
    PdtRoundTrip(front, texts[i], rest);
  }
}
