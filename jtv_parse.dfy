/**
 * Record decoding (`ParseJTV`, libjtv.cpp) and the schedule types of
 * libjtv.h. `ParseJTV` walks the `.ndx` image in `NDX_RECORD` strides
 * after the header while the cursor is below the image size, and for each
 * stride appends one `tv_program` to the list.
 *
 * The C loop reads a whole record for every started stride, copies the
 * title at `str_seek` without consulting the `.pdt` size, and converts
 * tick counts with a wrapping subtraction and a truncating cast. Here each
 * of these is an error result for the one stride concerned: the stride is
 * reported in the returned rejections and contributes no entry.
 */
module JtvParse {

  import opened Wrappers
  import opened JtvFormat
  import opened FileTime

  /** `tv_program`, without the `index_time`/`index_etime` fields that applications fill. */
  datatype TvProgram = TvProgram(chName: string, prgName: string, chIndex: int, time: int, etime: int)

  /** `tv_list`: `tvp[0 .. num-1]` as a sequence. */
  class TvList {
    var programs: seq<TvProgram>

    constructor ()
      ensures programs == []
    {
      programs := [];
    }
  }

  /** Why a stride produced no entry. */
  datatype RecordError =
    | RaggedRecord                // fewer than `sizeof(NDX_RECORD)` bytes remain in the index image
    | BadTime(time: TimeError)    // `win_time` lies before 1970, or past what `time_t` holds
    | BadText(text: PdtError)     // copying the title at `str_seek` reads past the text image

  datatype Rejected = Rejected(stride: nat, error: RecordError)

  /** The arguments `ParseJTV` decodes: channel label and index, and the two images. */
  datatype ChannelPair = ChannelPair(chName: string, chIndex: int, ndx: seq<Byte>, pdt: seq<Byte>)

  /**
   * The title `strncpy` followed by `prg_name[sz_str] = 0` leaves: the
   * record bytes up to the first NUL, one character per byte.
   */
  function TitleText(raw: seq<Byte>): (title: string)
    ensures |title| <= |raw|
    ensures forall i :: 0 <= i < |title| ==> title[i] as int == raw[i] && raw[i] != 0
    ensures |title| < |raw| ==> raw[|title|] == 0
  {
    if raw == [] || raw[0] == 0 then [] else [raw[0] as char] + TitleText(raw[1..])
  }

  /**
   * The title the record at `seek` yields: `strncpy(prg_name, pdt_rec->str,
   * pdt_rec->sz_str)` copies the `sz_str` bytes, stopping early at a NUL,
   * so only those bytes must lie inside the image. Fails when the length
   * prefix, or a byte `strncpy` reads, lies past the image.
   */
  function ReadTitle(pdt: seq<Byte>, seek: nat): (r: Result<string, PdtError>)
    ensures r == Failure(SeekOutOfRange) <==> seek + SzStrSize > |pdt|
    ensures r == Failure(TitleOutOfRange) <==>
      seek + SzStrSize <= |pdt|
      && seek + SzStrSize + LeValue(pdt[seek..seek + SzStrSize]) > |pdt|
      && forall j :: seek + SzStrSize <= j < |pdt| ==> pdt[j] != 0
    ensures r.Success? ==>
      var start, title := seek + SzStrSize, r.value;
      start + |title| <= |pdt| && |title| <= LeValue(pdt[seek..start])
      && (forall i :: 0 <= i < |title| ==> title[i] as int == pdt[start + i] && pdt[start + i] != 0)
      && (|title| == LeValue(pdt[seek..start]) || (start + |title| < |pdt| && pdt[start + |title|] == 0))
  {
    if seek + SzStrSize > |pdt| then Failure(SeekOutOfRange)
    else
      var start := seek + SzStrSize;
      var size := LeValue(pdt[seek..start]);
      var end := if start + size <= |pdt| then start + size else |pdt|;
      var window := pdt[start..end];
      var title := TitleText(window);
      if |title| == |window| && end < start + size then
        assert forall j :: start <= j < |pdt| ==> pdt[j] == window[j - start];
        Failure(TitleOutOfRange)
      else Success(title)
  }

  /** A record whose `sz_str` bytes lie inside the image yields the title of those bytes. */
  lemma ReadTitleOfRecord(pdt: seq<Byte>, seek: nat, raw: seq<Byte>)
    requires ReadPdtRecord(pdt, seek) == Success(raw)
    ensures ReadTitle(pdt, seek) == Success(TitleText(raw))
  {
  }

  /** Where stride `k` starts in the index image. */
  function StrideOffset(abi: Abi, k: nat): nat
  {
    NdxHeaderSize(abi) + k * NdxRecordSize(abi)
  }

  lemma NextStrideOffset(abi: Abi, k: nat)
    ensures StrideOffset(abi, k + 1) == StrideOffset(abi, k) + NdxRecordSize(abi)
  {
    assert (k + 1) * NdxRecordSize(abi) == k * NdxRecordSize(abi) + NdxRecordSize(abi);
  }

  /** The number of strides the `while (ndx_ptr < ndx_size)` loop starts. */
  function StrideCount(ndxSize: nat, abi: Abi): (n: nat)
    ensures n == 0 <==> ndxSize <= NdxHeaderSize(abi)
  {
    if ndxSize <= NdxHeaderSize(abi) then 0
    else (ndxSize - NdxHeaderSize(abi) + NdxRecordSize(abi) - 1) / NdxRecordSize(abi)
  }

  /** Stride `k` is started exactly when its offset is below the image size: a ceiling division. */
  lemma StrideCountSpec(ndxSize: nat, abi: Abi, k: nat)
    ensures k < StrideCount(ndxSize, abi) <==> StrideOffset(abi, k) < ndxSize
  {
    var h, w := NdxHeaderSize(abi), NdxRecordSize(abi);
    if ndxSize > h {
      var m := ndxSize - h;
      var s := (m + w - 1) / w;
      assert s * w <= m + w - 1 < s * w + w;
      if k < s {
        assert k * w <= (s - 1) * w;
      } else {
        assert s * w <= k * w;
      }
    }
  }

  /**
   * The entry stride `k` yields, or why it yields none: a ragged record,
   * else the time conversion's error, else the title's error, else the
   * entry of the record's converted time and title.
   */
  function DecodeStride(p: ChannelPair, correctTZ: int, abi: Abi, k: nat): (r: Result<TvProgram, RecordError>)
    requires ValidCorrection(correctTZ)
    ensures r == Failure(RaggedRecord) <==> StrideOffset(abi, k) + NdxRecordSize(abi) > |p.ndx|
    ensures StrideOffset(abi, k) + NdxRecordSize(abi) <= |p.ndx| ==>
      var rec := ReadNdxRecord(p.ndx, StrideOffset(abi, k), abi);
      var time := FileTimeToTimeT(rec.winTime, correctTZ, abi);
      var title := ReadTitle(p.pdt, rec.strSeek);
      (r.Failure? && r.error.BadTime? <==> time.Failure?)
      && (time.Failure? ==> r.error == BadTime(time.error))
      && (time.Success? ==> (r.Failure? && r.error.BadText? <==> title.Failure?))
      && (time.Success? && title.Failure? ==> r.error == BadText(title.error))
      && (r.Success? ==> r.value == TvProgram(p.chName, title.value, p.chIndex, time.value, time.value + 1))
    ensures r.Success? ==> r.value.chName == p.chName && r.value.chIndex == p.chIndex
                           && r.value.etime == r.value.time + 1
  {
    var offset := StrideOffset(abi, k);
    if offset + NdxRecordSize(abi) > |p.ndx| then Failure(RaggedRecord)
    else
      var rec := ReadNdxRecord(p.ndx, offset, abi);
      match FileTimeToTimeT(rec.winTime, correctTZ, abi)
      case Failure(e) => Failure(BadTime(e))
      case Success(time) =>
        match ReadTitle(p.pdt, rec.strSeek)
        case Failure(e) => Failure(BadText(e))
        case Success(title) => Success(TvProgram(p.chName, title, p.chIndex, time, time + 1))
  }

  /**
   * Why a whole record is rejected: its tick count lies before 1970
   * exactly when the time is invalid; a time out of range happens only
   * with a 32-bit `time_t`; under LP64 a record from 1970 on is rejected
   * only for its title, exactly when `strncpy` would read past the text
   * image.
   */
  lemma StrideRejectionCauses(p: ChannelPair, correctTZ: int, abi: Abi, k: nat)
    requires ValidCorrection(correctTZ)
    requires StrideOffset(abi, k) + NdxRecordSize(abi) <= |p.ndx|
    ensures var rec := ReadNdxRecord(p.ndx, StrideOffset(abi, k), abi);
      var r := DecodeStride(p, correctTZ, abi, k);
      (r == Failure(BadTime(InvalidTimestamp)) <==> rec.winTime < TIME_T_ZERO)
      && (r == Failure(BadTime(TimeOutOfRange)) ==> abi == ILP32)
      && (abi == LP64 && TIME_T_ZERO <= rec.winTime ==>
            (r.Failure? <==> ReadTitle(p.pdt, rec.strSeek).Failure?))
  {
    var rec := ReadNdxRecord(p.ndx, StrideOffset(abi, k), abi);
    if abi == LP64 && TIME_T_ZERO <= rec.winTime {
      Lp64FromEpochConverts(rec.winTime, correctTZ);
    }
  }

  /** The outcome of every stride the loop starts, in stride order. */
  function Outcomes(p: ChannelPair, correctTZ: int, abi: Abi): (outs: seq<Result<TvProgram, RecordError>>)
    requires ValidCorrection(correctTZ)
    ensures |outs| == StrideCount(|p.ndx|, abi)
  {
    seq(StrideCount(|p.ndx|, abi), k requires 0 <= k => DecodeStride(p, correctTZ, abi, k))
  }

  /** The entries a sequence of stride outcomes appends, in stride order. */
  function Entries(outs: seq<Result<TvProgram, RecordError>>): seq<TvProgram>
  {
    if outs == [] then []
    else Entries(outs[..|outs| - 1])
           + match outs[|outs| - 1] case Success(e) => [e] case Failure(_) => []
  }

  /** The strides among `outs` that yield no entry, with the reason. */
  function Failures(outs: seq<Result<TvProgram, RecordError>>): seq<Rejected>
  {
    if outs == [] then []
    else Failures(outs[..|outs| - 1])
           + match outs[|outs| - 1] case Success(_) => [] case Failure(e) => [Rejected(|outs| - 1, e)]
  }

  /** One more stride outcome extends either the entries or the rejections. */
  lemma EntriesFailuresSnoc(outs: seq<Result<TvProgram, RecordError>>, o: Result<TvProgram, RecordError>)
    ensures Entries(outs + [o]) == Entries(outs) + match o case Success(e) => [e] case Failure(_) => []
    ensures Failures(outs + [o]) == Failures(outs) + match o case Success(_) => [] case Failure(e) => [Rejected(|outs|, e)]
  {
    assert (outs + [o])[..|outs|] == outs;
  }

  /** Stride `k` adds its entry or its rejection to what strides `0 .. k-1` gave. */
  lemma StrideStep(p: ChannelPair, correctTZ: int, abi: Abi, k: nat)
    requires ValidCorrection(correctTZ) && k < StrideCount(|p.ndx|, abi)
    ensures var outs, d := Outcomes(p, correctTZ, abi), DecodeStride(p, correctTZ, abi, k);
      Entries(outs[..k + 1]) == Entries(outs[..k]) + (if d.Success? then [d.value] else [])
      && Failures(outs[..k + 1]) == Failures(outs[..k]) + (if d.Success? then [] else [Rejected(k, d.error)])
  {
    var outs := Outcomes(p, correctTZ, abi);
    assert outs[..k + 1] == outs[..k] + [outs[k]];
    EntriesFailuresSnoc(outs[..k], outs[k]);
  }

  /**
   * `ParseJTV(ch_name, ndx_image, ndx_size, pdt_image, pdt_size, tvl, ch_index, correctTZ)`:
   * appends the entries of every started stride that decodes, leaves the
   * entries already in `tvl` alone, and returns the strides that do not decode.
   */
  method ParseJTV(chName: string, ndx: seq<Byte>, pdt: seq<Byte>, tvl: TvList,
                  chIndex: int, correctTZ: int, abi: Abi) returns (rejected: seq<Rejected>)
    requires ValidCorrection(correctTZ)
    modifies tvl
    ensures var outs := Outcomes(ChannelPair(chName, chIndex, ndx, pdt), correctTZ, abi);
      tvl.programs == old(tvl.programs) + Entries(outs) && rejected == Failures(outs)
  {
    var p := ChannelPair(chName, chIndex, ndx, pdt);
    ghost var outs := Outcomes(p, correctTZ, abi);
    var ndxPtr := NdxHeaderSize(abi);
    var k := 0;
    rejected := [];
    while ndxPtr < |ndx|
      invariant ndxPtr == StrideOffset(abi, k)
      invariant k <= |outs|
      invariant tvl.programs == old(tvl.programs) + Entries(outs[..k])
      invariant rejected == Failures(outs[..k])
      decreases |ndx| - ndxPtr
    {
      StrideCountSpec(|ndx|, abi, k);
      var decoded := DecodeStride(p, correctTZ, abi, k);
      StrideStep(p, correctTZ, abi, k);
      if decoded.Success? {
        tvl.programs := tvl.programs + [decoded.value];
      } else {
        rejected := rejected + [Rejected(k, decoded.error)];
      }
      NextStrideOffset(abi, k);
      ndxPtr := ndxPtr + NdxRecordSize(abi);
      k := k + 1;
    }
    StrideCountSpec(|ndx|, abi, k);
    assert outs[..k] == outs;
  }

  /** Every stride is accounted for exactly once: as an entry or as a rejection naming its error. */
  lemma {:induction false} StridesPartitioned(outs: seq<Result<TvProgram, RecordError>>)
    ensures |Entries(outs)| + |Failures(outs)| == |outs|
    ensures forall rej :: rej in Failures(outs) ==>
              rej.stride < |outs| && outs[rej.stride] == Failure(rej.error)
    ensures forall k :: 0 <= k < |outs| && outs[k].Failure? ==> Rejected(k, outs[k].error) in Failures(outs)
  {
    if outs != [] {
      StridesPartitioned(outs[..|outs| - 1]);
    }
  }

  /** Without rejections, entry `i` is the entry of stride `i`. */
  lemma {:induction false} CleanParse(outs: seq<Result<TvProgram, RecordError>>)
    requires Failures(outs) == []
    ensures |Entries(outs)| == |outs|
    ensures forall i :: 0 <= i < |outs| ==> outs[i] == Success(Entries(outs)[i])
  {
    if outs != [] {
      var front := outs[..|outs| - 1];
      assert |Failures(front)| <= |Failures(outs)|;
      CleanParse(front);
      assert forall i :: 0 <= i < |front| ==> outs[i] == front[i];
    }
  }

  /** Every entry carries the channel label and index it was decoded for, and `etime = time + 1`. */
  lemma EntriesCarryChannel(p: ChannelPair, correctTZ: int, abi: Abi)
    requires ValidCorrection(correctTZ)
    ensures forall e :: e in Entries(Outcomes(p, correctTZ, abi)) ==>
              e.chName == p.chName && e.chIndex == p.chIndex && e.etime == e.time + 1
  {
    var outs := Outcomes(p, correctTZ, abi);
    EntriesDecoded(outs);
    forall e | e in Entries(outs)
      ensures e.chName == p.chName && e.chIndex == p.chIndex && e.etime == e.time + 1
    {
      var k :| 0 <= k < |outs| && outs[k] == Success(e);
      assert outs[k] == DecodeStride(p, correctTZ, abi, k);
    }
  }

  /** Every entry is the successful outcome of some stride. */
  lemma {:induction false} EntriesDecoded(outs: seq<Result<TvProgram, RecordError>>)
    ensures forall e :: e in Entries(outs) ==> exists k :: 0 <= k < |outs| && outs[k] == Success(e)
  {
    if outs != [] {
      var front := outs[..|outs| - 1];
      EntriesDecoded(front);
      forall e | e in Entries(outs)
        ensures exists k :: 0 <= k < |outs| && outs[k] == Success(e)
      {
        if e in Entries(front) {
          var k :| 0 <= k < |front| && front[k] == Success(e);
          assert outs[k] == Success(e);
        } else {
          assert outs[|outs| - 1] == Success(e);
        }
      }
    }
  }

  /** With a partial record at the end, the last started stride runs past the image. */
  lemma LastStrideRagged(ndxSize: nat, abi: Abi)
    requires ndxSize > NdxHeaderSize(abi)
    requires (ndxSize - NdxHeaderSize(abi)) % NdxRecordSize(abi) != 0
    ensures StrideCount(ndxSize, abi) > 0
    ensures StrideOffset(abi, StrideCount(ndxSize, abi) - 1) + NdxRecordSize(abi) > ndxSize
  {
    var m := ndxSize - NdxHeaderSize(abi);
    match abi
    case LP64 =>
      assert (m + 15) / 16 == m / 16 + 1;
    case ILP32 =>
      assert (m + 11) / 12 == m / 12 + 1;
  }

  /** In an image of whole records every started stride holds a whole record. */
  lemma WholeStrideFits(ndxSize: nat, abi: Abi, k: nat)
    requires ndxSize >= NdxHeaderSize(abi) && (ndxSize - NdxHeaderSize(abi)) % NdxRecordSize(abi) == 0
    requires k < StrideCount(ndxSize, abi)
    ensures StrideOffset(abi, k) + NdxRecordSize(abi) <= ndxSize
  {
    var m := ndxSize - NdxHeaderSize(abi);
    match abi
    case LP64 =>
      assert (m + 15) / 16 == m / 16;
    case ILP32 =>
      assert (m + 11) / 12 == m / 12;
  }

  /** A rejection names the stride that failed and that stride's error. */
  lemma RejectionSource(outs: seq<Result<TvProgram, RecordError>>, rej: Rejected)
    requires rej in Failures(outs)
    ensures rej.stride < |outs| && outs[rej.stride] == Failure(rej.error)
  {
    StridesPartitioned(outs);
  }

  /** A trailing partial record is not decoded: its stride is the last one and is rejected as ragged. */
  lemma RaggedTailRejected(p: ChannelPair, correctTZ: int, abi: Abi)
    requires ValidCorrection(correctTZ)
    requires |p.ndx| > NdxHeaderSize(abi)
    requires (|p.ndx| - NdxHeaderSize(abi)) % NdxRecordSize(abi) != 0
    ensures var rs := Failures(Outcomes(p, correctTZ, abi));
      rs != [] && rs[|rs| - 1] == Rejected(StrideCount(|p.ndx|, abi) - 1, RaggedRecord)
  {
    var s := StrideCount(|p.ndx|, abi);
    LastStrideRagged(|p.ndx|, abi);
    OutcomeRagged(p, correctTZ, abi, s - 1);
  }

  /** Stride `k`'s outcome is the ragged rejection exactly when its record runs past the image. */
  lemma OutcomeRagged(p: ChannelPair, correctTZ: int, abi: Abi, k: nat)
    requires ValidCorrection(correctTZ) && k < StrideCount(|p.ndx|, abi)
    ensures Outcomes(p, correctTZ, abi)[k] == Failure(RaggedRecord)
            <==> StrideOffset(abi, k) + NdxRecordSize(abi) > |p.ndx|
  {
    assert Outcomes(p, correctTZ, abi)[k] == DecodeStride(p, correctTZ, abi, k);
  }

  /** In an image of whole records no stride is rejected as ragged. */
  lemma WholeRecordsNotRagged(p: ChannelPair, correctTZ: int, abi: Abi)
    requires ValidCorrection(correctTZ)
    requires |p.ndx| >= NdxHeaderSize(abi) && (|p.ndx| - NdxHeaderSize(abi)) % NdxRecordSize(abi) == 0
    ensures forall rej :: rej in Failures(Outcomes(p, correctTZ, abi)) ==> rej.error != RaggedRecord
  {
    var outs := Outcomes(p, correctTZ, abi);
    forall rej | rej in Failures(outs)
      ensures rej.error != RaggedRecord
    {
      RejectionSource(outs, rej);
      WholeStrideFits(|p.ndx|, abi, rej.stride);
      OutcomeRagged(p, correctTZ, abi, rej.stride);
    }
  }

  /** Outcomes that all succeed yield exactly their entries and no rejection. */
  lemma AllDecoded(outs: seq<Result<TvProgram, RecordError>>, expected: seq<TvProgram>)
    requires |outs| == |expected|
    requires forall i :: 0 <= i < |outs| ==> outs[i] == Success(expected[i])
    ensures Failures(outs) == [] && Entries(outs) == expected
  {
    NoFailures(outs);
    CleanParse(outs);
  }

  lemma {:induction false} NoFailures(outs: seq<Result<TvProgram, RecordError>>)
    requires forall i :: 0 <= i < |outs| ==> outs[i].Success?
    ensures Failures(outs) == []
  {
    if outs != [] {
      NoFailures(outs[..|outs| - 1]);
    }
  }

  /** A title without NUL bytes is copied whole. */
  lemma {:induction false} TitleTextWithoutNul(raw: seq<Byte>)
    requires forall i :: 0 <= i < |raw| ==> raw[i] != 0
    ensures |TitleText(raw)| == |raw|
  {
    if raw != [] {
      TitleTextWithoutNul(raw[1..]);
    }
  }

  /** An index image of whole records has one stride per record. */
  lemma EncodedStrideCount(recCount: nat, records: seq<NdxRecord>, abi: Abi)
    ensures StrideCount(|EncodeNdx(recCount, records, abi)|, abi) == |records|
  {
    var n := |records|;
    match abi
    case LP64 =>
      assert (n * 16 + 15) / 16 == n;
    case ILP32 =>
      assert (n * 12 + 11) / 12 == n;
  }

  /** The entry a record with time `winTime` and title bytes `text` describes. */
  function RecordEntry(p: ChannelPair, correctTZ: int, abi: Abi, winTime: nat, text: seq<Byte>): TvProgram
    requires Convertible(winTime, correctTZ, abi)
  {
    var time := FileTimeToTimeT(winTime, correctTZ, abi).value;
    TvProgram(p.chName, TitleText(text), p.chIndex, time, time + 1)
  }

  /** A record time the conversion accepts: from 1970 on, and within `time_t`. */
  predicate Convertible(winTime: nat, correctTZ: int, abi: Abi)
  {
    winTime < U64_MODULUS && ValidCorrection(correctTZ) && FileTimeToTimeT(winTime, correctTZ, abi).Success?
  }

  /**
   * Decoding a stride of an encoded index image whose record points at
   * text `j` of an encoded text image gives the entry of that record's
   * time and that text.
   */
  lemma EncodedStrideDecodes(p: ChannelPair, correctTZ: int, abi: Abi, recCount: nat,
                             records: seq<NdxRecord>, texts: seq<seq<Byte>>, i: nat, j: nat)
    requires ValidCorrection(correctTZ)
    requires p.ndx == EncodeNdx(recCount, records, abi) && p.pdt == EncodePdt(texts)
    requires i < |records| && j < |texts| && |texts[j]| < Pow256(SzStrSize)
    requires Convertible(records[i].winTime, correctTZ, abi)
    requires Storable(records[i], abi) && records[i].strSeek == SeekOf(texts, j)
    ensures DecodeStride(p, correctTZ, abi, i) == Success(RecordEntry(p, correctTZ, abi, records[i].winTime, texts[j]))
  {
    NdxRoundTrip(recCount, records, abi, i);
    assert ReadNdxRecord(p.ndx, StrideOffset(abi, i), abi) == records[i];
    PdtImageRoundTrip(texts, j);
    ReadTitleOfRecord(p.pdt, SeekOf(texts, j), texts[j]);
  }

  /** Records and texts written in step: stride `i` decodes to the entry of record `i` and text `i`. */
  predicate WrittenInStep(abi: Abi, correctTZ: int, records: seq<NdxRecord>, texts: seq<seq<Byte>>)
  {
    |texts| == |records|
    && forall i :: 0 <= i < |records| ==>
         Convertible(records[i].winTime, correctTZ, abi) && Storable(records[i], abi)
         && records[i].strSeek == SeekOf(texts, i) && |texts[i]| < Pow256(SzStrSize)
  }

  /**
   * Index and text images written record by record, record `i` pointing
   * at text `i` with a time the conversion accepts, decode without
   * rejections into one entry per record, in record order.
   */
  lemma EncodedImagesDecode(p: ChannelPair, correctTZ: int, abi: Abi, recCount: nat,
                            records: seq<NdxRecord>, texts: seq<seq<Byte>>)
    requires ValidCorrection(correctTZ)
    requires p.ndx == EncodeNdx(recCount, records, abi) && p.pdt == EncodePdt(texts)
    requires WrittenInStep(abi, correctTZ, records, texts)
    ensures Failures(Outcomes(p, correctTZ, abi)) == []
    ensures |Entries(Outcomes(p, correctTZ, abi))| == |records|
    ensures forall i :: 0 <= i < |records| ==>
              Entries(Outcomes(p, correctTZ, abi))[i] == RecordEntry(p, correctTZ, abi, records[i].winTime, texts[i])
  {
    var outs := Outcomes(p, correctTZ, abi);
    EncodedStrideCount(recCount, records, abi);
    var expected := seq(|records|, i requires 0 <= i < |records| => RecordEntry(p, correctTZ, abi, records[i].winTime, texts[i]));
    forall i | 0 <= i < |outs|
      ensures outs[i] == Success(expected[i])
    {
      EncodedStrideDecodes(p, correctTZ, abi, recCount, records, texts, i, i);
    }
    AllDecoded(outs, expected);
  }
}
