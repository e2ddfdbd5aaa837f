/**
 * The schedule builder (`LoadJTV`, libjtv.cpp): pairs every archive member
 * whose name contains ".ndx" with the ".pdt" member of the same stem,
 * decodes each pair with `ParseJTV` under the channel's alias, and then
 * infers end times in a post-pass over the whole list.
 *
 * The archive is the sequence of its members in enumeration order
 * (`GetFile(0)`, `GetFile(1)`, ...); looking a member up by name finds the
 * first member with that name. File-name conversion with iconv is the
 * identity; whether the converter opens is a parameter.
 */
module JtvLoad {

  import opened Wrappers
  import opened CLib
  import opened JtvFormat
  import opened FileTime
  import opened ChannelAlias
  import opened JtvParse

  /** One archive member: its name and contents. */
  datatype Member = Member(name: string, data: seq<Byte>)

  const NDX_EXT: string := ".ndx"
  const PDT_EXT: string := ".pdt"

  /**
   * `csArchive::Read(name, &size)` (and `FileExists`, which is `Read(..).Some?`):
   * the contents of the first member called `name`, or None when there is none.
   */
  function Read(archive: seq<Member>, name: string): (r: Option<seq<Byte>>)
    ensures r.None? <==> forall i :: 0 <= i < |archive| ==> archive[i].name != name
    ensures r.Some? ==> exists i :: 0 <= i < |archive| && archive[i] == Member(name, r.value)
                                    && forall j :: 0 <= j < i ==> archive[j].name != name
  {
    if archive == [] then None
    else if archive[0].name == name then Some(archive[0].data)
    else
      var r := Read(archive[1..], name);
      assert forall i :: 0 < i < |archive| ==> archive[i] == archive[1..][i - 1];
      r
  }

  predicate FileExists(archive: seq<Member>, name: string)
  {
    Read(archive, name).Some?
  }

  /**
   * `strcpy(strstr(fpdt_name, ".ndx"), ".pdt")` on a copy of the index
   * member's name: None when the name contains no ".ndx" (the member is not
   * an index file); otherwise the name cut at its first ".ndx", with ".pdt"
   * written there and everything after it dropped.
   */
  function PdtName(ndxName: string): (r: Option<string>)
    ensures r.None? <==> forall j :: 0 <= j <= |ndxName| ==> !OccursAt(ndxName, NDX_EXT, j)
    ensures r.Some? ==> var stem := |r.value| - |PDT_EXT|;
      0 <= stem && OccursAt(ndxName, NDX_EXT, stem) && OccursAt(r.value, PDT_EXT, stem)
      && r.value[..stem] == ndxName[..stem]
      && forall j :: 0 <= j < stem ==> !OccursAt(ndxName, NDX_EXT, j)
  {
    match StrStr(ndxName, NDX_EXT)
    case None => None
    case Some(i) => Some(ndxName[..i] + PDT_EXT)
  }

  /**
   * The channel key: the text member's name with `*strstr(ch_name, ".pdt") = 0`
   * applied, i.e. cut before its first ".pdt". The source dereferences that
   * `strstr` result, so the name must contain ".pdt".
   */
  function ChannelKey(pdtName: string): (key: string)
    requires exists j :: 0 <= j <= |pdtName| && OccursAt(pdtName, PDT_EXT, j)
    ensures |key| <= |pdtName| && key == pdtName[..|key|] && OccursAt(pdtName, PDT_EXT, |key|)
    ensures forall j :: 0 <= j <= |key| ==> !OccursAt(key, PDT_EXT, j)
  {
    var i := StrStr(pdtName, PDT_EXT).value;
    var key := pdtName[..i];
    assert forall j :: 0 <= j <= |key| && OccursAt(key, PDT_EXT, j) ==> OccursAt(pdtName, PDT_EXT, j) by {
      forall j | 0 <= j <= |key| && OccursAt(key, PDT_EXT, j)
        ensures OccursAt(pdtName, PDT_EXT, j)
      {
        assert key[j..j + |PDT_EXT|] == pdtName[j..j + |PDT_EXT|];
      }
    }
    key
  }

  /** A channel found in the archive: its key and the two images to decode. */
  datatype ChannelFiles = ChannelFiles(key: string, ndx: seq<Byte>, pdt: seq<Byte>)

  /**
   * What member `i` contributes: nothing unless its name contains ".ndx",
   * both it and its ".pdt" partner exist, and both read non-empty.
   */
  function ChannelAt(archive: seq<Member>, i: nat): (r: Option<ChannelFiles>)
    requires i < |archive|
    ensures r.Some? <==> PdtName(archive[i].name).Some?
                         && FileExists(archive, archive[i].name)
                         && FileExists(archive, PdtName(archive[i].name).value)
                         && Read(archive, archive[i].name).value != []
                         && Read(archive, PdtName(archive[i].name).value).value != []
    ensures r.Some? ==> var pdtName := PdtName(archive[i].name).value;
      r.value == ChannelFiles(ChannelKey(pdtName), Read(archive, archive[i].name).value, Read(archive, pdtName).value)
  {
    match PdtName(archive[i].name)
    case None => None
    case Some(pdtName) =>
      match (Read(archive, archive[i].name), Read(archive, pdtName))
      case (Some(ndx), Some(pdt)) =>
        if ndx != [] && pdt != [] then Some(ChannelFiles(ChannelKey(pdtName), ndx, pdt)) else None
      case _ => None
  }

  /** The entries `ParseJTV` appends for one channel, under the channel's alias. */
  function ChannelEntries(chl: ChAliasList, files: ChannelFiles, correctTZ: int, abi: Abi): seq<TvProgram>
    requires ValidCorrection(correctTZ)
  {
    var (alias, chIndex) := GetChannelAlias(Some(chl), files.key);
    Entries(Outcomes(ChannelPair(alias, chIndex, files.ndx, files.pdt), correctTZ, abi))
  }

  /** The list before the post-pass, after members `0 .. n-1` were processed. */
  function Scheduled(archive: seq<Member>, chl: ChAliasList, correctTZ: int, abi: Abi, n: nat): seq<TvProgram>
    requires ValidCorrection(correctTZ) && n <= |archive|
  {
    if n == 0 then []
    else Scheduled(archive, chl, correctTZ, abi, n - 1) + MemberEntries(chl, ChannelAt(archive, n - 1), correctTZ, abi)
  }

  /** The entries member `i` contributes: those of its channel, or none. */
  function MemberEntries(chl: ChAliasList, files: Option<ChannelFiles>, correctTZ: int, abi: Abi): seq<TvProgram>
    requires ValidCorrection(correctTZ)
  {
    match files
    case None => []
    case Some(files) => ChannelEntries(chl, files, correctTZ, abi)
  }

  /**
   * The post-pass: an entry followed by an entry with the same `chIndex`
   * ends one second before that entry starts; every other entry, and every
   * other field, is left as it is.
   */
  function EndTimesLinked(ps: seq<TvProgram>): (r: seq<TvProgram>)
    ensures |r| == |ps|
    ensures forall i :: 0 <= i < |ps| ==> r[i] == ps[i].(etime := r[i].etime)
  {
    seq(|ps|, i requires 0 <= i < |ps| => LinkedEntry(ps, i))
  }

  function LinkedEntry(ps: seq<TvProgram>, i: nat): TvProgram
    requires i < |ps|
  {
    if i + 1 < |ps| && ps[i].chIndex == ps[i + 1].chIndex then ps[i].(etime := ps[i + 1].time - 1) else ps[i]
  }

  /** The post-pass loop of `LoadJTV`, rewriting `etime` in place. */
  method LinkEndTimes(tvl: TvList)
    modifies tvl
    ensures tvl.programs == EndTimesLinked(old(tvl.programs))
  {
    ghost var before := tvl.programs;
    if |tvl.programs| > 0 {
      var i := 0;
      while i < |tvl.programs| - 1
        invariant 0 <= i < |before|
        invariant |tvl.programs| == |before|
        invariant forall j :: 0 <= j < i ==> tvl.programs[j] == EndTimesLinked(before)[j]
        invariant forall j :: i <= j < |before| ==> tvl.programs[j] == before[j]
      {
        if tvl.programs[i].chIndex == tvl.programs[i + 1].chIndex {
          tvl.programs := tvl.programs[i := tvl.programs[i].(etime := tvl.programs[i + 1].time - 1)];
        }
        i := i + 1;
      }
    }
  }

  /** One turn of the member loop of `LoadJTV`: decodes member `i` if it starts a channel pair. */
  method LoadMember(archive: seq<Member>, i: nat, chl: ChAliasList, tvl: TvList, correctTZ: int, abi: Abi)
    requires i < |archive| && ValidCorrection(correctTZ)
    modifies tvl
    ensures tvl.programs == old(tvl.programs) + MemberEntries(chl, ChannelAt(archive, i), correctTZ, abi)
  {
    ghost var files := ChannelAt(archive, i);
    var fndxName := archive[i].name;
    var ndxAt := StrStr(fndxName, NDX_EXT);
    if ndxAt.Some? {
      var fpdtName := fndxName[..ndxAt.value] + PDT_EXT;
      assert PdtName(fndxName) == Some(fpdtName);
      if FileExists(archive, fndxName) && FileExists(archive, fpdtName) {
        var ndxImage := Read(archive, fndxName);
        if ndxImage.Some? && |ndxImage.value| != 0 {
          var pdtImage := Read(archive, fpdtName);
          if pdtImage.Some? && |pdtImage.value| != 0 {
            assert OccursAt(fpdtName, PDT_EXT, ndxAt.value);
            var c := StrStr(fpdtName, PDT_EXT);
            var chName := fpdtName[..c.value];
            assert files == Some(ChannelFiles(chName, ndxImage.value, pdtImage.value));
            var (alias, chIndex) := GetChannelAlias(Some(chl), chName);
            var rejected := ParseJTV(alias, ndxImage.value, pdtImage.value, tvl, chIndex, correctTZ, abi);
          } else {
            assert files == None;
          }
        } else {
          assert files == None;
        }
      } else {
        assert files == None;
      }
    } else {
      assert files == None;
    }
  }

  /**
   * `LoadJTV(fname, ch_alias, correctTZ)`: a fresh list holding, after the
   * post-pass, the entries of every channel pair in archive order; empty
   * when the file-name converter cannot be opened. The alias file must
   * exist: the source reads its codepage through the returned pointer.
   */
  method LoadJTV(archive: seq<Member>, aliasSource: Option<string>, correctTZ: int,
                 converterOpens: bool, abi: Abi) returns (tvl: TvList)
    requires aliasSource.Some?
    requires ValidCorrection(correctTZ)
    ensures fresh(tvl)
    ensures converterOpens ==>
      tvl.programs == EndTimesLinked(Scheduled(archive, AliasListOf(Directives(aliasSource.value, 0)),
                                               correctTZ, abi, |archive|))
    ensures !converterOpens ==> tvl.programs == []
  {
    tvl := new TvList();
    var loaded := LoadChannelAliasList(aliasSource);
    var chl := loaded.value;
    if converterOpens {
      var i := 0;
      while i < |archive|
        invariant i <= |archive|
        invariant tvl.programs == Scheduled(archive, chl, correctTZ, abi, i)
      {
        LoadMember(archive, i, chl, tvl, correctTZ, abi);
        i := i + 1;
      }
      LinkEndTimes(tvl);
    }
  }

  /**
   * For entries as `ParseJTV` leaves them (`etime = time + 1`) whose runs of
   * equal `chIndex` start strictly later one after the other, the post-pass
   * makes every entry but the last of its run end one second before its
   * successor starts, leaves the last of each run at `time + 1`, and never
   * makes an entry end before it starts.
   */
  lemma LinkedRunsDoNotOverlap(ps: seq<TvProgram>)
    requires forall i :: 0 <= i < |ps| ==> ps[i].etime == ps[i].time + 1
    requires forall i :: 0 <= i < |ps| - 1 && ps[i].chIndex == ps[i + 1].chIndex ==> ps[i].time < ps[i + 1].time
    ensures var r := EndTimesLinked(ps);
      (forall i :: 0 <= i < |r| ==> r[i].time <= r[i].etime)
      && (forall i :: 0 <= i < |r| - 1 && r[i].chIndex == r[i + 1].chIndex ==> r[i].etime + 1 == r[i + 1].time)
      && (forall i :: 0 <= i < |r| && (i == |r| - 1 || r[i].chIndex != r[i + 1].chIndex) ==> r[i].etime == r[i].time + 1)
  {
    var r := EndTimesLinked(ps);
    forall i | 0 <= i < |r|
      ensures r[i].time <= r[i].etime
      ensures i < |r| - 1 && r[i].chIndex == r[i + 1].chIndex ==> r[i].etime + 1 == r[i + 1].time
      ensures (i == |r| - 1 || r[i].chIndex != r[i + 1].chIndex) ==> r[i].etime == r[i].time + 1
    {
      EndTimesLinkedAt(ps, i);
      if i < |r| - 1 {
        EndTimesLinkedAt(ps, i + 1);
      }
    }
  }

  /** Entry `i` after the post-pass. */
  lemma EndTimesLinkedAt(ps: seq<TvProgram>, i: nat)
    requires i < |ps|
    ensures EndTimesLinked(ps)[i]
            == if i + 1 < |ps| && ps[i].chIndex == ps[i + 1].chIndex then ps[i].(etime := ps[i + 1].time - 1) else ps[i]
  {
  }

  /** The post-pass reads only `time` and `chIndex`, which it never changes, so running it again changes nothing. */
  lemma EndTimesLinkedIdempotent(ps: seq<TvProgram>)
    ensures EndTimesLinked(EndTimesLinked(ps)) == EndTimesLinked(ps)
  {
    var r := EndTimesLinked(ps);
    assert forall i :: 0 <= i < |r| ==> r[i].time == ps[i].time && r[i].chIndex == ps[i].chIndex;
  }

  /** One channel with starts t1 < t2 < t3: the entries end at t2 - 1, t3 - 1 and t3 + 1. */
  lemma OneChannelExample(name: string, t1: int, t2: int, t3: int)
    requires t1 < t2 < t3
    ensures EndTimesLinked([TvProgram(name, "a", 0, t1, t1 + 1), TvProgram(name, "b", 0, t2, t2 + 1),
                            TvProgram(name, "c", 0, t3, t3 + 1)])
            == [TvProgram(name, "a", 0, t1, t2 - 1), TvProgram(name, "b", 0, t2, t3 - 1),
                TvProgram(name, "c", 0, t3, t3 + 1)]
  {
  }

  /**
   * Linking looks at `chIndex` alone: the last entry of one unaliased
   * channel (index -1) is linked to the first entry of the next unaliased
   * channel, and may then end before it starts.
   */
  lemma UnaliasedChannelsLinked()
    ensures var r := EndTimesLinked([TvProgram("A", "x", -1, 100, 101), TvProgram("B", "y", -1, 50, 51)]);
      r[0].etime == 49 && r[0].etime < r[0].time
  {
  }

  /**
   * Before the post-pass every entry carries `etime = time + 1` and either
   * the unaliased index -1 or the position of an alias table entry.
   */
  lemma {:induction false} ScheduledEntriesShape(archive: seq<Member>, chl: ChAliasList, correctTZ: int, abi: Abi, n: nat)
    requires ValidCorrection(correctTZ) && n <= |archive|
    ensures Shaped(Scheduled(archive, chl, correctTZ, abi, n), |chl.entries|)
  {
    if n > 0 {
      ScheduledEntriesShape(archive, chl, correctTZ, abi, n - 1);
      MemberEntriesShape(chl, ChannelAt(archive, n - 1), correctTZ, abi);
      ShapedConcat(Scheduled(archive, chl, correctTZ, abi, n - 1), MemberEntries(chl, ChannelAt(archive, n - 1), correctTZ, abi), |chl.entries|);
    }
  }

  /** Every entry lasts one second as parsed, and its `chIndex` is -1 or an index into an alias list of `aliasCount` entries. */
  predicate Shaped(ps: seq<TvProgram>, aliasCount: nat)
  {
    forall e :: e in ps ==> e.etime == e.time + 1 && (e.chIndex == -1 || 0 <= e.chIndex < aliasCount)
  }

  lemma ShapedConcat(a: seq<TvProgram>, b: seq<TvProgram>, aliasCount: nat)
    requires Shaped(a, aliasCount) && Shaped(b, aliasCount)
    ensures Shaped(a + b, aliasCount)
  {
  }

  lemma MemberEntriesShape(chl: ChAliasList, files: Option<ChannelFiles>, correctTZ: int, abi: Abi)
    requires ValidCorrection(correctTZ)
    ensures Shaped(MemberEntries(chl, files, correctTZ, abi), |chl.entries|)
  {
    if files.Some? {
      ChannelEntriesShape(chl, files.value, correctTZ, abi);
    }
  }

  /** The entries of one channel carry `etime = time + 1` and the index the alias lookup gave. */
  lemma ChannelEntriesShape(chl: ChAliasList, files: ChannelFiles, correctTZ: int, abi: Abi)
    requires ValidCorrection(correctTZ)
    ensures Shaped(ChannelEntries(chl, files, correctTZ, abi), |chl.entries|)
  {
    var (alias, chIndex) := GetChannelAlias(Some(chl), files.key);
    EntriesCarryChannel(ChannelPair(alias, chIndex, files.ndx, files.pdt), correctTZ, abi);
  }

  /** A name with a dot before `stem`'s end cannot hold an extension starting inside `stem` when `stem` has no dot. */
  lemma NoExtensionInStem(stem: string, ext: string, needle: string)
    requires forall k :: 0 <= k < |stem| ==> stem[k] != '.'
    requires |needle| > 0 && needle[0] == '.'
    ensures forall j :: 0 <= j < |stem| ==> !OccursAt(stem + ext, needle, j)
  {
    forall j | 0 <= j < |stem|
      ensures !OccursAt(stem + ext, needle, j)
    {
      assert (stem + ext)[j] == stem[j];
      if j + |needle| <= |stem + ext| {
        assert (stem + ext)[j..j + |needle|][0] == (stem + ext)[j];
      }
    }
  }

  /**
   * An archive holding exactly `stem.ndx` and `stem.pdt`, both non-empty,
   * with no dot in `stem`, schedules the entries of channel `stem` once:
   * the index member is paired, the text member is not taken for an index.
   */
  lemma PlainPairScheduled(stem: string, ndx: seq<Byte>, pdt: seq<Byte>, chl: ChAliasList, correctTZ: int, abi: Abi)
    requires forall k :: 0 <= k < |stem| ==> stem[k] != '.'
    requires ndx != [] && pdt != [] && ValidCorrection(correctTZ)
    ensures Scheduled([Member(stem + NDX_EXT, ndx), Member(stem + PDT_EXT, pdt)], chl, correctTZ, abi, 2)
            == ChannelEntries(chl, ChannelFiles(stem, ndx, pdt), correctTZ, abi)
  {
    var archive := [Member(stem + NDX_EXT, ndx), Member(stem + PDT_EXT, pdt)];
    PlainPairIndexMember(stem, ndx, pdt);
    PlainPairTextMember(stem, ndx, pdt);
    assert Scheduled(archive, chl, correctTZ, abi, 0) == [];
    assert Scheduled(archive, chl, correctTZ, abi, 1) == ChannelEntries(chl, ChannelFiles(stem, ndx, pdt), correctTZ, abi);
  }

  /** In the plain pair, the index member yields the channel named `stem`. */
  lemma PlainPairIndexMember(stem: string, ndx: seq<Byte>, pdt: seq<Byte>)
    requires forall k :: 0 <= k < |stem| ==> stem[k] != '.'
    requires ndx != [] && pdt != []
    ensures ChannelAt([Member(stem + NDX_EXT, ndx), Member(stem + PDT_EXT, pdt)], 0) == Some(ChannelFiles(stem, ndx, pdt))
  {
    var archive := [Member(stem + NDX_EXT, ndx), Member(stem + PDT_EXT, pdt)];
    var n := |stem|;
    NoExtensionInStem(stem, NDX_EXT, NDX_EXT);
    NoExtensionInStem(stem, PDT_EXT, PDT_EXT);
    assert OccursAt(stem + NDX_EXT, NDX_EXT, n);
    assert StrStr(stem + NDX_EXT, NDX_EXT) == Some(n);
    assert PdtName(stem + NDX_EXT) == Some(stem + PDT_EXT);
    assert OccursAt(stem + PDT_EXT, PDT_EXT, n);
    assert StrStr(stem + PDT_EXT, PDT_EXT) == Some(n);
    assert ChannelKey(stem + PDT_EXT) == stem;
    assert (stem + NDX_EXT)[n + 1] != (stem + PDT_EXT)[n + 1];
    assert Read(archive, stem + NDX_EXT) == Some(ndx);
    assert Read(archive, stem + PDT_EXT) == Some(pdt);
  }

  /** In the plain pair, the text member's name holds no ".ndx", so it yields nothing. */
  lemma PlainPairTextMember(stem: string, ndx: seq<Byte>, pdt: seq<Byte>)
    requires forall k :: 0 <= k < |stem| ==> stem[k] != '.'
    ensures ChannelAt([Member(stem + NDX_EXT, ndx), Member(stem + PDT_EXT, pdt)], 1) == None
  {
    var n := |stem|;
    NoExtensionInStem(stem, PDT_EXT, NDX_EXT);
    assert !OccursAt(stem + PDT_EXT, NDX_EXT, n) by {
      assert (stem + PDT_EXT)[n..n + 4][1] == 'p';
    }
    assert PdtName(stem + PDT_EXT) == None;
  }

  /** ".ndx" is searched for anywhere in the name, not only at its end: `a.ndx.bak` pairs with `a.pdt`. */
  lemma IndexNameNeedNotEndInNdx()
    ensures PdtName("a.ndx.bak") == Some("a.pdt")
  {
    var name := "a.ndx.bak";
    assert name[1..5] == NDX_EXT;
    assert name[0..4][0] == 'a';
    assert StrStr(name, NDX_EXT) == Some(1);
    assert name[..1] + PDT_EXT == "a.pdt";
  }
}
