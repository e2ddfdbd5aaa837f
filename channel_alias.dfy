/**
 * The channel alias table (`LoadChannelAliasList` and `GetChannelAlias`,
 * libjtv.cpp). The alias file is a text of `key = value` directives read
 * by repeated `fscanf(in, "%250[^= ] = %250[^\n]\n", opt, val)`. The keys
 * `cp_zip_fn` and `cp_content` set the two codepages; every other key
 * becomes an alias entry. Reading stops at the first text that does not
 * scan as a directive; since the key set `[^= ]` takes newlines, a line
 * with neither a space nor `=` is not skipped but becomes part of the
 * next line's key. The conversions store NUL bytes like any other; the
 * `strcmp` that classifies a key and the `strnew` copies that keep keys
 * and values stop at the first one.
 */
module ChannelAlias {

  import opened Wrappers
  import opened CLib
  import StrNew

  /** One `ch_alias`: archive key and display name (NULL where `strnew` failed). */
  datatype ChAlias = ChAlias(zipName: Option<string>, realName: Option<string>)

  /** `ch_alias_list`: the entries in file order and the two codepages. */
  datatype ChAliasList = ChAliasList(entries: seq<ChAlias>, cpZipFn: string, cpContent: string)

  /** The `250` field width of both conversions. */
  const FIELD_WIDTH: nat := 250

  const CP_ZIP_FN_KEY: string := "cp_zip_fn"
  const CP_CONTENT_KEY: string := "cp_content"
  const DEFAULT_CP_ZIP_FN: string := "CP866"
  const DEFAULT_CP_CONTENT: string := "CP1251"

  /** One successful `fscanf` call: the two fields it converted. */
  datatype Directive = Directive(key: string, value: string)

  /** The two scan sets: `[^= ]` for the key, `[^\n]` for the value. */
  datatype Field = KeyField | ValueField

  predicate InScanSet(field: Field, c: char)
  {
    match field
    case KeyField => c != '=' && c != ' '
    case ValueField => c != '\n'
  }

  /** Where a `%250[...]` conversion starting at `pos` stops. */
  function ScanRun(text: string, pos: nat, field: Field): (q: nat)
    requires pos <= |text|
    ensures pos <= q <= |text| && q - pos <= FIELD_WIDTH
    ensures forall i :: pos <= i < q ==> InScanSet(field, text[i])
    ensures q - pos < FIELD_WIDTH && q < |text| ==> !InScanSet(field, text[q])
    decreases |text| - pos
  {
    ScanRunFrom(text, pos, pos, field)
  }

  function ScanRunFrom(text: string, start: nat, pos: nat, field: Field): (q: nat)
    requires start <= pos <= |text| && pos - start <= FIELD_WIDTH
    requires forall i :: start <= i < pos ==> InScanSet(field, text[i])
    ensures pos <= q <= |text| && q - start <= FIELD_WIDTH
    ensures forall i :: start <= i < q ==> InScanSet(field, text[i])
    ensures q - start < FIELD_WIDTH && q < |text| ==> !InScanSet(field, text[q])
    decreases |text| - pos
  {
    if pos - start == FIELD_WIDTH || pos == |text| || !InScanSet(field, text[pos]) then pos
    else ScanRunFrom(text, start, pos + 1, field)
  }

  /** Where a white-space directive starting at `pos` stops: after every `isspace` character. */
  function SkipSpace(text: string, pos: nat): (q: nat)
    requires pos <= |text|
    ensures pos <= q <= |text|
    ensures forall i :: pos <= i < q ==> IsSpace(text[i])
    ensures q < |text| ==> !IsSpace(text[q])
    decreases |text| - pos
  {
    if pos == |text| || !IsSpace(text[pos]) then pos else SkipSpace(text, pos + 1)
  }

  /**
   * The rest of the format after the key, from `keyEnd`: white space, `=`,
   * white space, then the value conversion and the trailing white space.
   * The value is the run of non-newline characters (at most 250) starting
   * at the first non-space after `=`; None when `=` is missing or the value
   * is empty.
   */
  function ScanValue(text: string, keyEnd: nat): (r: Option<(string, nat)>)
    requires keyEnd <= |text|
    ensures r.Some? ==> var (value, next) := r.value;
      1 <= |value| <= FIELD_WIDTH && (forall i :: 0 <= i < |value| ==> value[i] != '\n')
      && keyEnd < next <= |text|
    ensures r.Some? ==>
      var eq := SkipSpace(text, keyEnd);
      eq < |text| && text[eq] == '='
      && var valueStart, value := SkipSpace(text, eq + 1), r.value.0;
      valueStart + |value| <= |text| && text[valueStart..valueStart + |value|] == value
      && (|value| == FIELD_WIDTH || valueStart + |value| == |text| || text[valueStart + |value|] == '\n')
      && r.value.1 == SkipSpace(text, valueStart + |value|)
    ensures (var eq := SkipSpace(text, keyEnd);
             eq < |text| && text[eq] == '='
             && SkipSpace(text, eq + 1) < |text| && text[SkipSpace(text, eq + 1)] != '\n') ==> r.Some?
  {
    var eq := SkipSpace(text, keyEnd);
    if eq == |text| || text[eq] != '=' then None
    else
      var valueStart := SkipSpace(text, eq + 1);
      var valueEnd := ScanRun(text, valueStart, ValueField);
      if valueEnd == valueStart then None
      else Some((text[valueStart..valueEnd], SkipSpace(text, valueEnd)))
  }

  /**
   * One `fscanf(in, "%250[^= ] = %250[^\n]\n", opt, val)` from `pos`: the
   * directive and the position after the trailing white space when both
   * fields convert (the call returns 2), None otherwise. The key is the run
   * of characters other than `=` and space (at most 250) at `pos`, with no
   * leading white space skipped; the value and the end position are what
   * `ScanValue` finds after it.
   */
  function ScanDirective(text: string, pos: nat): (r: Option<(Directive, nat)>)
    requires pos <= |text|
    ensures r.Some? ==> pos < r.value.1 <= |text|
    ensures r.Some? ==> var d := r.value.0;
      1 <= |d.key| <= FIELD_WIDTH && 1 <= |d.value| <= FIELD_WIDTH
      && (forall i :: 0 <= i < |d.key| ==> d.key[i] != '=' && d.key[i] != ' ')
      && (forall i :: 0 <= i < |d.value| ==> d.value[i] != '\n')
    ensures r.Some? ==> pos + |r.value.0.key| < r.value.1 && text[pos..pos + |r.value.0.key|] == r.value.0.key
    ensures r.Some? ==> pos + |r.value.0.key| == ScanRun(text, pos, KeyField)
    ensures r.Some? ==> ScanValue(text, pos + |r.value.0.key|) == Some((r.value.0.value, r.value.1))
    ensures r.Some? <==> ScanRun(text, pos, KeyField) > pos && ScanValue(text, ScanRun(text, pos, KeyField)).Some?
    ensures pos == |text| || text[pos] == '=' || text[pos] == ' ' ==> r.None?
  {
    var keyEnd := ScanRun(text, pos, KeyField);
    if keyEnd == pos then None
    else
      match ScanValue(text, keyEnd)
      case None => None
      case Some((value, next)) => Some((Directive(text[pos..keyEnd], value), next))
  }

  /** The directives the `while (fscanf(...) == 2)` loop reads from `pos` on. */
  function Directives(text: string, pos: nat): (ds: seq<Directive>)
    requires pos <= |text|
    decreases |text| - pos
  {
    match ScanDirective(text, pos)
    case None => []
    case Some((d, next)) => [d] + Directives(text, next)
  }

  /**
   * The C string a field buffer holds: its characters up to the first NUL,
   * which is what `strcmp` compares and `strnew` copies (the conversion adds
   * a terminator after the field).
   */
  function CString(field: string): (s: string)
    ensures |s| <= |field| && s == field[..|s|]
    ensures forall i :: 0 <= i < |s| ==> s[i] != '\0'
    ensures |s| == |field| || field[|s|] == '\0'
  {
    var buffer := field + "\0";
    assert forall i :: 0 <= i < |field| ==> buffer[i] == field[i];
    field[..StrNew.StrLen(buffer)]
  }

  /** The C string ends at the first NUL, or takes the whole field when it has none. */
  lemma CStringAt(field: string, n: nat)
    requires n <= |field| && forall i :: 0 <= i < n ==> field[i] != '\0'
    requires n == |field| || field[n] == '\0'
    ensures CString(field) == field[..n]
  {
  }

  /** A key `strcmp` finds equal to one of the two codepage keys. */
  predicate IsReserved(key: string)
  {
    key == CP_ZIP_FN_KEY || key == CP_CONTENT_KEY
  }

  /** The entry `strnew(opt)` and `strnew(val)` make of a directive. */
  function StoredEntry(d: Directive): ChAlias
  {
    ChAlias(Some(CString(d.key)), Some(CString(d.value)))
  }

  /** The alias entries the directives produce: the unreserved ones, in order. */
  function AliasEntries(ds: seq<Directive>): (entries: seq<ChAlias>)
    ensures |entries| <= |ds|
  {
    if ds == [] then []
    else
      var last := ds[|ds| - 1];
      AliasEntries(ds[..|ds| - 1])
        + if IsReserved(CString(last.key)) then [] else [StoredEntry(last)]
  }

  /** The value of the last directive whose key, as a C string, is `key`, if any. */
  function LastValue(ds: seq<Directive>, key: string): (v: Option<string>)
  {
    if ds == [] then None
    else if CString(ds[|ds| - 1].key) == key then Some(CString(ds[|ds| - 1].value))
    else LastValue(ds[..|ds| - 1], key)
  }

  /** The list `LoadChannelAliasList` builds from the directives it read. */
  function AliasListOf(ds: seq<Directive>): ChAliasList
  {
    ChAliasList(AliasEntries(ds),
                match LastValue(ds, CP_ZIP_FN_KEY) case Some(v) => v case None => DEFAULT_CP_ZIP_FN,
                match LastValue(ds, CP_CONTENT_KEY) case Some(v) => v case None => DEFAULT_CP_CONTENT)
  }

  /**
   * `LoadChannelAliasList(fname)`: None (NULL) exactly when the file cannot
   * be opened (`source` is None); otherwise the list built from every
   * directive up to the first text that does not scan.
   */
  method LoadChannelAliasList(source: Option<string>) returns (chl: Option<ChAliasList>)
    ensures chl.None? <==> source.None?
    ensures chl.Some? ==> chl.value == AliasListOf(Directives(source.value, 0))
  {
    if source.None? {
      return None;
    }
    var text := source.value;
    var entries: seq<ChAlias> := [];
    var cpZipFn: Option<string> := None;
    var cpContent: Option<string> := None;
    ghost var read: seq<Directive> := [];
    var pos := 0;
    var scanned := ScanDirective(text, pos);
    assert read + Directives(text, pos) == Directives(text, 0);
    while scanned.Some?
      invariant pos <= |text|
      invariant scanned == ScanDirective(text, pos)
      invariant Directives(text, 0) == read + Directives(text, pos)
      invariant entries == AliasEntries(read)
      invariant cpZipFn == LastValue(read, CP_ZIP_FN_KEY)
      invariant cpContent == LastValue(read, CP_CONTENT_KEY)
      decreases |text| - pos
    {
      var (d, next) := scanned.value;
      var opt, val := CString(d.key), CString(d.value);
      if opt == CP_ZIP_FN_KEY {
        cpZipFn := Some(val);
      } else if opt == CP_CONTENT_KEY {
        cpContent := Some(val);
      } else {
        entries := entries + [ChAlias(Some(opt), Some(val))];
      }
      ReadOneDirective(text, pos, read, d, next);
      AddDirective(read, d);
      read := read + [d];
      pos := next;
      scanned := ScanDirective(text, pos);
    }
    assert Directives(text, pos) == [];
    assert read + [] == read;
    var zip := if cpZipFn.Some? then cpZipFn.value else DEFAULT_CP_ZIP_FN;
    var content := if cpContent.Some? then cpContent.value else DEFAULT_CP_CONTENT;
    chl := Some(ChAliasList(entries, zip, content));
  }

  /** One more successful `fscanf` moves one directive from the unread rest to what was read. */
  lemma ReadOneDirective(text: string, pos: nat, read: seq<Directive>, d: Directive, next: nat)
    requires pos <= |text| && ScanDirective(text, pos) == Some((d, next))
    requires Directives(text, 0) == read + Directives(text, pos)
    ensures next <= |text|
    ensures Directives(text, 0) == (read + [d]) + Directives(text, next)
  {
    assert Directives(text, pos) == [d] + Directives(text, next);
  }

  /** What one more directive adds to the entries and to the codepages. */
  lemma AddDirective(read: seq<Directive>, d: Directive)
    ensures AliasEntries(read + [d])
            == AliasEntries(read) + if IsReserved(CString(d.key)) then [] else [StoredEntry(d)]
    ensures forall key :: LastValue(read + [d], key)
                          == if CString(d.key) == key then Some(CString(d.value)) else LastValue(read, key)
  {
    assert (read + [d])[..|read|] == read && (read + [d])[|read|] == d;
  }

  /** Entry `i` of the table is the `i`-th unreserved directive: appending one directive appends at most its entry. */
  lemma {:induction false} AliasEntriesInOrder(ds: seq<Directive>, more: seq<Directive>)
    ensures AliasEntries(ds + more) == AliasEntries(ds) + AliasEntries(more)
    decreases |more|
  {
    if more == [] {
      assert ds + more == ds;
    } else {
      var n := |more|;
      assert (ds + more)[..|ds + more| - 1] == ds + more[..n - 1];
      assert (ds + more)[|ds + more| - 1] == more[n - 1];
      AliasEntriesInOrder(ds, more[..n - 1]);
    }
  }

  /** Every unreserved directive becomes an entry, and every entry comes from one. */
  lemma {:induction false} AliasEntriesExactly(ds: seq<Directive>, key: string, value: string)
    ensures ChAlias(Some(key), Some(value)) in AliasEntries(ds)
            <==> !IsReserved(key) && exists d :: d in ds && StoredEntry(d) == ChAlias(Some(key), Some(value))
  {
    if ds != [] {
      var front := ds[..|ds| - 1];
      assert ds == front + [ds[|ds| - 1]];
      AliasEntriesExactly(front, key, value);
    }
  }

  /** Every entry the loader builds has both names set and an unreserved key. */
  lemma {:induction false} AliasEntriesUnreserved(ds: seq<Directive>, i: nat)
    requires i < |AliasEntries(ds)|
    ensures AliasEntries(ds)[i].zipName.Some? && AliasEntries(ds)[i].realName.Some?
    ensures !IsReserved(AliasEntries(ds)[i].zipName.value)
  {
    var front := ds[..|ds| - 1];
    if i < |AliasEntries(front)| {
      AliasEntriesUnreserved(front, i);
    }
  }

  /** Directive `j` sets `key` to `value` and no later directive mentions `key`. */
  predicate SetLastAt(ds: seq<Directive>, key: string, value: string, j: int)
  {
    0 <= j < |ds| && CString(ds[j].key) == key && CString(ds[j].value) == value
    && forall k :: j < k < |ds| ==> CString(ds[k].key) != key
  }

  /** A codepage key takes the value of its last occurrence, and only then is it set. */
  lemma {:induction false} LastValueIsLast(ds: seq<Directive>, key: string, value: string)
    ensures LastValue(ds, key) == Some(value) <==> exists j :: SetLastAt(ds, key, value, j)
  {
    if ds != [] {
      var n := |ds|;
      var front := ds[..n - 1];
      if CString(ds[n - 1].key) == key {
        if CString(ds[n - 1].value) == value {
          assert SetLastAt(ds, key, value, n - 1);
        } else {
          forall j | SetLastAt(ds, key, value, j)
            ensures j == n - 1
          {
          }
        }
      } else {
        LastValueIsLast(front, key, value);
        forall j
          ensures SetLastAt(ds, key, value, j) <==> SetLastAt(front, key, value, j)
        {
          if 0 <= j < n - 1 {
            assert ds[j] == front[j];
          }
        }
      }
    }
  }

  /** A codepage never set keeps its default: CP866 for file names, CP1251 for content. */
  lemma {:induction false} CodepageDefaults(ds: seq<Directive>)
    ensures (forall i :: 0 <= i < |ds| ==> CString(ds[i].key) != CP_ZIP_FN_KEY)
            ==> AliasListOf(ds).cpZipFn == DEFAULT_CP_ZIP_FN
    ensures (forall i :: 0 <= i < |ds| ==> CString(ds[i].key) != CP_CONTENT_KEY)
            ==> AliasListOf(ds).cpContent == DEFAULT_CP_CONTENT
  {
    if ds != [] {
      CodepageDefaults(ds[..|ds| - 1]);
    }
  }

  /** A key holding a NUL is classified and stored up to the NUL: `cp_zip_fn\0x` sets the file-name codepage. */
  lemma NulCutsKey()
    ensures AliasListOf([Directive("cp_zip_fn\0x", "CP437")]) == ChAliasList([], "CP437", DEFAULT_CP_CONTENT)
  {
    CStringAt("cp_zip_fn\0x", 9);
    CStringAt("CP437", 5);
    assert [Directive("cp_zip_fn\0x", "CP437")][..0] == [];
  }

  /** A value holding a NUL is stored up to the NUL. */
  lemma NulCutsValue()
    ensures AliasEntries([Directive("a", "X\0Y")]) == [ChAlias(Some("a"), Some("X"))]
  {
    var d := Directive("a", "X\0Y");
    CStringAt(d.key, 1);
    CStringAt(d.value, 1);
    assert d.key[..1] == "a" && d.value[..1] == "X";
    assert [d][..0] == [];
    assert !IsReserved("a");
    assert StoredEntry(d) == ChAlias(Some("a"), Some("X"));
  }

  /** A `%250[...]` conversion from `pos` stops at `q` when the run up to `q` is in the set and ends there. */
  lemma ScanRunAt(text: string, pos: nat, field: Field, q: nat)
    requires pos <= q <= |text| && q - pos <= FIELD_WIDTH
    requires forall i :: pos <= i < q ==> InScanSet(field, text[i])
    requires q - pos == FIELD_WIDTH || q == |text| || !InScanSet(field, text[q])
    ensures ScanRun(text, pos, field) == q
  {
  }

  /** A white-space directive from `pos` stops at `q` when only white space precedes `q` and none is there. */
  lemma SkipSpaceAt(text: string, pos: nat, q: nat)
    requires pos <= q <= |text|
    requires forall i :: pos <= i < q ==> IsSpace(text[i])
    requires q == |text| || !IsSpace(text[q])
    ensures SkipSpace(text, pos) == q
  {
  }

  /**
   * A directive one `fscanf` call reads back from its line: a key of 1 to
   * 250 characters with no `=` and no space, and a value of 1 to 250
   * characters with no newline, not starting with white space.
   */
  predicate Scannable(d: Directive)
  {
    1 <= |d.key| <= FIELD_WIDTH
    && (forall i :: 0 <= i < |d.key| ==> d.key[i] != '=' && d.key[i] != ' ')
    && 1 <= |d.value| <= FIELD_WIDTH && !IsSpace(d.value[0])
    && (forall i :: 0 <= i < |d.value| ==> d.value[i] != '\n')
  }

  /**
   * A directive as a line of an alias file: scannable, with a key that
   * does not start with white space (the previous line's trailing white
   * space directive would swallow it).
   */
  predicate WellFormed(d: Directive)
  {
    Scannable(d) && !IsSpace(d.key[0])
  }

  /** The line `key = value` that writes `d`. */
  function Line(d: Directive): (line: string)
    ensures |line| == |d.key| + |d.value| + 4
  {
    d.key + " = " + d.value + "\n"
  }

  /** The lines that write `ds`, one after the other. */
  function Lines(ds: seq<Directive>): (text: string)
  {
    if ds == [] then [] else Line(ds[0]) + Lines(ds[1..])
  }

  /** Where the parts of `Line(d)` sit. */
  lemma LineChars(d: Directive)
    ensures var k, v, line := |d.key|, |d.value|, Line(d);
      line[..k] == d.key && line[k] == ' ' && line[k + 1] == '=' && line[k + 2] == ' '
      && line[k + 3..k + 3 + v] == d.value && line[k + 3 + v] == '\n'
  {
    var k, v := |d.key|, |d.value|;
    var line := Line(d);
    assert line == d.key + (" = " + (d.value + "\n"));
    assert line[k..] == " = " + (d.value + "\n");
    assert line[k + 3..] == d.value + "\n";
  }

  /**
   * After a key ending at `keyEnd`, the text ` = value\n` followed by no
   * white space scans to the value and ends after the newline.
   */
  lemma ScanValueLine(text: string, keyEnd: nat, value: string)
    requires 1 <= |value| <= FIELD_WIDTH && !IsSpace(value[0])
    requires forall i :: 0 <= i < |value| ==> value[i] != '\n'
    requires keyEnd + |value| + 4 <= |text|
    requires text[keyEnd] == ' ' && text[keyEnd + 1] == '=' && text[keyEnd + 2] == ' '
    requires text[keyEnd + 3..keyEnd + 3 + |value|] == value && text[keyEnd + 3 + |value|] == '\n'
    requires keyEnd + |value| + 4 == |text| || !IsSpace(text[keyEnd + |value| + 4])
    ensures ScanValue(text, keyEnd) == Some((value, keyEnd + |value| + 4))
  {
    var valueStart, valueEnd := keyEnd + 3, keyEnd + 3 + |value|;
    assert forall i :: valueStart <= i < valueEnd ==> text[i] == value[i - valueStart];
    SkipSpaceAt(text, keyEnd, keyEnd + 1);
    SkipSpaceAt(text, keyEnd + 2, valueStart);
    ScanRunAt(text, valueStart, ValueField, valueEnd);
    SkipSpaceAt(text, valueEnd, valueEnd + 1);
  }

  /** `text` holds `s` from `pos` on, character by character. */
  predicate MatchesAt(text: string, pos: nat, s: string)
    decreases |s|
  {
    s == [] || (pos < |text| && text[pos] == s[0] && MatchesAt(text, pos + 1, s[1..]))
  }

  lemma {:induction false} MatchesAtSlice(text: string, pos: nat, s: string)
    requires pos <= |text|
    ensures MatchesAt(text, pos, s) <==> pos + |s| <= |text| && text[pos..pos + |s|] == s
    decreases |s|
  {
    if s != [] && pos < |text| {
      MatchesAtSlice(text, pos + 1, s[1..]);
      if pos + |s| <= |text| {
        assert text[pos..pos + |s|] == [text[pos]] + text[pos + 1..pos + |s|];
      }
      if pos + |s| <= |text| && text[pos..pos + |s|] == s {
        assert text[pos] == s[0] && text[pos + 1..pos + |s|] == s[1..];
      }
    }
  }

  /** The characters of a text holding `Line(d)` at `pos`. */
  lemma LineAt(text: string, pos: nat, d: Directive)
    requires pos + |Line(d)| <= |text| && text[pos..pos + |Line(d)|] == Line(d)
    ensures var k, v := |d.key|, |d.value|;
      (forall i :: pos <= i < pos + k ==> text[i] == d.key[i - pos])
      && text[pos..pos + k] == d.key
      && text[pos + k] == ' ' && text[pos + k + 1] == '=' && text[pos + k + 2] == ' '
      && text[pos + k + 3..pos + k + 3 + v] == d.value && text[pos + k + 3 + v] == '\n'
  {
    var k, v, line := |d.key|, |d.value|, Line(d);
    LineChars(d);
    var at := text[pos..pos + |line|];
    assert text[pos..pos + k] == at[..k];
    assert text[pos + k] == at[k] && text[pos + k + 1] == at[k + 1] && text[pos + k + 2] == at[k + 2];
    assert text[pos + k + 3..pos + k + 3 + v] == at[k + 3..k + 3 + v];
    assert text[pos + k + 3 + v] == at[k + 3 + v];
  }

  /** A key run ending at `keyEnd` and a value scan from there make the whole directive. */
  lemma ScanDirectiveOf(text: string, pos: nat, keyEnd: nat, d: Directive, next: nat)
    requires pos < keyEnd <= |text| && ScanRun(text, pos, KeyField) == keyEnd && text[pos..keyEnd] == d.key
    requires ScanValue(text, keyEnd) == Some((d.value, next))
    ensures ScanDirective(text, pos) == Some((d, next))
  {
  }

  /**
   * A well-formed line scans back to its directive, and the scan resumes
   * right after its newline when no white space follows.
   */
  lemma ScanLine(text: string, pos: nat, d: Directive)
    requires Scannable(d) && MatchesAt(text, pos, Line(d))
    requires pos + |Line(d)| == |text| || (pos + |Line(d)| < |text| && !IsSpace(text[pos + |Line(d)|]))
    ensures ScanDirective(text, pos) == Some((d, pos + |Line(d)|))
  {
    var keyEnd := LineFields(text, pos, d);
    ScanDirectiveOf(text, pos, keyEnd, d, pos + |Line(d)|);
  }

  /**
   * The two conversions on a line read its key, which ends at `keyEnd`, and
   * its value, and the scan ends after its newline.
   */
  lemma LineFields(text: string, pos: nat, d: Directive) returns (keyEnd: nat)
    requires Scannable(d) && MatchesAt(text, pos, Line(d))
    requires pos + |Line(d)| == |text| || (pos + |Line(d)| < |text| && !IsSpace(text[pos + |Line(d)|]))
    ensures pos < keyEnd <= |text| && ScanRun(text, pos, KeyField) == keyEnd && text[pos..keyEnd] == d.key
    ensures ScanValue(text, keyEnd) == Some((d.value, pos + |Line(d)|))
  {
    keyEnd := pos + |d.key|;
    KeyOfLine(text, pos, d);
    ValueOfLine(text, pos, d);
  }

  /** The key conversion on a line reads its key. */
  lemma KeyOfLine(text: string, pos: nat, d: Directive)
    requires Scannable(d) && MatchesAt(text, pos, Line(d))
    requires pos + |Line(d)| <= |text|
    ensures ScanRun(text, pos, KeyField) == pos + |d.key| && text[pos..pos + |d.key|] == d.key
  {
    MatchesAtSlice(text, pos, Line(d));
    LineAt(text, pos, d);
    ScanRunAt(text, pos, KeyField, pos + |d.key|);
  }

  /** The rest of the format on a line reads its value and ends after its newline. */
  lemma ValueOfLine(text: string, pos: nat, d: Directive)
    requires Scannable(d) && MatchesAt(text, pos, Line(d))
    requires pos + |Line(d)| == |text| || (pos + |Line(d)| < |text| && !IsSpace(text[pos + |Line(d)|]))
    ensures ScanValue(text, pos + |d.key|) == Some((d.value, pos + |Line(d)|))
  {
    MatchesAtSlice(text, pos, Line(d));
    LineAt(text, pos, d);
    ScanValueLine(text, pos + |d.key|, d.value);
  }

  /**
   * `text` holds the well-formed lines of `ds` from `pos` on, one after
   * the other, and no white space follows the last of them.
   */
  predicate LinesAt(text: string, pos: nat, ds: seq<Directive>)
    decreases |ds|
  {
    if ds == [] then pos == |text| || (pos < |text| && !IsSpace(text[pos]))
    else WellFormed(ds[0]) && MatchesAt(text, pos, Line(ds[0])) && LinesAt(text, pos + |Line(ds[0])|, ds[1..])
  }

  /** Where lines are, no white space comes first. */
  lemma LinesAtBoundary(text: string, pos: nat, ds: seq<Directive>)
    requires LinesAt(text, pos, ds)
    ensures pos == |text| || (pos < |text| && !IsSpace(text[pos]))
  {
    if ds != [] {
      MatchesAtSlice(text, pos, Line(ds[0]));
      LineAt(text, pos, ds[0]);
    }
  }

  /** Where the lines of `ds`, laid out from `pos`, end. */
  function LinesEnd(pos: nat, ds: seq<Directive>): (end: nat)
    ensures end == pos + |Lines(ds)|
    decreases |ds|
  {
    if ds == [] then pos else LinesEnd(pos + |Line(ds[0])|, ds[1..])
  }

  /** One scan from `pos` reads `d` and resumes right after its line. */
  predicate ScansLine(text: string, pos: nat, d: Directive)
  {
    pos <= |text| && ScanDirective(text, pos) == Some((d, pos + |Line(d)|))
  }

  /** Successive scans from `pos` read `ds`, one line each. */
  predicate ScansLines(text: string, pos: nat, ds: seq<Directive>)
    decreases |ds|
  {
    ds == [] || (ScansLine(text, pos, ds[0]) && ScansLines(text, pos + |Line(ds[0])|, ds[1..]))
  }

  /** Lines scan one by one into their directives. */
  lemma {:induction false} LinesScan(text: string, pos: nat, ds: seq<Directive>)
    requires LinesAt(text, pos, ds)
    ensures ScansLines(text, pos, ds)
    decreases |ds|
  {
    if ds != [] {
      var next := pos + |Line(ds[0])|;
      LinesAtBoundary(text, next, ds[1..]);
      ScanLine(text, pos, ds[0]);
      LinesScan(text, next, ds[1..]);
    }
  }

  /** One successful scan puts its directive in front of the ones read after it. */
  lemma DirectivesStep(text: string, pos: nat, d: Directive, next: nat)
    requires pos <= |text| && ScanDirective(text, pos) == Some((d, next))
    ensures next <= |text| && Directives(text, pos) == [d] + Directives(text, next)
  {
  }

  /** Directives that scan in succession are read in succession. */
  lemma {:induction false} ScansRead(text: string, pos: nat, ds: seq<Directive>)
    requires pos <= |text| && ScansLines(text, pos, ds)
    ensures LinesEnd(pos, ds) <= |text| && Directives(text, pos) == ds + Directives(text, LinesEnd(pos, ds))
    decreases |ds|
  {
    if ds == [] {
      assert [] + Directives(text, pos) == Directives(text, pos);
    } else {
      var next := pos + |Line(ds[0])|;
      DirectivesStep(text, pos, ds[0], next);
      ScansRead(text, next, ds[1..]);
      ConsAppend(ds, Directives(text, LinesEnd(next, ds[1..])));
    }
  }

  lemma ConsAppend(ds: seq<Directive>, after: seq<Directive>)
    requires ds != []
    ensures [ds[0]] + (ds[1..] + after) == ds + after
  {
    assert [ds[0]] + ds[1..] == ds;
  }


  /**
   * One line round trip: a text opening with `key = value` and a newline,
   * with no white space after that, scans back to the directive and
   * resumes right after the newline.
   */
  lemma LineRoundTrip(text: string, d: Directive)
    requires Scannable(d)
    requires |d.key| + |d.value| + 4 <= |text| && text[..|d.key| + |d.value| + 4] == d.key + " = " + d.value + "\n"
    requires |d.key| + |d.value| + 4 == |text| || !IsSpace(text[|d.key| + |d.value| + 4])
    ensures ScanDirective(text, 0) == Some((d, |d.key| + |d.value| + 4))
  {
    assert MatchesAt(text, 0, Line(d)) by {
      MatchesAtSlice(text, 0, Line(d));
    }
    ScanLine(text, 0, d);
  }

  lemma LineThenRest(line: string, rest: string)
    requires rest == [] || !IsSpace(rest[0])
    ensures MatchesAt(line + rest, 0, line)
    ensures |line| == |line + rest| || (|line| < |line + rest| && !IsSpace((line + rest)[|line|]))
  {
    MatchesAtSlice(line + rest, 0, line);
    assert (line + rest)[0..|line|] == line;
    if rest != [] {
      assert (line + rest)[|line|] == rest[0];
    }
  }

  /** A text holding `a + b` at `pos` holds `a` there and `b` right after. */
  lemma SplitAt(text: string, pos: nat, a: string, b: string)
    requires pos + |a + b| <= |text| && text[pos..pos + |a + b|] == a + b
    ensures text[pos..pos + |a|] == a && text[pos + |a|..pos + |a| + |b|] == b
  {
    assert text[pos..pos + |a|] == text[pos..pos + |a + b|][..|a|];
    assert text[pos + |a|..pos + |a| + |b|] == text[pos..pos + |a + b|][|a|..];
  }

  /** Text holding `Lines(ds)` at `pos`, with no white space after, holds the lines one after the other. */
  lemma {:induction false} LinesAtOf(text: string, pos: nat, ds: seq<Directive>)
    requires forall i :: 0 <= i < |ds| ==> WellFormed(ds[i])
    requires pos + |Lines(ds)| <= |text| && text[pos..pos + |Lines(ds)|] == Lines(ds)
    requires pos + |Lines(ds)| == |text| || !IsSpace(text[pos + |Lines(ds)|])
    ensures LinesAt(text, pos, ds)
    decreases |ds|
  {
    if ds != [] {
      var line, rest := Line(ds[0]), Lines(ds[1..]);
      assert Lines(ds) == line + rest;
      SplitAt(text, pos, line, rest);
      MatchesAtSlice(text, pos, line);
      assert forall i :: 0 <= i < |ds[1..]| ==> ds[1..][i] == ds[i + 1];
      LinesAtOf(text, pos + |line|, ds[1..]);
    }
  }

  /**
   * The lines of `ds` followed by `tail`, which does not open with white
   * space, read as `ds` and then whatever `tail` reads as.
   */
  lemma LinesThenTail(ds: seq<Directive>, tail: string)
    requires forall i :: 0 <= i < |ds| ==> WellFormed(ds[i])
    requires tail == [] || !IsSpace(tail[0])
    ensures Directives(Lines(ds) + tail, 0) == ds + Directives(Lines(ds) + tail, |Lines(ds)|)
  {
    LinesBeforeTail(ds, tail);
    LinesScan(Lines(ds) + tail, 0, ds);
    ScansRead(Lines(ds) + tail, 0, ds);
  }

  lemma LinesBeforeTail(ds: seq<Directive>, tail: string)
    requires forall i :: 0 <= i < |ds| ==> WellFormed(ds[i])
    requires tail == [] || !IsSpace(tail[0])
    ensures LinesAt(Lines(ds) + tail, 0, ds)
  {
    LineThenRest(Lines(ds), tail);
    MatchesAtSlice(Lines(ds) + tail, 0, Lines(ds));
    LinesAtOf(Lines(ds) + tail, 0, ds);
  }

  /** An alias file made of well-formed lines reads back as exactly their directives. */
  lemma DirectivesOfLines(ds: seq<Directive>)
    requires forall i :: 0 <= i < |ds| ==> WellFormed(ds[i])
    ensures Directives(Lines(ds), 0) == ds
  {
    LinesThenTail(ds, []);
    assert Lines(ds) + [] == Lines(ds);
    assert ds + [] == ds;
  }

  /**
   * Reading stops at a line that opens with `=`: the well-formed lines
   * before it are read, and nothing after it is, however well-formed.
   */
  lemma StopsAtLineOpeningWithEquals(ds: seq<Directive>, tail: string)
    requires forall i :: 0 <= i < |ds| ==> WellFormed(ds[i])
    requires tail != [] && tail[0] == '='
    ensures Directives(Lines(ds) + tail, 0) == ds
  {
    var text := Lines(ds) + tail;
    LinesThenTail(ds, tail);
    assert text[|Lines(ds)|] == '=';
    assert Directives(text, |Lines(ds)|) == [];
    assert ds + [] == ds;
  }

  /**
   * A line with neither a space nor `=` is not skipped: the key conversion
   * runs on across its newline, so it and the next line's key form one key.
   */
  lemma MalformedLineJoinsNextKey()
    ensures Directives("a = b\nfoo\nc = d\n", 0) == [Directive("a", "b"), Directive("foo\nc", "d")]
  {
    var ds := [Directive("a", "b"), Directive("foo\nc", "d")];
    assert WellFormed(ds[0]);
    assert WellFormed(ds[1]);
    assert Lines(ds) == "a = b\nfoo\nc = d\n" by {
      assert Lines(ds[1..][1..]) == [];
    }
    DirectivesOfLines(ds);
  }

  /**
   * The key is the whole `[^= ]` run: white space other than a space before
   * the `=` stays part of the key.
   */
  lemma TabStaysInKey()
    ensures ScanDirective("a\t = v", 0) == Some((Directive("a\t", "v"), 6))
  {
    var text := "a\t = v";
    ScanRunAt(text, 0, KeyField, 2);
    SkipSpaceAt(text, 2, 3);
    SkipSpaceAt(text, 4, 5);
    ScanRunAt(text, 5, ValueField, 6);
    SkipSpaceAt(text, 6, 6);
    assert text[0..2] == "a\t" && text[5..6] == "v";
  }

  /** Lines without spaces around `=`, or with tabs there, scan as well. */
  lemma CompactLinesScan()
    ensures ScanDirective("a=b", 0) == Some((Directive("a", "b"), 3))
    ensures ScanDirective("a\t=\tb", 0) == Some((Directive("a\t", "b"), 5))
  {
    var text := "a=b";
    ScanRunAt(text, 0, KeyField, 1);
    SkipSpaceAt(text, 1, 1);
    SkipSpaceAt(text, 2, 2);
    ScanRunAt(text, 2, ValueField, 3);
    SkipSpaceAt(text, 3, 3);
    assert text[0..1] == "a" && text[2..3] == "b";
    text := "a\t=\tb";
    ScanRunAt(text, 0, KeyField, 2);
    SkipSpaceAt(text, 2, 2);
    SkipSpaceAt(text, 3, 4);
    ScanRunAt(text, 4, ValueField, 5);
    SkipSpaceAt(text, 5, 5);
    assert text[0..2] == "a\t" && text[4..5] == "b";
  }

  /** An entry usable for lookup: both names present and the key equal to `name` ignoring case. */
  predicate Matches(e: ChAlias, name: string)
  {
    e.zipName.Some? && e.realName.Some? && StrCaseEq(e.zipName.value, name)
  }

  /**
   * `GetChannelAlias(chl, ch_name, &index)`: the display name and table
   * position of the first entry matching `chName`, or `chName` itself and
   * -1 when the table is NULL or no entry matches.
   */
  function GetChannelAlias(chl: Option<ChAliasList>, chName: string): (r: (string, int))
    ensures r.1 == -1 || (chl.Some? && 0 <= r.1 < |chl.value.entries|)
    ensures r.1 >= 0 ==> Matches(chl.value.entries[r.1], chName)
                         && r.0 == chl.value.entries[r.1].realName.value
                         && forall j :: 0 <= j < r.1 ==> !Matches(chl.value.entries[j], chName)
    ensures r.1 == -1 ==> r.0 == chName
                          && (chl.Some? ==> forall j :: 0 <= j < |chl.value.entries| ==>
                                                    !Matches(chl.value.entries[j], chName))
  {
    match chl
    case None => (chName, -1)
    case Some(list) => FindAlias(list.entries, chName, 0)
  }

  function FindAlias(entries: seq<ChAlias>, chName: string, i: nat): (r: (string, int))
    requires i <= |entries|
    requires forall j :: 0 <= j < i ==> !Matches(entries[j], chName)
    ensures r.1 == -1 || i <= r.1 < |entries|
    ensures r.1 >= 0 ==> Matches(entries[r.1], chName) && r.0 == entries[r.1].realName.value
                         && forall j :: 0 <= j < r.1 ==> !Matches(entries[j], chName)
    ensures r.1 == -1 ==> r.0 == chName && forall j :: 0 <= j < |entries| ==> !Matches(entries[j], chName)
    decreases |entries| - i
  {
    if i == |entries| then (chName, -1)
    else if Matches(entries[i], chName) then (entries[i].realName.value, i)
    else FindAlias(entries, chName, i + 1)
  }

  /**
   * Names equal up to case resolve to the same table position, and, when
   * an entry matches, to the same display name.
   */
  lemma LookupIgnoresCase(chl: Option<ChAliasList>, a: string, b: string)
    requires StrCaseEq(a, b)
    ensures GetChannelAlias(chl, a).1 == GetChannelAlias(chl, b).1
    ensures GetChannelAlias(chl, a).1 >= 0 ==> GetChannelAlias(chl, a).0 == GetChannelAlias(chl, b).0
  {
    if chl.Some? {
      var es := chl.value.entries;
      forall j | 0 <= j < |es|
        ensures Matches(es[j], a) <==> Matches(es[j], b)
      {
        if es[j].zipName.Some? {
          StrCaseEqSymmetric(a, b);
          if StrCaseEq(es[j].zipName.value, a) {
            StrCaseEqTransitive(es[j].zipName.value, a, b);
          }
          if StrCaseEq(es[j].zipName.value, b) {
            StrCaseEqTransitive(es[j].zipName.value, b, a);
          }
        }
      }
    }
  }
}
