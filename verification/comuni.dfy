/** The municipality join: every row of the ISTAT list of Italian
    municipalities gets the postal code and coordinates of the row of the
    postal-code file with the same (normalised) ISTAT code. Both files come in
    already parsed: ISTAT rows as objects keyed by the header, postal-code
    rows by their four columns. */
module Comuni {
  import opened Wrappers
  import opened Text
  import opened Records

  /** A parsed ISTAT row: header name to cell text, in header order. */
  type Row = Entries<string>

  /** A parsed row of the postal-code file. */
  datatype ExtraRow = ExtraRow(codiceIstat: string, cap: string, lat: string, lon: string)

  /** ISTAT column holding the numeric municipality code. */
  const CodeColumn := "Codice Comune formato numerico"
  /** Properties added by the join. */
  const CapKey := "cap"
  const LatKey := "lat"
  const LonKey := "lon"
  /** Output columns that carry them. */
  const CapColumn := "Codice di avviamento postale"
  const LatColumn := "Latitudine"
  const LonColumn := "Longitudine"

  /** Width the codes are padded to. */
  const CodeWidth := 6

  /** Every character is the digit zero. */
  predicate Zeros(s: string) {
    forall k :: 0 <= k < |s| ==> s[k] == '0'
  }

  /** `padStart(6, "0")`: zeros in front up to six characters; longer
      strings are left alone. */
  function PadCode(s: string): (r: string)
    ensures |r| == if |s| >= CodeWidth then |s| else CodeWidth
    ensures r[|r| - |s|..] == s && Zeros(r[..|r| - |s|])
  {
    if |s| >= CodeWidth then s else seq(CodeWidth - |s|, _ => '0') + s
  }

  /** `normalizeCode`: an absent or empty code gives ""; any other code is
      trimmed and padded with zeros on the left to six characters. (The
      comment above it in the script describes the opposite direction,
      001001 to 1001; the code pads.) */
  function NormalizeCode(code: Option<string>): (r: string)
    ensures r == "" <==> code.None? || code.value == ""
    ensures r != "" ==> |r| == if |Trim(code.value)| >= CodeWidth then |Trim(code.value)| else CodeWidth
    ensures r != "" ==> r[|r| - |Trim(code.value)|..] == Trim(code.value)
    ensures r != "" ==> Zeros(r[..|r| - |Trim(code.value)|])
  {
    if code.None? || code.value == "" then "" else PadCode(Trim(code.value))
  }

  /** Codes of six or more characters only lose their surrounding blanks. */
  lemma LongCodeKept(code: string)
    requires |Trim(code)| >= CodeWidth
    ensures NormalizeCode(Some(code)) == Trim(code)
  {
  }

  /** A blank but non-empty code is falsy only when empty: it pads to six
      zeros instead of being skipped. */
  lemma BlankCodeIsZeros(code: string)
    requires code != "" && Blank(code)
    ensures NormalizeCode(Some(code)) == "000000"
  {
    BlankTrimsToEmpty(code);
    var r := NormalizeCode(Some(code));
    assert |r| == 6 && Zeros(r);
  }

  /** Normalising twice is normalising once. */
  lemma NormalizeIdempotent(code: Option<string>)
    ensures NormalizeCode(Some(NormalizeCode(code))) == NormalizeCode(code)
  {
    var r := NormalizeCode(code);
    if r != "" {
      var t := Trim(code.value);
      assert IsTrimmed(r) by {
        if |t| < |r| {
          assert r[0] == '0';
          if |t| == 0 { assert r[|r| - 1] == '0'; } else { assert r[|r| - 1] == t[|t| - 1]; }
        } else {
          assert r == t;
        }
      }
      TrimFixedIffTrimmed(r);
    }
  }

  /** The normalised code of a postal-code row. */
  function CodeOf(row: ExtraRow): string {
    NormalizeCode(Some(row.codiceIstat))
  }

  /** Row `i` is the last one with normalised code `code`. */
  ghost predicate LastWithCode(rows: seq<ExtraRow>, code: string, i: int) {
    0 <= i < |rows| && CodeOf(rows[i]) == code && forall j :: i < j < |rows| ==> CodeOf(rows[j]) != code
  }

  /** What the lookup built from `rows` holds: no empty code, every
      non-empty code of a row, and under each code the last row with it. */
  ghost predicate LookupOf(rows: seq<ExtraRow>, m: map<string, ExtraRow>) {
    && "" !in m
    && (forall i :: 0 <= i < |rows| && CodeOf(rows[i]) != "" ==> CodeOf(rows[i]) in m)
    && (forall code :: code in m ==> exists i :: LastWithCode(rows, code, i) && m[code] == rows[i])
  }

  /** `extraByCode`: rows keyed by normalised code, in file order, skipping
      empty codes; a later row replaces an earlier one with the same code. */
  function BuildLookup(rows: seq<ExtraRow>): (m: map<string, ExtraRow>)
    ensures LookupOf(rows, m)
  {
    if |rows| == 0 then map[]
    else
      var init := rows[..|rows| - 1];
      var m := BuildLookup(init);
      var last := rows[|rows| - 1];
      assert rows == init + [last];
      LookupStep(init, last, m);
      if CodeOf(last) == "" then m else m[CodeOf(last) := last]
  }

  lemma LookupStep(init: seq<ExtraRow>, last: ExtraRow, m: map<string, ExtraRow>)
    requires LookupOf(init, m)
    ensures LookupOf(init + [last], if CodeOf(last) == "" then m else m[CodeOf(last) := last])
  {
    var c := CodeOf(last);
    var m' := if c == "" then m else m[c := last];
    LookupStepCovers(init, last, m, m');
    LookupStepLast(init, last, m, m');
  }

  lemma LookupStepCovers(init: seq<ExtraRow>, last: ExtraRow, m: map<string, ExtraRow>, m': map<string, ExtraRow>)
    requires LookupOf(init, m)
    requires m' == if CodeOf(last) == "" then m else m[CodeOf(last) := last]
    ensures "" !in m'
    ensures forall i :: 0 <= i < |init + [last]| && CodeOf((init + [last])[i]) != "" ==> CodeOf((init + [last])[i]) in m'
  {
    var rows := init + [last];
    forall i | 0 <= i < |rows| && CodeOf(rows[i]) != "" ensures CodeOf(rows[i]) in m' {
      if i < |init| { assert rows[i] == init[i]; }
    }
  }

  lemma LookupStepLast(init: seq<ExtraRow>, last: ExtraRow, m: map<string, ExtraRow>, m': map<string, ExtraRow>)
    requires LookupOf(init, m)
    requires m' == if CodeOf(last) == "" then m else m[CodeOf(last) := last]
    ensures forall code :: code in m' ==> exists i :: LastWithCode(init + [last], code, i) && m'[code] == (init + [last])[i]
  {
    var rows := init + [last];
    var c := CodeOf(last);
    forall code | code in m' ensures exists i :: LastWithCode(rows, code, i) && m'[code] == rows[i] {
      if code == c {
        AppendedIsLast(init, last);
        assert rows[|init|] == last;
      } else {
        var i :| LastWithCode(init, code, i) && m[code] == init[i];
        StillLast(init, last, code, i);
      }
    }
  }

  lemma AppendedIsLast(init: seq<ExtraRow>, last: ExtraRow)
    ensures LastWithCode(init + [last], CodeOf(last), |init|)
  {
    assert (init + [last])[|init|] == last;
  }

  lemma StillLast(init: seq<ExtraRow>, last: ExtraRow, code: string, i: int)
    requires LastWithCode(init, code, i) && CodeOf(last) != code
    ensures LastWithCode(init + [last], code, i) && (init + [last])[i] == init[i]
  {
    var rows := init + [last];
    forall j | i < j < |rows| ensures CodeOf(rows[j]) != code {
      if j < |init| { assert rows[j] == init[j]; }
    }
  }

  /** A code that no row carries is not in the lookup. */
  lemma LookupMiss(rows: seq<ExtraRow>, code: string)
    requires code == "" || forall i :: 0 <= i < |rows| ==> CodeOf(rows[i]) != code
    ensures code !in BuildLookup(rows)
  {
  }

  /** JavaScript `s.replace(from, to)` with a one-character string pattern:
      only the first occurrence is replaced. */
  function ReplaceFirst(s: string, from: char, to: char): (r: string)
    ensures |r| == |s|
    ensures from !in s ==> r == s
    ensures from in s ==> exists i :: 0 <= i < |s| && s[i] == from && from !in s[..i] && r == s[..i] + [to] + s[i + 1..]
  {
    match IndexOf(s, from)
    case None => s
    case Some(i) => s[..i] + [to] + s[i + 1..]
  }

  /** Only the first comma of a coordinate becomes a dot. */
  lemma OnlyFirstComma()
    ensures ReplaceFirst("1,2,3", ',', '.') == "1.2,3"
  {
    var r := ReplaceFirst("1,2,3", ',', '.');
    assert "1,2,3"[1] == ',' && ',' !in "1,2,3"[..1];
    var i :| 0 <= i < 5 && "1,2,3"[i] == ',' && ',' !in "1,2,3"[..i] && r == "1,2,3"[..i] + ['.'] + "1,2,3"[i + 1..];
    assert i == 1;
  }

  /** Three property assignments in a row. */
  function Put3(row: Row, k1: string, v1: string, k2: string, v2: string, k3: string, v3: string): Row {
    Put(Put(Put(row, k1, v1), k2, v2), k3, v3)
  }

  /** Assigning three distinct keys: each reads back and nothing else
      changes. */
  lemma Put3Get(row: Row, k1: string, v1: string, k2: string, v2: string, k3: string, v3: string)
    requires k1 != k2 && k1 != k3 && k2 != k3
    ensures var r := Put3(row, k1, v1, k2, v2, k3, v3);
      && Get(r, k1) == Some(v1) && Get(r, k2) == Some(v2) && Get(r, k3) == Some(v3)
      && (forall k :: k != k1 && k != k2 && k != k3 ==> Get(r, k) == Get(row, k))
  {
    var a := Put(row, k1, v1);
    var b := Put(a, k2, v2);
    PutGet(row, k1, v1);
    PutGet(a, k2, v2);
    PutGet(b, k3, v3);
  }

  /** Existing keys keep their order at the front and stay distinct. */
  lemma Put3Keys(row: Row, k1: string, v1: string, k2: string, v2: string, k3: string, v3: string)
    ensures var r := Put3(row, k1, v1, k2, v2, k3, v3);
      && |Keys(r)| >= |Keys(row)| && Keys(r)[..|Keys(row)|] == Keys(row)
      && (Distinct(row) ==> Distinct(r))
  {
    var a := Put(row, k1, v1);
    var b := Put(a, k2, v2);
    var r := Put(b, k3, v3);
    PutKeepsPrefix(row, k1, v1);
    PutKeepsPrefix(a, k2, v2);
    PutKeepsPrefix(b, k3, v3);
    PrefixTrans(Keys(row), Keys(a), Keys(b));
    PrefixTrans(Keys(row), Keys(b), Keys(r));
    if Distinct(row) {
      PutDistinct(row, k1, v1);
      PutDistinct(a, k2, v2);
      PutDistinct(b, k3, v3);
    }
  }

  /** `p` is a prefix of `s`. */
  predicate IsPrefix(p: seq<string>, s: seq<string>) {
    |p| <= |s| && s[..|p|] == p
  }

  lemma PutKeepsPrefix(row: Row, k: string, v: string)
    ensures IsPrefix(Keys(row), Keys(Put(row, k, v)))
  {
    PutKeys(row, k, v);
    assert Keys(Put(row, k, v))[..|Keys(row)|] == Keys(row);
  }

  lemma PrefixTrans(a: seq<string>, b: seq<string>, c: seq<string>)
    requires IsPrefix(a, b) && IsPrefix(b, c)
    ensures IsPrefix(a, c)
  {
    assert c[..|a|] == c[..|b|][..|a|];
  }

  /** One ISTAT row spread into a new object with `cap`, `lat` and `lon`
      added: from the postal-code row on a hit (cap trimmed, first comma of
      each coordinate turned into a dot), empty on a miss. */
  function MergeRow(row: Row, lookup: map<string, ExtraRow>): Row {
    var code := NormalizeCode(Get(row, CodeColumn));
    if code in lookup then
      var e := lookup[code];
      Put3(row, CapKey, Trim(e.cap), LatKey, ReplaceFirst(e.lat, ',', '.'), LonKey, ReplaceFirst(e.lon, ',', '.'))
    else Put3(row, CapKey, "", LatKey, "", LonKey, "")
  }

  /** A merged row spread again with the three output columns copied from
      `cap`, `lat` and `lon`. */
  function FinalRow(row: Row): Row {
    Put3(row, CapColumn, Get(row, CapKey).GetOr(""), LatColumn, Get(row, LatKey).GetOr(""),
      LonColumn, Get(row, LonKey).GetOr(""))
  }

  /** The names the join adds. */
  predicate Added(k: string) {
    k == CapKey || k == LatKey || k == LonKey || k == CapColumn || k == LatColumn || k == LonColumn
  }

  /** The columns of the output file: the first ISTAT row's keys, then the
      three added columns. Without a first row `Object.keys` throws. */
  function OutputColumns(istat: seq<Row>): (r: Result<seq<string>, string>)
    ensures r.Failure? <==> |istat| == 0
    ensures r.Success? ==> |r.value| == |istat[0]| + 3
    ensures r.Success? ==> r.value[..|istat[0]|] == Keys(istat[0])
    ensures r.Success? ==> r.value[|istat[0]|..] == [CapColumn, LatColumn, LonColumn]
  {
    if |istat| == 0 then Failure("Cannot convert undefined or null to object")
    else Success(Keys(istat[0]) + [CapColumn, LatColumn, LonColumn])
  }

  /** A header row without repeats and without the added names gives an
      output header without repeats. */
  lemma ColumnsDistinct(istat: seq<Row>)
    requires |istat| > 0 && Distinct(istat[0])
    requires forall k :: k in Keys(istat[0]) ==> !Added(k)
    ensures var cols := OutputColumns(istat).value;
      forall i, j :: 0 <= i < j < |cols| ==> cols[i] != cols[j]
  {
    var cols := OutputColumns(istat).value;
    var n := |istat[0]|;
    forall i, j | 0 <= i < j < |cols| ensures cols[i] != cols[j] {
      if j < n {
        assert cols[i] == istat[0][i].0 && cols[j] == istat[0][j].0;
      } else if i < n {
        assert cols[i] == Keys(istat[0])[i] && Added(cols[j]);
      }
    }
  }

  datatype Table = Table(columns: seq<string>, rows: seq<Row>)

  /** `mergeComuni` up to writing the CSV text. */
  function MergeComuni(istat: seq<Row>, extra: seq<ExtraRow>): (r: Result<Table, string>)
    ensures r.Failure? <==> |istat| == 0
    ensures r.Success? ==> |r.value.rows| == |istat|
    ensures r.Success? ==> r.value.columns == Keys(istat[0]) + [CapColumn, LatColumn, LonColumn]
  {
    var lookup := BuildLookup(extra);
    var merged := seq(|istat|, i requires 0 <= i < |istat| => FinalRow(MergeRow(istat[i], lookup)));
    match OutputColumns(istat)
    case Failure(e) => Failure(e)
    case Success(columns) => Success(Table(columns, merged))
  }

  /** The output row of one ISTAT row, given the three values the join
      chose: the ISTAT fields are kept, and both the added properties and the
      output columns hold the chosen values. */
  lemma FinalRowSpec(row: Row, cap: string, lat: string, lon: string)
    ensures var out := FinalRow(Put3(row, CapKey, cap, LatKey, lat, LonKey, lon));
      && (forall k :: !Added(k) ==> Get(out, k) == Get(row, k))
      && Get(out, CapKey) == Get(out, CapColumn) == Some(cap)
      && Get(out, LatKey) == Get(out, LatColumn) == Some(lat)
      && Get(out, LonKey) == Get(out, LonColumn) == Some(lon)
  {
    var m := Put3(row, CapKey, cap, LatKey, lat, LonKey, lon);
    Put3Get(row, CapKey, cap, LatKey, lat, LonKey, lon);
    Put3Get(m, CapColumn, cap, LatColumn, lat, LonColumn, lon);
  }

  /** The ISTAT row's properties come first, in their order, and keys stay
      distinct. */
  lemma FinalRowKeys(row: Row, cap: string, lat: string, lon: string)
    ensures var out := FinalRow(Put3(row, CapKey, cap, LatKey, lat, LonKey, lon));
      && |Keys(out)| >= |Keys(row)| && Keys(out)[..|Keys(row)|] == Keys(row)
      && (Distinct(row) ==> Distinct(out))
  {
    var m := Put3(row, CapKey, cap, LatKey, lat, LonKey, lon);
    Put3Keys(row, CapKey, cap, LatKey, lat, LonKey, lon);
    var out := FinalRow(m);
    Put3Keys(m, CapColumn, Get(m, CapKey).GetOr(""), LatColumn, Get(m, LatKey).GetOr(""), LonColumn, Get(m, LonKey).GetOr(""));
    assert Keys(out)[..|Keys(m)|] == Keys(m);
    assert Keys(out)[..|Keys(row)|] == Keys(m)[..|Keys(row)|];
  }

  /** Only one row is the last with a given code. */
  lemma LastUnique(rows: seq<ExtraRow>, code: string, i: int, j: int)
    requires LastWithCode(rows, code, i) && LastWithCode(rows, code, j)
    ensures i == j
  {
  }

  /** The output row of an ISTAT row whose normalised code some postal-code
      row carries: the values of the last such row, cap trimmed, and only the
      first comma of each coordinate turned into a dot. */
  lemma JoinHit(istat: seq<Row>, extra: seq<ExtraRow>, i: int, j: int)
    requires 0 <= i < |istat|
    requires NormalizeCode(Get(istat[i], CodeColumn)) != ""
    requires LastWithCode(extra, NormalizeCode(Get(istat[i], CodeColumn)), j)
    ensures var out := MergeComuni(istat, extra).value.rows[i];
      && Get(out, CapColumn) == Some(Trim(extra[j].cap))
      && Get(out, LatColumn) == Some(ReplaceFirst(extra[j].lat, ',', '.'))
      && Get(out, LonColumn) == Some(ReplaceFirst(extra[j].lon, ',', '.'))
      && (forall k :: !Added(k) ==> Get(out, k) == Get(istat[i], k))
  {
    var code := NormalizeCode(Get(istat[i], CodeColumn));
    var lookup := BuildLookup(extra);
    assert code in lookup;
    var j' :| LastWithCode(extra, code, j') && lookup[code] == extra[j'];
    LastUnique(extra, code, j, j');
    var e := extra[j];
    FinalRowSpec(istat[i], Trim(e.cap), ReplaceFirst(e.lat, ',', '.'), ReplaceFirst(e.lon, ',', '.'));
  }

  /** An ISTAT row whose normalised code no postal-code row carries (or is
      empty) gets empty cap and coordinates. */
  lemma JoinMiss(istat: seq<Row>, extra: seq<ExtraRow>, i: int)
    requires 0 <= i < |istat|
    requires var code := NormalizeCode(Get(istat[i], CodeColumn));
      code == "" || forall j :: 0 <= j < |extra| ==> CodeOf(extra[j]) != code
    ensures var out := MergeComuni(istat, extra).value.rows[i];
      && Get(out, CapColumn) == Some("") && Get(out, LatColumn) == Some("") && Get(out, LonColumn) == Some("")
      && (forall k :: !Added(k) ==> Get(out, k) == Get(istat[i], k))
  {
    var code := NormalizeCode(Get(istat[i], CodeColumn));
    LookupMiss(extra, code);
    FinalRowSpec(istat[i], "", "", "");
  }

  /** Every output row starts with its ISTAT row's properties in their
      order and keeps keys distinct. */
  lemma JoinKeepsOrder(istat: seq<Row>, extra: seq<ExtraRow>, i: int)
    requires 0 <= i < |istat|
    ensures var out := MergeComuni(istat, extra).value.rows[i];
      && |Keys(out)| >= |Keys(istat[i])| && Keys(out)[..|Keys(istat[i])|] == Keys(istat[i])
      && (Distinct(istat[i]) ==> Distinct(out))
  {
    var code := NormalizeCode(Get(istat[i], CodeColumn));
    var lookup := BuildLookup(extra);
    if code in lookup {
      var e := lookup[code];
      FinalRowKeys(istat[i], Trim(e.cap), ReplaceFirst(e.lat, ',', '.'), ReplaceFirst(e.lon, ',', '.'));
    } else {
      FinalRowKeys(istat[i], "", "", "");
    }
  }

  /** The cells written for one row under `columns`: each column's value,
      empty where the row lacks the column. */
  function Line(row: Row, columns: seq<string>): (cells: seq<string>)
    ensures |cells| == |columns|
    ensures forall j :: 0 <= j < |columns| ==> cells[j] == Get(row, columns[j]).GetOr("")
  {
    seq(|columns|, j requires 0 <= j < |columns| => Get(row, columns[j]).GetOr(""))
  }

  lemma LineOf(row: Row, out: Row, cap: string, lat: string, lon: string)
    requires Distinct(row) && forall k :: k in Keys(row) ==> !Added(k)
    requires forall k :: !Added(k) ==> Get(out, k) == Get(row, k)
    requires Get(out, CapColumn) == Some(cap) && Get(out, LatColumn) == Some(lat) && Get(out, LonColumn) == Some(lon)
    ensures Line(out, Keys(row) + [CapColumn, LatColumn, LonColumn]) == Values(row) + [cap, lat, lon]
  {
    var cols := Keys(row) + [CapColumn, LatColumn, LonColumn];
    var cells := Line(out, cols);
    forall j | 0 <= j < |row| ensures cells[j] == Values(row)[j] {
      assert cols[j] == Keys(row)[j] == row[j].0;
      GetDistinct(row, j);
    }
  }

  /** Under the output columns, the line of an ISTAT row that has the
      header's keys holds its original values in order, then the cap,
      latitude and longitude the join chose for it. */
  lemma OutputLine(istat: seq<Row>, extra: seq<ExtraRow>, i: int)
    requires 0 <= i < |istat| && Keys(istat[i]) == Keys(istat[0]) && Distinct(istat[i])
    requires forall k :: k in Keys(istat[0]) ==> !Added(k)
    ensures var t := MergeComuni(istat, extra).value; var out := t.rows[i];
      Line(out, t.columns) == Values(istat[i]) + [Get(out, CapKey).GetOr(""), Get(out, LatKey).GetOr(""), Get(out, LonKey).GetOr("")]
  {
    var t := MergeComuni(istat, extra).value;
    var row, out := istat[i], t.rows[i];
    var code := NormalizeCode(Get(row, CodeColumn));
    var lookup := BuildLookup(extra);
    assert t.columns == Keys(row) + [CapColumn, LatColumn, LonColumn];
    if code in lookup {
      var e := lookup[code];
      var c, la, lo := Trim(e.cap), ReplaceFirst(e.lat, ',', '.'), ReplaceFirst(e.lon, ',', '.');
      FinalRowSpec(row, c, la, lo);
      LineOf(row, out, c, la, lo);
    } else {
      FinalRowSpec(row, "", "", "");
      LineOf(row, out, "", "", "");
    }
  }
}
