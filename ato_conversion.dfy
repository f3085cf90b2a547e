/** Access-to-opportunity (ATO) table conversion: each per-year table is cut
    to nine columns, renamed with the year's two-digit suffix and inner-joined
    onto the base table on TAZID. */
module AtoConversion {
  import opened Wrappers

  // ---------------------------------------------------------------------
  // Python string operations

  function Min(a: int, b: int): int
  {
    if a <= b then a else b
  }

  /** `s[lo:hi]` for non-negative bounds: both bounds clamped to the length,
      and empty when the clamped start passes the clamped end. */
  function PySlice(s: string, lo: nat, hi: nat): (r: string)
    ensures |r| == if Min(hi, |s|) <= Min(lo, |s|) then 0 else Min(hi, |s|) - Min(lo, |s|)
    ensures hi <= |s| && lo <= hi ==> r == s[lo..hi]
    ensures forall j :: 0 <= j < |r| ==> r[j] == s[lo + j]
  {
    var a := Min(lo, |s|);
    var b := Min(hi, |s|);
    if b <= a then [] else s[a..b]
  }

  /** `s[-n:]`: the last `n` characters, or all of a shorter string. */
  function PySuffix(s: string, n: nat): (r: string)
    ensures |r| == Min(n, |s|)
    ensures r == s[|s| - |r|..]
  {
    if |s| >= n then s[|s| - n..] else s
  }

  /** The year of an ATO table: characters 22 to 25 of its file name. */
  function YearOf(filename: string): (year: string)
    ensures |filename| >= 26 ==> year == filename[22..26]
    ensures |filename| <= 22 ==> year == []
    ensures 22 < |filename| < 26 ==> year == filename[22..]
  {
    PySlice(filename, 22, 26)
  }

  predicate NoBraces(s: string)
  {
    forall j :: 0 <= j < |s| ==> s[j] != '{' && s[j] != '}'
  }

  /** `t.format(arg)` for a template whose only braces are at most one
      `{}` placeholder, as all of the script's templates are: the
      placeholder becomes `arg`; a template without one is unchanged. */
  function Format(t: string, arg: string): string
    decreases |t|
  {
    if |t| < 2 then t
    else if t[0] == '{' && t[1] == '}' then arg + t[2..]
    else [t[0]] + Format(t[1..], arg)
  }

  /** Formatting a brace-free stem followed by a placeholder appends the
      argument to the stem. */
  lemma {:induction false} FormatAppends(stem: string, arg: string)
    requires NoBraces(stem)
    ensures Format(stem + "{}", arg) == stem + arg
    decreases |stem|
  {
    if |stem| == 0 {
      assert stem + "{}" == "{}";
    } else {
      var c, rest := stem[0], stem[1..];
      assert NoBraces(rest) by {
        forall j | 0 <= j < |rest| ensures rest[j] != '{' && rest[j] != '}' {
          assert rest[j] == stem[j + 1];
        }
      }
      FormatAppends(rest, arg);
      var t := stem + "{}";
      assert |t| >= 2 && t[0] == c && c != '{';
      assert t[1..] == rest + "{}";
      assert Format(t, arg) == [c] + Format(rest + "{}", arg);
      assert stem == [c] + rest;
    }
  }

  /** Formatting a template with no braces leaves it unchanged. */
  lemma {:induction false} FormatKeepsPlain(t: string, arg: string)
    requires NoBraces(t)
    ensures Format(t, arg) == t
    decreases |t|
  {
    if |t| >= 2 {
      assert t[0] != '{';
      FormatKeepsPlain(t[1..], arg);
      assert t == [t[0]] + t[1..];
    }
  }

  /** `s.replace(pat, rep)`: every non-overlapping occurrence of `pat`,
      scanning from the left, is replaced. */
  function ReplaceAll(s: string, pat: string, rep: string): string
    requires |pat| > 0
    decreases |s|
  {
    if |s| < |pat| then s
    else if s[..|pat|] == pat then rep + ReplaceAll(s[|pat|..], pat, rep)
    else [s[0]] + ReplaceAll(s[1..], pat, rep)
  }

  /** The name of the csv copy of a table: every "dbf" in the file name
      becomes "csv", not only the extension. */
  function CsvName(filename: string): string
  {
    ReplaceAll(filename, "dbf", "csv")
  }

  /** "dbf" starts at position `j` of `s`. */
  predicate DbfAt(s: string, j: int)
  {
    0 <= j && j + 3 <= |s| && s[j] == 'd' && s[j + 1] == 'b' && s[j + 2] == 'f'
  }

  /** The first character of a rewritten name is the original's, unless the
      name starts with "dbf", when it is 'c'. */
  lemma CsvNameHead(s: string)
    requires |s| > 0
    ensures |CsvName(s)| > 0
    ensures CsvName(s)[0] == if DbfAt(s, 0) then 'c' else s[0]
  {
    if DbfAt(s, 0) {
      assert s[..3] == "dbf";
    }
  }

  /** The rewrite keeps the length, and no "dbf" is left in the result. */
  lemma {:induction false} CsvNameRewritesAll(s: string)
    ensures |CsvName(s)| == |s|
    ensures forall j :: !DbfAt(CsvName(s), j)
    decreases |s|
  {
    var r := CsvName(s);
    if |s| >= 3 && s[..3] == "dbf" {
      var rest := CsvName(s[3..]);
      CsvNameRewritesAll(s[3..]);
      assert r == "csv" + rest;
      forall j | DbfAt(r, j)
        ensures false
      {
        if j >= 3 {
          assert DbfAt(rest, j - 3);
        }
      }
    } else if |s| >= 3 {
      var rest := CsvName(s[1..]);
      CsvNameRewritesAll(s[1..]);
      assert r == [s[0]] + rest;
      forall j | DbfAt(r, j)
        ensures false
      {
        if j >= 1 {
          assert DbfAt(rest, j - 1);
        } else {
          CsvNameHead(s[1..]);
          assert s[1] == 'b';
          assert rest == [s[1]] + CsvName(s[2..]);
          CsvNameHead(s[2..]);
        }
      }
    }
  }

  /** Position `j` of `s` lies inside an occurrence of "dbf". */
  predicate InDbf(s: string, j: int)
  {
    DbfAt(s, j) || DbfAt(s, j - 1) || DbfAt(s, j - 2)
  }

  /** Every "dbf" of the name becomes "csv" in place, and every character
      outside an occurrence is kept. ("dbf" cannot overlap itself, so the
      left-to-right scan finds every occurrence.) */
  lemma {:induction false} CsvNamePositions(s: string)
    ensures |CsvName(s)| == |s|
    ensures forall j :: DbfAt(s, j) ==>
      CsvName(s)[j] == 'c' && CsvName(s)[j + 1] == 's' && CsvName(s)[j + 2] == 'v'
    ensures forall j :: 0 <= j < |s| && !InDbf(s, j) ==> CsvName(s)[j] == s[j]
    decreases |s|
  {
    var r := CsvName(s);
    if |s| >= 3 && s[..3] == "dbf" {
      var t := s[3..];
      CsvNamePositions(t);
      assert r == "csv" + CsvName(t);
      forall j | DbfAt(s, j)
        ensures r[j] == 'c' && r[j + 1] == 's' && r[j + 2] == 'v'
      {
        if j >= 3 {
          assert DbfAt(t, j - 3);
        } else {
          assert j == 0;
        }
      }
      forall j | 0 <= j < |s| && !InDbf(s, j)
        ensures r[j] == s[j]
      {
        assert j >= 3 by {
          assert DbfAt(s, 0);
        }
        assert !InDbf(t, j - 3) by {
          assert !DbfAt(s, j) && !DbfAt(s, j - 1) && !DbfAt(s, j - 2);
        }
      }
    } else if |s| >= 3 {
      var t := s[1..];
      CsvNamePositions(t);
      assert r == [s[0]] + CsvName(t);
      assert !DbfAt(s, 0);
      forall j | DbfAt(s, j)
        ensures r[j] == 'c' && r[j + 1] == 's' && r[j + 2] == 'v'
      {
        assert DbfAt(t, j - 1);
      }
      forall j | 0 <= j < |s| && !InDbf(s, j)
        ensures r[j] == s[j]
      {
        if j >= 1 {
          assert !InDbf(t, j - 1) by {
            assert !DbfAt(s, j) && !DbfAt(s, j - 1) && !DbfAt(s, j - 2);
          }
        }
      }
    }
  }

  /** A name without "dbf" is kept as it is. */
  lemma {:induction false} CsvNameKeepsOthers(s: string)
    requires forall j :: !DbfAt(s, j)
    ensures CsvName(s) == s
    decreases |s|
  {
    if |s| >= 3 {
      assert !DbfAt(s, 0);
      assert s[..3] != "dbf";
      forall j
        ensures !DbfAt(s[1..], j)
      {
        assert !DbfAt(s, j + 1);
      }
      CsvNameKeepsOthers(s[1..]);
    }
  }

  // ---------------------------------------------------------------------
  // Field names

  /** The columns kept from each ATO table, in order. */
  const SourceColumns: seq<string> :=
    ["TAZID", "HH", "JOB", "AUTO_JB", "TRAN_JB", "AUTO_HH", "TRAN_HH", "COMP_AUTO", "COMP_TRAN"]

  /** The new names, before the year suffix is filled in. */
  const FieldTemplates: seq<string> :=
    ["TAZID", "HH_{}", "JOB_{}", "AUTO_JB_{}", "TRAN_JB_{}", "AUTO_HH_{}", "TRAN_HH_{}", "AUTO_CP_{}", "TRAN_CP_{}"]

  /** The stems of the renamed value columns. */
  const FieldStems: seq<string> :=
    ["HH_", "JOB_", "AUTO_JB_", "TRAN_JB_", "AUTO_HH_", "TRAN_HH_", "AUTO_CP_", "TRAN_CP_"]

  const KeyColumn: string := "TAZID"

  /** The new field names for a table of the given year. */
  function NewFieldNames(year: string): (names: seq<string>)
    ensures |names| == |FieldTemplates|
  {
    seq(|FieldTemplates|, i requires 0 <= i < |FieldTemplates| => Format(FieldTemplates[i], PySuffix(year, 2)))
  }

  /** Every template after the first is its stem followed by `{}`. */
  lemma TemplatesFromStems()
    ensures |FieldTemplates| == |FieldStems| + 1 && FieldTemplates[0] == KeyColumn
    ensures forall i :: 0 <= i < |FieldStems| ==> FieldTemplates[i + 1] == FieldStems[i] + "{}"
    ensures forall i :: 0 <= i < |FieldStems| ==> NoBraces(FieldStems[i])
  {
    assert FieldTemplates[1] == FieldStems[0] + "{}";
    assert FieldTemplates[2] == FieldStems[1] + "{}";
    assert FieldTemplates[3] == FieldStems[2] + "{}";
    assert FieldTemplates[4] == FieldStems[3] + "{}";
    assert FieldTemplates[5] == FieldStems[4] + "{}";
    assert FieldTemplates[6] == FieldStems[5] + "{}";
    assert FieldTemplates[7] == FieldStems[6] + "{}";
    assert FieldTemplates[8] == FieldStems[7] + "{}";
  }

  /** One renamed column: its stem followed by the year suffix. */
  lemma NewFieldNameAt(year: string, i: nat)
    requires 1 <= i < |FieldTemplates|
    ensures NewFieldNames(year)[i] == FieldStems[i - 1] + PySuffix(year, 2)
  {
    TemplatesFromStems();
    var stem := FieldStems[i - 1];
    assert FieldTemplates[i] == stem + "{}" && NoBraces(stem);
    FormatAppends(stem, PySuffix(year, 2));
  }

  /** TAZID keeps its name; every other column is its stem followed by the
      last two characters of the year. */
  lemma NewFieldNamesForm(year: string)
    ensures NewFieldNames(year)[0] == KeyColumn
    ensures forall i :: 1 <= i < |FieldTemplates| ==>
      NewFieldNames(year)[i] == FieldStems[i - 1] + PySuffix(year, 2)
  {
    assert FieldTemplates[0] == KeyColumn;
    FormatKeepsPlain(KeyColumn, PySuffix(year, 2));
    forall i | 1 <= i < |FieldTemplates|
      ensures NewFieldNames(year)[i] == FieldStems[i - 1] + PySuffix(year, 2)
    {
      NewFieldNameAt(year, i);
    }
  }

  /** The rename is positional: COMP_AUTO and COMP_TRAN become AUTO_CP and
      TRAN_CP with the year suffix. */
  lemma CompColumnsRenamed(year: string)
    ensures SourceColumns[7] == "COMP_AUTO" && NewFieldNames(year)[7] == "AUTO_CP_" + PySuffix(year, 2)
    ensures SourceColumns[8] == "COMP_TRAN" && NewFieldNames(year)[8] == "TRAN_CP_" + PySuffix(year, 2)
  {
    NewFieldNamesForm(year);
  }

  // ---------------------------------------------------------------------
  // Tables

  /** A table as read from csv: named columns and rectangular rows. */
  datatype CsvTable = CsvTable(columns: seq<string>, rows: seq<seq<real>>)

  predicate Rectangular(t: CsvTable)
  {
    forall r :: 0 <= r < |t.rows| ==> |t.rows[r]| == |t.columns|
  }

  /** A row keyed by its TAZID, with the values of the other columns. */
  datatype Row = Row(key: real, cells: seq<real>)

  /** A table keyed on TAZID: the names of the non-key columns and the rows. */
  datatype KeyedTable = KeyedTable(columns: seq<string>, rows: seq<Row>)

  datatype AtoError = KeyError(column: string)

  /** The position of the first column with the given name. */
  function ColumnIndex(cols: seq<string>, name: string): (r: Option<nat>)
    ensures r.Some? ==> r.value < |cols| && cols[r.value] == name
    ensures r.None? <==> name !in cols
  {
    if cols == [] then None
    else if cols[0] == name then Some(0)
    else
      var r := ColumnIndex(cols[1..], name);
      if r.Some? then Some(r.value + 1) else None
  }

  /** The positions of the named columns, or a KeyError for the first name
      the table lacks. */
  function ColumnIndices(cols: seq<string>, names: seq<string>): (r: Result<seq<nat>, AtoError>)
    ensures r.Success? ==>
      (&& |r.value| == |names|
       && forall j :: 0 <= j < |names| ==> r.value[j] < |cols| && cols[r.value[j]] == names[j])
    ensures r.Failure? <==> exists j :: 0 <= j < |names| && names[j] !in cols
    ensures r.Failure? ==> r.error.column in names && r.error.column !in cols
    ensures r.Success? ==> forall j :: 0 <= j < |names| ==> r.value[j] == ColumnIndex(cols, names[j]).value
  {
    if names == [] then Success([])
    else
      var head := ColumnIndex(cols, names[0]);
      if head.None? then Failure(KeyError(names[0]))
      else
        var tail := ColumnIndices(cols, names[1..]);
        if tail.Failure? then
          var j :| 0 <= j < |names[1..]| && names[1..][j] !in cols;
          assert names[j + 1] !in cols;
          tail
        else
          assert forall j :: 1 <= j < |names| ==> names[j] == names[1..][j - 1];
          Success([head.value] + tail.value)
  }

  function Project(row: seq<real>, idx: seq<nat>): (r: seq<real>)
    requires forall j :: 0 <= j < |idx| ==> idx[j] < |row|
    ensures |r| == |idx|
  {
    seq(|idx|, j requires 0 <= j < |idx| => row[idx[j]])
  }

  /** The value of row `i` under the column called `name` (the first such
      column, as pandas selects it). */
  function CellOf(t: CsvTable, i: nat, name: string): real
    requires Rectangular(t) && i < |t.rows| && name in t.columns
  {
    t.rows[i][ColumnIndex(t.columns, name).value]
  }

  /** One ATO table: cut to the nine source columns (KeyError if one is
      missing), then renamed positionally to the year's field names. */
  function ReadAtoTable(t: CsvTable, year: string): (r: Result<KeyedTable, AtoError>)
    requires Rectangular(t)
    ensures r.Failure? <==> exists j :: 0 <= j < |SourceColumns| && SourceColumns[j] !in t.columns
    ensures r.Success? ==> r.value.columns == NewFieldNames(year)[1..] && |r.value.rows| == |t.rows|
  {
    var idx := ColumnIndices(t.columns, SourceColumns);
    if idx.Failure? then Failure(idx.error)
    else
      var ix := idx.value;
      Success(KeyedTable(NewFieldNames(year)[1..],
        seq(|t.rows|, r requires 0 <= r < |t.rows| => Row(t.rows[r][ix[0]], Project(t.rows[r], ix[1..])))))
  }

  /** The cut keeps each row's values: row i is keyed by its TAZID, and its
      cells are its HH, JOB, AUTO_JB, TRAN_JB, AUTO_HH, TRAN_HH, COMP_AUTO
      and COMP_TRAN values, in that order. */
  lemma ReadAtoTableCells(t: CsvTable, year: string)
    requires Rectangular(t)
    ensures var r := ReadAtoTable(t, year);
      r.Success? ==> forall i :: 0 <= i < |t.rows| ==>
        && r.value.rows[i].key == CellOf(t, i, KeyColumn)
        && |r.value.rows[i].cells| == |SourceColumns| - 1
        && forall j :: 1 <= j < |SourceColumns| ==> r.value.rows[i].cells[j - 1] == CellOf(t, i, SourceColumns[j])
  {
  }

  /** The position a column keeps once the column at `k` is taken out. */
  function Skip(c: nat, k: nat): nat
    requires c != k
  {
    if c < k then c else c - 1
  }

  /** The sequence without its element at `k`; the others keep their order. */
  function Drop<T>(xs: seq<T>, k: nat): (r: seq<T>)
    requires k < |xs|
    ensures |r| == |xs| - 1
    ensures forall c :: 0 <= c < |xs| && c != k ==> r[Skip(c, k)] == xs[c]
  {
    xs[..k] + xs[k + 1..]
  }

  /** The base table, keyed on TAZID (KeyError if it has no such column);
      every other column keeps its name, its values and its order. */
  function ReadBaseTable(t: CsvTable): (r: Result<KeyedTable, AtoError>)
    requires Rectangular(t)
    ensures r.Failure? <==> KeyColumn !in t.columns
    ensures r.Success? ==> |r.value.rows| == |t.rows|
    ensures r.Success? ==>
      var k := ColumnIndex(t.columns, KeyColumn).value;
      && |r.value.columns| == |t.columns| - 1
      && (forall c :: 0 <= c < |t.columns| && c != k ==> r.value.columns[Skip(c, k)] == t.columns[c])
      && forall i :: 0 <= i < |t.rows| ==>
        && r.value.rows[i].key == CellOf(t, i, KeyColumn)
        && |r.value.rows[i].cells| == |t.columns| - 1
        && forall c :: 0 <= c < |t.columns| && c != k ==> r.value.rows[i].cells[Skip(c, k)] == t.rows[i][c]
  {
    var k := ColumnIndex(t.columns, KeyColumn);
    if k.None? then Failure(KeyError(KeyColumn))
    else
      var kk := k.value;
      Success(KeyedTable(Drop(t.columns, kk),
        seq(|t.rows|, r requires 0 <= r < |t.rows| => Row(t.rows[r][kk], Drop(t.rows[r], kk)))))
  }

  /** The positional rename puts COMP_AUTO's values under AUTO_CP_yy and
      COMP_TRAN's under TRAN_CP_yy. */
  lemma CompValuesRenamed(t: CsvTable, year: string)
    requires Rectangular(t)
    ensures SourceColumns[7] == "COMP_AUTO" && SourceColumns[8] == "COMP_TRAN"
    ensures var r := ReadAtoTable(t, year);
      r.Success? ==>
        && r.value.columns[6] == "AUTO_CP_" + PySuffix(year, 2)
        && r.value.columns[7] == "TRAN_CP_" + PySuffix(year, 2)
        && forall i :: 0 <= i < |t.rows| ==>
          && r.value.rows[i].cells[6] == CellOf(t, i, SourceColumns[7])
          && r.value.rows[i].cells[7] == CellOf(t, i, SourceColumns[8])
  {
    var r := ReadAtoTable(t, year);
    CompColumnsRenamed(year);
    ReadAtoTableCells(t, year);
    if r.Success? {
      assert r.value.columns[6] == NewFieldNames(year)[7];
      assert r.value.columns[7] == NewFieldNames(year)[8];
    }
  }

  // ---------------------------------------------------------------------
  // Sorting and merging

  predicate SortedByKey(rows: seq<Row>)
  {
    forall i, j :: 0 <= i < j < |rows| ==> rows[i].key <= rows[j].key
  }

  function Keys(rows: seq<Row>): set<real>
  {
    set r | r in rows :: r.key
  }

  lemma SortedCons(h: Row, t: seq<Row>)
    requires SortedByKey(t)
    requires t == [] || h.key <= t[0].key
    ensures SortedByKey([h] + t)
  {
  }

  function InsertRow(x: Row, rows: seq<Row>): (r: seq<Row>)
    requires SortedByKey(rows)
    ensures |r| == |rows| + 1
    ensures r[0] == x || (rows != [] && r[0] == rows[0])
    ensures SortedByKey(r)
    ensures multiset(r) == multiset(rows) + multiset{x}
  {
    if rows == [] then [x]
    else if x.key < rows[0].key then
      SortedCons(x, rows);
      [x] + rows
    else
      var rest := InsertRow(x, rows[1..]);
      SortedCons(rows[0], rest);
      assert rows == [rows[0]] + rows[1..];
      [rows[0]] + rest
  }

  /** `sort_values(by=['TAZID'])`: the rows ordered by key, the same rows. */
  function SortByKey(rows: seq<Row>): (r: seq<Row>)
    ensures SortedByKey(r) && multiset(r) == multiset(rows)
  {
    if rows == [] then [] else
      assert rows == [rows[0]] + rows[1..];
      InsertRow(rows[0], SortByKey(rows[1..]))
  }

  /** Left row `l` joined to right row `r`. */
  function Joined(l: Row, r: Row): Row
  {
    Row(l.key, l.cells + r.cells)
  }

  /** The positions of the rows with key `k`, in increasing order. */
  function MatchPositions(k: real, rs: seq<Row>): (js: seq<nat>)
    ensures forall p :: 0 <= p < |js| ==> js[p] < |rs| && rs[js[p]].key == k
    ensures forall p, q :: 0 <= p < q < |js| ==> js[p] < js[q]
    ensures forall j :: 0 <= j < |rs| && rs[j].key == k ==> j in js
  {
    if rs == [] then []
    else
      var init := MatchPositions(k, rs[..|rs| - 1]);
      if rs[|rs| - 1].key == k then init + [|rs| - 1] else init
  }

  /** The right rows matching one left row, joined to it, in right order. */
  function Matches(l: Row, rs: seq<Row>): (m: seq<Row>)
    ensures forall j :: 0 <= j < |m| ==> m[j].key == l.key
    ensures |m| <= |rs|
  {
    if rs == [] then []
    else
      var last := rs[|rs| - 1];
      Matches(l, rs[..|rs| - 1]) + (if last.key == l.key then [Joined(l, last)] else [])
  }

  /** A left row is paired once with each right row of the same key, in
      right order: the p-th match joins it to the right row at the p-th
      position with its key, the left cells followed by the right cells. */
  lemma {:induction false} MatchesPaired(l: Row, rs: seq<Row>)
    ensures |Matches(l, rs)| == |MatchPositions(l.key, rs)|
    ensures forall p :: 0 <= p < |Matches(l, rs)| ==>
      Matches(l, rs)[p] == Joined(l, rs[MatchPositions(l.key, rs)[p]])
    decreases |rs|
  {
    if rs != [] {
      var init := rs[..|rs| - 1];
      MatchesPaired(l, init);
      var js := MatchPositions(l.key, init);
      forall p | 0 <= p < |js|
        ensures Matches(l, init)[p] == Joined(l, rs[js[p]])
      {
        assert init[js[p]] == rs[js[p]];
      }
    }
  }

  /** The rows of a pandas inner merge on TAZID: for each left row in order,
      its matches in the right table in order. */
  function MergeRows(ls: seq<Row>, rs: seq<Row>): seq<Row>
  {
    if ls == [] then [] else MergeRows(ls[..|ls| - 1], rs) + Matches(ls[|ls| - 1], rs)
  }

  function InnerMerge(left: KeyedTable, right: KeyedTable): KeyedTable
  {
    KeyedTable(left.columns + right.columns, MergeRows(left.rows, right.rows))
  }

  /** A left row has a match exactly when its key is among the right keys. */
  lemma {:induction false} MatchesKeys(l: Row, rs: seq<Row>)
    ensures Matches(l, rs) != [] <==> l.key in Keys(rs)
    decreases |rs|
  {
    if rs != [] {
      var init := rs[..|rs| - 1];
      MatchesKeys(l, init);
      assert rs == init + [rs[|rs| - 1]];
      assert Keys(rs) == Keys(init) + {rs[|rs| - 1].key};
    }
  }

  /** The merged keys are exactly the keys found on both sides. */
  lemma {:induction false} MergeRowsKeys(ls: seq<Row>, rs: seq<Row>)
    ensures Keys(MergeRows(ls, rs)) == Keys(ls) * Keys(rs)
    decreases |ls|
  {
    if ls != [] {
      var init := ls[..|ls| - 1];
      var last := ls[|ls| - 1];
      MergeRowsKeys(init, rs);
      MatchesKeys(last, rs);
      assert ls == init + [last];
      assert Keys(ls) == Keys(init) + {last.key};
      var m := Matches(last, rs);
      assert Keys(m) == if m == [] then {} else {last.key} by {
        if m != [] {
          assert m[0] in m;
        }
      }
      assert Keys(MergeRows(init, rs) + m) == Keys(MergeRows(init, rs)) + Keys(m);
    }
  }

  /** A row is among a left row's matches exactly when it joins that left
      row to some right row of the same key. */
  lemma MatchesMember(l: Row, rs: seq<Row>, m: Row)
    ensures m in Matches(l, rs) <==>
      exists j :: 0 <= j < |rs| && rs[j].key == l.key && m == Joined(l, rs[j])
  {
    var ms := Matches(l, rs);
    var js := MatchPositions(l.key, rs);
    MatchesPaired(l, rs);
    if m in ms {
      var p :| 0 <= p < |ms| && ms[p] == m;
      assert rs[js[p]].key == l.key && m == Joined(l, rs[js[p]]);
    }
    if exists j :: 0 <= j < |rs| && rs[j].key == l.key && m == Joined(l, rs[j]) {
      var j :| 0 <= j < |rs| && rs[j].key == l.key && m == Joined(l, rs[j]);
      assert j in js;
      var p :| 0 <= p < |js| && js[p] == j;
      assert ms[p] == m;
    }
  }

  /** The inner merge pairs every left row with every right row of the same
      key, and holds nothing else. */
  lemma {:induction false} MergeRowsMember(ls: seq<Row>, rs: seq<Row>, m: Row)
    ensures m in MergeRows(ls, rs) <==>
      exists i, j :: 0 <= i < |ls| && 0 <= j < |rs| && ls[i].key == rs[j].key && m == Joined(ls[i], rs[j])
    decreases |ls|
  {
    if ls != [] {
      var init, last := ls[..|ls| - 1], ls[|ls| - 1];
      MergeRowsMember(init, rs, m);
      MatchesMember(last, rs, m);
      assert m in MergeRows(ls, rs) <==> m in MergeRows(init, rs) || m in Matches(last, rs);
      if exists i, j :: 0 <= i < |ls| && 0 <= j < |rs| && ls[i].key == rs[j].key && m == Joined(ls[i], rs[j]) {
        var i, j :| 0 <= i < |ls| && 0 <= j < |rs| && ls[i].key == rs[j].key && m == Joined(ls[i], rs[j]);
        if i < |init| {
          assert init[i] == ls[i];
        }
      }
      if exists i, j :: 0 <= i < |init| && 0 <= j < |rs| && init[i].key == rs[j].key && m == Joined(init[i], rs[j]) {
        var i, j :| 0 <= i < |init| && 0 <= j < |rs| && init[i].key == rs[j].key && m == Joined(init[i], rs[j]);
        assert ls[i] == init[i];
      }
    }
  }

  /** The pairs of positions (left, right) whose keys agree. */
  function MatchingPairs(ls: seq<Row>, rs: seq<Row>): set<(nat, nat)>
  {
    set i: nat, j: nat | i < |ls| && j < |rs| && ls[i].key == rs[j].key :: (i, j)
  }

  /** The pairs (i, j) for the positions j listed. */
  function PairsWith(i: nat, js: seq<nat>): set<(nat, nat)>
  {
    set j | j in js :: (i, j)
  }

  lemma {:induction false} PairsWithCount(i: nat, js: seq<nat>)
    requires forall p, q :: 0 <= p < q < |js| ==> js[p] < js[q]
    ensures |PairsWith(i, js)| == |js|
    decreases |js|
  {
    if js != [] {
      var init := js[..|js| - 1];
      PairsWithCount(i, init);
      assert PairsWith(i, js) == PairsWith(i, init) + {(i, js[|js| - 1])};
      assert (i, js[|js| - 1]) !in PairsWith(i, init);
    }
  }

  /** The matching pairs of a left table are those of all its rows but the
      last, and, apart from them, the last row's pairs. */
  lemma MatchingPairsSplit(ls: seq<Row>, rs: seq<Row>)
    requires ls != []
    ensures var n := |ls| - 1;
      var pairs, last := MatchingPairs(ls[..n], rs), PairsWith(n, MatchPositions(ls[n].key, rs));
      MatchingPairs(ls, rs) == pairs + last && pairs * last == {}
  {
    var n := |ls| - 1;
    var init := ls[..n];
    var js := MatchPositions(ls[n].key, rs);
    var pairs, last := MatchingPairs(init, rs), PairsWith(n, js);
    forall pr | pr in MatchingPairs(ls, rs)
      ensures pr in pairs + last
    {
      var (i, j) := pr;
      if i < n {
        assert init[i] == ls[i];
      } else {
        assert j in js;
      }
    }
    forall pr | pr in pairs
      ensures pr in MatchingPairs(ls, rs)
    {
      var (i, j) := pr;
      assert init[i] == ls[i];
    }
    forall pr | pr in last
      ensures pr in MatchingPairs(ls, rs) && pr !in pairs
    {
      var (i, j) := pr;
      var p :| 0 <= p < |js| && js[p] == j;
    }
  }

  /** The inner merge has one row per pair of rows with equal keys, so
      duplicate keys multiply rows. */
  lemma {:induction false} MergeRowsCount(ls: seq<Row>, rs: seq<Row>)
    ensures |MergeRows(ls, rs)| == |MatchingPairs(ls, rs)|
    decreases |ls|
  {
    if ls != [] {
      var n := |ls| - 1;
      MergeRowsCount(ls[..n], rs);
      MatchesPaired(ls[n], rs);
      PairsWithCount(n, MatchPositions(ls[n].key, rs));
      MatchingPairsSplit(ls, rs);
    }
  }

  /** Every merged row carries a key of a left row, and the rows come in
      the order of the left rows. */
  lemma {:induction false} MergeRowsSorted(ls: seq<Row>, rs: seq<Row>)
    requires SortedByKey(ls)
    ensures SortedByKey(MergeRows(ls, rs))
    ensures forall j :: 0 <= j < |MergeRows(ls, rs)| ==> MergeRows(ls, rs)[j].key in Keys(ls)
    decreases |ls|
  {
    if ls != [] {
      var init := ls[..|ls| - 1];
      var last := ls[|ls| - 1];
      MergeRowsSorted(init, rs);
      var a := MergeRows(init, rs);
      var m := Matches(last, rs);
      forall j | 0 <= j < |a|
        ensures a[j].key <= last.key && a[j].key in Keys(ls)
      {
        assert a[j].key in Keys(init);
        var r :| r in init && r.key == a[j].key;
        var i :| 0 <= i < |init| && init[i] == r;
        assert ls[i] == r;
      }
      assert last in ls;
      assert forall j :: 0 <= j < |a + m| ==> (a + m)[j] == if j < |a| then a[j] else m[j - |a|];
    }
  }

  // ---------------------------------------------------------------------
  // The conversion loop

  /** One ATO table file: its name and its contents once converted to csv. */
  datatype AtoFile = AtoFile(filename: string, table: CsvTable)

  predicate AllRectangular(files: seq<AtoFile>)
  {
    forall i :: 0 <= i < |files| ==> Rectangular(files[i].table)
  }

  /** The tables joined onto `acc` in order; the first KeyError stops it. */
  function JoinAll(acc: KeyedTable, files: seq<AtoFile>): Result<KeyedTable, AtoError>
    requires AllRectangular(files)
    decreases |files|
  {
    if files == [] then Success(acc)
    else
      var t := ReadAtoTable(files[0].table, YearOf(files[0].filename));
      if t.Failure? then Failure(t.error)
      else JoinAll(InnerMerge(acc, t.value), files[1..])
  }

  /** The keys present in every table of the files. */
  function CommonKeys(keys: set<real>, files: seq<AtoFile>): set<real>
    requires AllRectangular(files)
    decreases |files|
  {
    if files == [] then keys
    else
      var t := ReadAtoTable(files[0].table, YearOf(files[0].filename));
      if t.Failure? then keys else CommonKeys(keys * Keys(t.value.rows), files[1..])
  }

  /** After the joins only the TAZIDs of the starting table that every
      joined table also has remain, still in key order. */
  lemma {:induction false} JoinAllKeys(acc: KeyedTable, files: seq<AtoFile>)
    requires AllRectangular(files)
    requires SortedByKey(acc.rows)
    ensures var r := JoinAll(acc, files);
      r.Success? ==> Keys(r.value.rows) == CommonKeys(Keys(acc.rows), files) && SortedByKey(r.value.rows)
    decreases |files|
  {
    if files != [] {
      var t := ReadAtoTable(files[0].table, YearOf(files[0].filename));
      if t.Success? {
        var next := InnerMerge(acc, t.value);
        MergeRowsKeys(acc.rows, t.value.rows);
        MergeRowsSorted(acc.rows, t.value.rows);
        JoinAllKeys(next, files[1..]);
      }
    }
  }

  /** One step of the joins: the first table's KeyError, or its merge. */
  lemma JoinAllStep(acc: KeyedTable, files: seq<AtoFile>)
    requires AllRectangular(files) && files != []
    ensures AllRectangular(files[1..])
    ensures var t := ReadAtoTable(files[0].table, YearOf(files[0].filename));
      && (t.Failure? ==> JoinAll(acc, files) == Failure(t.error))
      && (t.Success? ==> JoinAll(acc, files) == JoinAll(InnerMerge(acc, t.value), files[1..]))
  {
  }

  /** The body of the loop for one file: its year and csv name, then the
      column cut (a KeyError when a column is missing), the rename, and the
      merge of the accumulated table with the result. */
  method JoinOne(table: KeyedTable, file: AtoFile) returns (next: Result<KeyedTable, AtoError>, csv: string)
    requires Rectangular(file.table)
    ensures csv == CsvName(file.filename)
    ensures var t := ReadAtoTable(file.table, YearOf(file.filename));
      && (t.Failure? ==> next == Failure(t.error))
      && (t.Success? ==> next == Success(InnerMerge(table, t.value)))
  {
    var filename := file.filename;
    var year := YearOf(filename);
    csv := CsvName(filename);
    var temp := ReadAtoTable(file.table, year);
    if temp.Failure? {
      next := Failure(temp.error);
    } else {
      next := Success(InnerMerge(table, temp.value));
    }
  }

  /** The loop over the table files: each file's year, csv name, column
      cut, rename and inner merge onto the accumulated table. Returns the
      joined table, or the first KeyError, and the csv names written. */
  method JoinFiles(table0: KeyedTable, files: seq<AtoFile>)
    returns (res: Result<KeyedTable, AtoError>, csvNames: seq<string>)
    requires AllRectangular(files)
    ensures res == JoinAll(table0, files)
    ensures |csvNames| <= |files| && forall i :: 0 <= i < |csvNames| ==> csvNames[i] == CsvName(files[i].filename)
    ensures res.Success? ==> |csvNames| == |files|
  {
    var table := table0;
    csvNames := [];
    var i := 0;
    while i < |files|
      invariant 0 <= i <= |files|
      invariant |csvNames| == i
      invariant forall j :: 0 <= j < i ==> csvNames[j] == CsvName(files[j].filename)
      invariant AllRectangular(files[i..])
      invariant JoinAll(table0, files) == JoinAll(table, files[i..])
    {
      var next, csv := JoinOne(table, files[i]);
      csvNames := csvNames + [csv];
      JoinAllStep(table, files[i..]);
      assert files[i..][0] == files[i] && files[i..][1..] == files[i + 1..];
      if next.Failure? {
        return next, csvNames;
      }
      table := next.value;
      i := i + 1;
    }
    res := Success(table);
  }

  /** The script: the base table read and sorted by TAZID, then the loop
      over the table files. */
  method ConvertAtoTables(baseCsv: CsvTable, files: seq<AtoFile>)
    returns (res: Result<KeyedTable, AtoError>, csvNames: seq<string>)
    requires Rectangular(baseCsv) && AllRectangular(files)
    ensures ReadBaseTable(baseCsv).Failure? ==> res == ReadBaseTable(baseCsv) && csvNames == []
    ensures ReadBaseTable(baseCsv).Success? ==>
      var base := ReadBaseTable(baseCsv).value;
      res == JoinAll(base.(rows := SortByKey(base.rows)), files)
    ensures |csvNames| <= |files| && forall i :: 0 <= i < |csvNames| ==> csvNames[i] == CsvName(files[i].filename)
    ensures res.Success? ==> |csvNames| == |files|
  {
    var read := ReadBaseTable(baseCsv);
    if read.Failure? {
      return read, [];
    }
    var base := read.value;
    res, csvNames := JoinFiles(base.(rows := SortByKey(base.rows)), files);
  }
}
