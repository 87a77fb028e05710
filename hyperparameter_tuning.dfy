/** `generate_optimal_parameter_table`: collapses hyper-parameter tuning
    results into one summary row per (configuration, sample_size,
    iteration) group, holding one representative value per tuned
    parameter. Reading the CSV and writing the CSV/HTML files are left
    out; the model starts from the loaded table and ends with the
    reordered summary table. */
module HyperparameterTuning {
  import opened Frames
  import opened PyStrings
  import opened GroupBy
  import opened Series

  const PARAM_PREFIX := "param_"
  const CONFIGURATION := "configuration"
  const SAMPLE_SIZE := "sample_size"
  const ITERATION := "iteration"
  const KEY_COLUMNS := [CONFIGURATION, SAMPLE_SIZE, ITERATION]
  /** What a non-numeric parameter gets when its group has no mode. */
  const NOT_AVAILABLE := Text("N/A")

  /** The KeyError pandas raises: a grouping column absent from the table,
      or a column selection on the column-less frame built from no rows. */
  datatype TableError = MissingColumn(name: ColumnName) | EmptySummary

  /** The summary table: its column labels in order and its rows. */
  datatype Summary = Summary(columns: seq<ColumnName>, rows: seq<Row>)

  // -----------------------------------------------------------------------
  // Parameter columns and their output names

  /** The parameter columns, in header order. */
  function ParamColumns(columns: seq<ColumnName>): (ps: seq<ColumnName>)
    ensures forall c :: c in ps <==> c in columns && StartsWith(c, PARAM_PREFIX)
    ensures |ps| <= |columns|
  {
    if columns == [] then []
    else
      assert forall c :: c in columns <==> c == columns[0] || c in columns[1..];
      (if StartsWith(columns[0], PARAM_PREFIX) then [columns[0]] else []) + ParamColumns(columns[1..])
  }

  /** Each parameter column is selected as many times as it occurs in the
      header, and no other column is selected. */
  lemma {:induction false} ParamColumnsCounts(columns: seq<ColumnName>)
    ensures forall c ::
              multiset(ParamColumns(columns))[c] == if StartsWith(c, PARAM_PREFIX) then multiset(columns)[c] else 0
  {
    if columns != [] {
      assert columns == [columns[0]] + columns[1..];
      ParamColumnsCounts(columns[1..]);
    }
  }

  /** Selecting the parameter columns keeps header order: the selection
      from a header split in two is the selection from the first part
      followed by the selection from the second. */
  lemma {:induction false} ParamColumnsKeepsOrder(a: seq<ColumnName>, b: seq<ColumnName>)
    ensures ParamColumns(a + b) == ParamColumns(a) + ParamColumns(b)
  {
    if a != [] {
      assert (a + b)[0] == a[0] && (a + b)[1..] == a[1..] + b;
      ParamColumnsKeepsOrder(a[1..], b);
    } else {
      assert a + b == b;
    }
  }

  /** The output name of a parameter column: `param.replace('param_', '')`. */
  function ParamName(p: ColumnName): ColumnName {
    DeleteAll(p, PARAM_PREFIX)
  }

  function ParamNames(ps: seq<ColumnName>): (names: seq<ColumnName>)
    ensures |names| == |ps|
    ensures forall i :: 0 <= i < |ps| ==> names[i] == ParamName(ps[i])
  {
    seq(|ps|, i requires 0 <= i < |ps| => ParamName(ps[i]))
  }

  /** The column order of the summary: the key columns, then the parameter
      names sorted. */
  function OrderedColumns(ps: seq<ColumnName>): seq<ColumnName> {
    KEY_COLUMNS + SortNames(ParamNames(ps))
  }

  /** A parameter column named `param_` followed by text free of the
      prefix loses exactly the prefix; a name without the prefix anywhere
      is kept as it is. */
  lemma ParamNameStripsPrefix(suffix: string)
    requires !Contains(suffix, PARAM_PREFIX)
    ensures StartsWith(PARAM_PREFIX + suffix, PARAM_PREFIX)
    ensures ParamName(PARAM_PREFIX + suffix) == suffix
    ensures ParamName(suffix) == suffix
  {
    DeleteAllPrefix(PARAM_PREFIX, suffix);
    DeleteAllAbsent(suffix, PARAM_PREFIX);
    assert (PARAM_PREFIX + suffix)[..|PARAM_PREFIX|] == PARAM_PREFIX;
  }

  /** A doubled prefix is deleted twice: `param_param_x` is renamed to `x`. */
  lemma ParamNameDoublePrefix(suffix: string)
    requires !Contains(suffix, PARAM_PREFIX)
    ensures ParamName(PARAM_PREFIX + PARAM_PREFIX + suffix) == suffix
  {
    var s := PARAM_PREFIX + PARAM_PREFIX + suffix;
    assert s[..|PARAM_PREFIX|] == PARAM_PREFIX;
    DeleteAllLeftmost(s, PARAM_PREFIX, 0);
    assert s[..0] == [];
    assert s[|PARAM_PREFIX|..] == PARAM_PREFIX + suffix;
    DeleteAllPrefix(PARAM_PREFIX, suffix);
  }

  // -----------------------------------------------------------------------
  // One summary row

  /** The row dict as first built for a group: its key values. */
  function KeyRow(k: seq<Value>): Row
    requires |k| == |KEY_COLUMNS|
  {
    map[CONFIGURATION := k[0], SAMPLE_SIZE := k[1], ITERATION := k[2]]
  }

  /** The value a parameter gets in the row of `group`: the first value of
      the group for a numeric column, otherwise the first entry of the
      mode, or "N/A" when the mode is empty. */
  function Representative(t: Frame, p: ColumnName, group: seq<Row>): Value
    requires group != []
  {
    var values := ColumnValues(group, p);
    if p in t.numeric then values[0]
    else match Mode(values)
      case Some(v) => v
      case None => NOT_AVAILABLE
  }

  /** A numeric parameter's representative is its value in the group's
      first row. */
  lemma RepresentativeNumeric(t: Frame, p: ColumnName, group: seq<Row>)
    requires group != [] && p in t.numeric
    ensures Representative(t, p, group) == Get(group[0], p)
  {
  }

  /** A non-numeric parameter's representative is a most frequent
      non-missing value of the group, or "N/A" when all its values are
      missing. */
  lemma RepresentativeMode(t: Frame, p: ColumnName, group: seq<Row>)
    requires group != [] && p !in t.numeric
    ensures var vals := ColumnValues(group, p);
      var v := Representative(t, p, group);
      && ((forall e :: 0 <= e < |vals| ==> vals[e] == Missing) ==> v == NOT_AVAILABLE)
      && ((exists e :: 0 <= e < |vals| && vals[e] != Missing) ==>
            v != Missing && v in vals &&
            forall e :: 0 <= e < |vals| && vals[e] != Missing ==> Count(vals, vals[e]) <= Count(vals, v))
  {
  }

  /** `row` after the parameter loop has run over `ps`: each parameter in
      turn stores its representative under its output name, so a later
      parameter with the same output name overwrites an earlier one. */
  function FillRow(row: Row, t: Frame, ps: seq<ColumnName>, group: seq<Row>): Row
    requires group != []
  {
    if ps == [] then row
    else
      var p := ps[|ps| - 1];
      FillRow(row, t, ps[..|ps| - 1], group)[ParamName(p) := Representative(t, p, group)]
  }

  /** No later parameter column shares the output name of `ps[i]`. */
  predicate LastWithName(ps: seq<ColumnName>, i: nat)
    requires i < |ps|
  {
    forall j :: i < j < |ps| ==> ParamName(ps[j]) != ParamName(ps[i])
  }

  /** The filled row has the original keys plus one key per output name. */
  lemma {:induction false} FillRowKeys(row: Row, t: Frame, ps: seq<ColumnName>, group: seq<Row>)
    requires group != []
    ensures FillRow(row, t, ps, group).Keys == row.Keys + set i | 0 <= i < |ps| :: ParamName(ps[i])
  {
    if ps != [] {
      var init := ps[..|ps| - 1];
      FillRowKeys(row, t, init, group);
      var names := set i | 0 <= i < |ps| :: ParamName(ps[i]);
      var initNames := set i | 0 <= i < |init| :: ParamName(init[i]);
      assert names == initNames + {ParamName(ps[|ps| - 1])} by {
        forall n | n in names ensures n in initNames + {ParamName(ps[|ps| - 1])} {
          var i :| 0 <= i < |ps| && ParamName(ps[i]) == n;
          if i < |ps| - 1 {
            assert init[i] == ps[i];
          }
        }
        forall n | n in initNames ensures n in names {
          var i :| 0 <= i < |init| && ParamName(init[i]) == n;
          assert ps[i] == init[i];
        }
      }
    }
  }

  /** Under its output name, the filled row holds the representative of
      the last parameter column with that name. */
  lemma {:induction false} FillRowLast(row: Row, t: Frame, ps: seq<ColumnName>, group: seq<Row>, i: nat)
    requires group != [] && i < |ps| && LastWithName(ps, i)
    ensures ParamName(ps[i]) in FillRow(row, t, ps, group)
    ensures FillRow(row, t, ps, group)[ParamName(ps[i])] == Representative(t, ps[i], group)
  {
    var init := ps[..|ps| - 1];
    if i < |ps| - 1 {
      assert init[i] == ps[i];
      assert LastWithName(init, i) by {
        forall j | i < j < |init| ensures ParamName(init[j]) != ParamName(init[i]) {
          assert init[j] == ps[j];
        }
      }
      FillRowLast(row, t, init, group, i);
    }
  }

  /** A key that no parameter's output name hits keeps its value. */
  lemma {:induction false} FillRowKeeps(row: Row, t: Frame, ps: seq<ColumnName>, group: seq<Row>, c: ColumnName)
    requires group != [] && c in row
    requires forall i :: 0 <= i < |ps| ==> ParamName(ps[i]) != c
    ensures c in FillRow(row, t, ps, group) && FillRow(row, t, ps, group)[c] == row[c]
  {
    if ps != [] {
      var init := ps[..|ps| - 1];
      assert forall i :: 0 <= i < |init| ==> init[i] == ps[i];
      FillRowKeeps(row, t, init, group, c);
    }
  }

  /** When no parameter's output name is a key column, the filled row
      still carries the group key it started from. */
  lemma FillRowKeepsKey(k: seq<Value>, t: Frame, ps: seq<ColumnName>, group: seq<Row>)
    requires group != [] && |k| == |KEY_COLUMNS|
    requires forall i :: 0 <= i < |k| ==> k[i] != Missing
    requires forall i :: 0 <= i < |ps| ==> ParamName(ps[i]) !in KEY_COLUMNS
    ensures KeyOf(FillRow(KeyRow(k), t, ps, group), KEY_COLUMNS) == Some(k)
  {
    var row := FillRow(KeyRow(k), t, ps, group);
    FillRowKeeps(KeyRow(k), t, ps, group, CONFIGURATION);
    FillRowKeeps(KeyRow(k), t, ps, group, SAMPLE_SIZE);
    FillRowKeeps(KeyRow(k), t, ps, group, ITERATION);
    assert Get(row, KEY_COLUMNS[0]) == k[0];
    assert Get(row, KEY_COLUMNS[1]) == k[1];
    assert Get(row, KEY_COLUMNS[2]) == k[2];
    assert forall i :: 0 <= i < |KEY_COLUMNS| ==> Get(row, KEY_COLUMNS[i]) == k[i];
    var kv := KeyOf(row, KEY_COLUMNS);
    assert kv.Some?;
    assert kv.value == k;
  }

  // -----------------------------------------------------------------------
  // The whole summary

  /** Every grouping key has one non-missing value per key column. */
  lemma KeysHaveKeyLength(rows: seq<Row>)
    ensures forall k :: k in Keys(rows, KEY_COLUMNS) ==>
      |k| == |KEY_COLUMNS| && forall i :: 0 <= i < |k| ==> k[i] != Missing
  {
  }

  function SummaryRow(t: Frame, ps: seq<ColumnName>, k: seq<Value>): Row
    requires |k| == |KEY_COLUMNS| && HasKey(t.rows, KEY_COLUMNS, k)
  {
    GroupNonEmpty(t.rows, KEY_COLUMNS, k);
    FillRow(KeyRow(k), t, ps, Group(t.rows, KEY_COLUMNS, k))
  }

  predicate AreGroupKeys(t: Frame, keys: seq<seq<Value>>) {
    forall k :: k in keys ==> |k| == |KEY_COLUMNS| && HasKey(t.rows, KEY_COLUMNS, k)
  }

  function SummaryRows(t: Frame, ps: seq<ColumnName>, keys: seq<seq<Value>>): (rows: seq<Row>)
    requires AreGroupKeys(t, keys)
    ensures |rows| == |keys|
  {
    seq(|keys|, i requires 0 <= i < |keys| => SummaryRow(t, ps, keys[i]))
  }

  /** The summary `generate_optimal_parameter_table` returns for the loaded
      table `t`, or the KeyError it raises. */
  function Summarize(t: Frame): Result<Summary, TableError> {
    if CONFIGURATION !in t.columns then Failure(MissingColumn(CONFIGURATION))
    else if SAMPLE_SIZE !in t.columns then Failure(MissingColumn(SAMPLE_SIZE))
    else if ITERATION !in t.columns then Failure(MissingColumn(ITERATION))
    else
      var keys := Keys(t.rows, KEY_COLUMNS);
      if keys == [] then Failure(EmptySummary)
      else
        KeysHaveKeyLength(t.rows);
        var ps := ParamColumns(t.columns);
        Success(Summary(OrderedColumns(ps), SummaryRows(t, ps, keys)))
  }

  /** All three key columns are columns of the table. */
  predicate HasKeyColumns(t: Frame) {
    CONFIGURATION in t.columns && SAMPLE_SIZE in t.columns && ITERATION in t.columns
  }

  /** The table raises a KeyError exactly when a key column is absent or
      no row has a complete key. */
  lemma SummarizeFails(t: Frame)
    ensures Summarize(t).Failure? <==>
      (exists c :: c in KEY_COLUMNS && c !in t.columns) ||
      (forall i :: 0 <= i < |t.rows| ==> KeyOf(t.rows[i], KEY_COLUMNS).None?)
    ensures Summarize(t).Failure? && Summarize(t).error.MissingColumn? ==>
      Summarize(t).error.name in KEY_COLUMNS && Summarize(t).error.name !in t.columns
  {
    NoKeysNoGroups(t.rows);
  }

  lemma NoKeysNoGroups(rows: seq<Row>)
    ensures Keys(rows, KEY_COLUMNS) == [] <==> forall i :: 0 <= i < |rows| ==> KeyOf(rows[i], KEY_COLUMNS).None?
  {
    var keys := Keys(rows, KEY_COLUMNS);
    if keys != [] {
      assert keys[0] in keys;
    }
    if exists i :: 0 <= i < |rows| && KeyOf(rows[i], KEY_COLUMNS).Some? {
      var i :| 0 <= i < |rows| && KeyOf(rows[i], KEY_COLUMNS).Some?;
      assert HasKey(rows, KEY_COLUMNS, KeyOf(rows[i], KEY_COLUMNS).value);
    }
  }

  // -----------------------------------------------------------------------
  // The imperative procedure

  /** The row dict of one group: its key values, then, parameter column
      by parameter column, the representative stored under the output
      name. */
  method BuildRow(t: Frame, key: seq<Value>, group: seq<Row>, paramColumns: seq<ColumnName>) returns (row: Row)
    requires |key| == |KEY_COLUMNS| && group != []
    ensures row == FillRow(KeyRow(key), t, paramColumns, group)
  {
    row := KeyRow(key);
    var j := 0;
    while j < |paramColumns|
      invariant 0 <= j <= |paramColumns|
      invariant row == FillRow(KeyRow(key), t, paramColumns[..j], group)
    {
      var param := paramColumns[j];
      var paramName := ParamName(param);
      var values := ColumnValues(group, param);
      if param in t.numeric {
        row := row[paramName := values[0]];
      } else {
        var mode := Mode(values);
        row := row[paramName := if mode.Some? then mode.value else NOT_AVAILABLE];
      }
      assert paramColumns[..j + 1][..j] == paramColumns[..j];
      j := j + 1;
    }
    assert paramColumns[..j] == paramColumns;
  }

  /** The body of `generate_optimal_parameter_table` between loading the
      table and writing the files: one row dict per group appended to
      `rows`, then the column reordering. */
  method GenerateOptimalParameterTable(t: Frame) returns (res: Result<Summary, TableError>)
    ensures res == Summarize(t)
  {
    var paramColumns := ParamColumns(t.columns);
    if CONFIGURATION !in t.columns {
      return Failure(MissingColumn(CONFIGURATION));
    } else if SAMPLE_SIZE !in t.columns {
      return Failure(MissingColumn(SAMPLE_SIZE));
    } else if ITERATION !in t.columns {
      return Failure(MissingColumn(ITERATION));
    }
    var keys := Keys(t.rows, KEY_COLUMNS);
    KeysHaveKeyLength(t.rows);
    assert AreGroupKeys(t, keys);
    var rows: seq<Row> := [];
    var i := 0;
    while i < |keys|
      invariant 0 <= i <= |keys|
      invariant |rows| == i
      invariant forall m :: 0 <= m < i ==> rows[m] == SummaryRow(t, paramColumns, keys[m])
    {
      var key := keys[i];
      assert key in keys;
      var group := Group(t.rows, KEY_COLUMNS, key);
      GroupNonEmpty(t.rows, KEY_COLUMNS, key);
      var row := BuildRow(t, key, group, paramColumns);
      rows := rows + [row];
      i := i + 1;
    }
    if rows == [] {
      return Failure(EmptySummary);
    }
    assert rows == SummaryRows(t, paramColumns, keys);
    var orderedColumns := KEY_COLUMNS + SortNames(ParamNames(paramColumns));
    res := Success(Summary(orderedColumns, rows));
  }

  // -----------------------------------------------------------------------
  // What the summary promises

  /** The `j`-th output row is the row built for the `j`-th group key. */
  lemma SummaryRowAt(t: Frame, j: nat)
    requires HasKeyColumns(t) && j < |Keys(t.rows, KEY_COLUMNS)|
    ensures var keys := Keys(t.rows, KEY_COLUMNS);
      && Summarize(t).Success? && j < |Summarize(t).value.rows|
      && |keys[j]| == |KEY_COLUMNS| && HasKey(t.rows, KEY_COLUMNS, keys[j])
      && (forall i :: 0 <= i < |keys[j]| ==> keys[j][i] != Missing)
      && Group(t.rows, KEY_COLUMNS, keys[j]) != []
      && Summarize(t).value.rows[j] == FillRow(KeyRow(keys[j]), t, ParamColumns(t.columns), Group(t.rows, KEY_COLUMNS, keys[j]))
  {
    var keys := Keys(t.rows, KEY_COLUMNS);
    KeysHaveKeyLength(t.rows);
    assert keys[j] in keys;
    GroupNonEmpty(t.rows, KEY_COLUMNS, keys[j]);
  }

  /** The output column list: the three key columns, then the parameter
      names in ascending order, one entry per parameter column. */
  lemma OrderedColumnsShape(ps: seq<ColumnName>)
    ensures var cols := OrderedColumns(ps);
      && |cols| == |KEY_COLUMNS| + |ps|
      && cols[..|KEY_COLUMNS|] == KEY_COLUMNS
      && Sorted(cols[|KEY_COLUMNS|..])
      && multiset(cols[|KEY_COLUMNS|..]) == multiset(ParamNames(ps))
      && (set c | c in cols) == (set c | c in KEY_COLUMNS) + (set i | 0 <= i < |ps| :: ParamName(ps[i]))
  {
    var names := ParamNames(ps);
    var sorted := SortNames(names);
    var cols := OrderedColumns(ps);
    assert cols[..|KEY_COLUMNS|] == KEY_COLUMNS;
    assert cols[|KEY_COLUMNS|..] == sorted;
    assert |sorted| == |multiset(sorted)| == |multiset(names)| == |names|;
    var nameSet := set i | 0 <= i < |ps| :: ParamName(ps[i]);
    forall c | c in sorted ensures c in nameSet {
      assert c in multiset(names);
      var i :| 0 <= i < |names| && names[i] == c;
    }
    forall c | c in nameSet ensures c in sorted {
      var i :| 0 <= i < |ps| && ParamName(ps[i]) == c;
      assert names[i] in multiset(sorted);
    }
    assert (set c | c in cols) == (set c | c in KEY_COLUMNS) + (set c | c in sorted);
  }

  /** The summary's columns are the key columns followed by the parameter
      names in sorted order, one per parameter column, and every row has
      exactly those columns: the renaming that names the row entries is
      the one that names the columns. */
  lemma SummaryColumns(t: Frame)
    requires HasKeyColumns(t) && Keys(t.rows, KEY_COLUMNS) != []
    ensures Summarize(t).Success?
    ensures var s := Summarize(t).value;
      var names := ParamNames(ParamColumns(t.columns));
      && |s.columns| == |KEY_COLUMNS| + |ParamColumns(t.columns)|
      && s.columns[..|KEY_COLUMNS|] == KEY_COLUMNS
      && Sorted(s.columns[|KEY_COLUMNS|..])
      && multiset(s.columns[|KEY_COLUMNS|..]) == multiset(names)
      && forall j :: 0 <= j < |s.rows| ==> s.rows[j].Keys == set c | c in s.columns
  {
    var s := Summarize(t).value;
    var ps := ParamColumns(t.columns);
    var keys := Keys(t.rows, KEY_COLUMNS);
    assert s.columns == OrderedColumns(ps);
    OrderedColumnsShape(ps);
    forall j | 0 <= j < |s.rows| ensures s.rows[j].Keys == set c | c in s.columns {
      SummaryRowAt(t, j);
      FillRowKeys(KeyRow(keys[j]), t, ps, Group(t.rows, KEY_COLUMNS, keys[j]));
      assert KeyRow(keys[j]).Keys == set c | c in KEY_COLUMNS;
    }
  }

  /** Every output row is the row of one group and carries that group's
      key, provided no parameter's output name is a key column's name (one
      that is overwrites the key value in the row). */
  lemma SummaryGroups(t: Frame)
    requires HasKeyColumns(t) && Keys(t.rows, KEY_COLUMNS) != []
    requires forall p :: p in ParamColumns(t.columns) ==> ParamName(p) !in KEY_COLUMNS
    ensures Summarize(t).Success?
    ensures var s := Summarize(t).value;
      && |s.rows| == |Keys(t.rows, KEY_COLUMNS)|
      && (forall j :: 0 <= j < |s.rows| ==>
            KeyOf(s.rows[j], KEY_COLUMNS) == Some(Keys(t.rows, KEY_COLUMNS)[j]))
  {
    var s := Summarize(t).value;
    var ps := ParamColumns(t.columns);
    var keys := Keys(t.rows, KEY_COLUMNS);
    assert forall i :: 0 <= i < |ps| ==> ParamName(ps[i]) !in KEY_COLUMNS by {
      forall i | 0 <= i < |ps| ensures ParamName(ps[i]) !in KEY_COLUMNS {
        assert ps[i] in ps;
      }
    }
    forall j | 0 <= j < |s.rows| ensures KeyOf(s.rows[j], KEY_COLUMNS) == Some(keys[j]) {
      SummaryRowAt(t, j);
      FillRowKeepsKey(keys[j], t, ps, Group(t.rows, KEY_COLUMNS, keys[j]));
    }
  }

  /** The output has exactly one row per distinct key of the input: a key
      occurs in the output iff some input row has it, and no two output
      rows share a key. */
  lemma SummaryOneRowPerGroup(t: Frame)
    requires HasKeyColumns(t) && Keys(t.rows, KEY_COLUMNS) != []
    requires forall p :: p in ParamColumns(t.columns) ==> ParamName(p) !in KEY_COLUMNS
    ensures Summarize(t).Success?
    ensures var s := Summarize(t).value;
      && (forall k :: HasKey(t.rows, KEY_COLUMNS, k) <==> HasKey(s.rows, KEY_COLUMNS, k))
      && (forall i, j :: 0 <= i < j < |s.rows| ==> KeyOf(s.rows[i], KEY_COLUMNS) != KeyOf(s.rows[j], KEY_COLUMNS))
  {
    var s := Summarize(t).value;
    var keys := Keys(t.rows, KEY_COLUMNS);
    SummaryGroups(t);
    forall k | HasKey(t.rows, KEY_COLUMNS, k) ensures HasKey(s.rows, KEY_COLUMNS, k) {
      var j :| 0 <= j < |keys| && keys[j] == k;
      assert KeyOf(s.rows[j], KEY_COLUMNS) == Some(k);
    }
    forall k | HasKey(s.rows, KEY_COLUMNS, k) ensures HasKey(t.rows, KEY_COLUMNS, k) {
      var j :| 0 <= j < |s.rows| && KeyOf(s.rows[j], KEY_COLUMNS) == Some(k);
      assert keys[j] in keys;
    }
  }

  /** A numeric parameter takes the value of the first input row, in table
      order, of the row's group. */
  lemma SummaryNumericFirst(t: Frame, j: nat, i: nat, f: nat)
    requires HasKeyColumns(t) && j < |Keys(t.rows, KEY_COLUMNS)|
    requires i < |ParamColumns(t.columns)| && LastWithName(ParamColumns(t.columns), i)
    requires ParamColumns(t.columns)[i] in t.numeric
    requires f < |t.rows| && KeyOf(t.rows[f], KEY_COLUMNS) == Some(Keys(t.rows, KEY_COLUMNS)[j])
    requires forall e :: 0 <= e < f ==> KeyOf(t.rows[e], KEY_COLUMNS) != Some(Keys(t.rows, KEY_COLUMNS)[j])
    ensures Summarize(t).Success? && j < |Summarize(t).value.rows|
    ensures var p := ParamColumns(t.columns)[i];
      && ParamName(p) in Summarize(t).value.rows[j]
      && Summarize(t).value.rows[j][ParamName(p)] == Get(t.rows[f], p)
  {
    SummaryRowAt(t, j);
    var k := Keys(t.rows, KEY_COLUMNS)[j];
    var g := Group(t.rows, KEY_COLUMNS, k);
    GroupStartsAtFirst(t.rows, KEY_COLUMNS, k, f);
    FillRowLast(KeyRow(k), t, ParamColumns(t.columns), g, i);
    RepresentativeNumeric(t, ParamColumns(t.columns)[i], g);
  }

  /** A non-numeric parameter takes a most frequent non-missing value of
      its group, and "N/A" when every value in the group is missing. */
  lemma SummaryModeValue(t: Frame, j: nat, i: nat)
    requires HasKeyColumns(t) && j < |Keys(t.rows, KEY_COLUMNS)|
    requires i < |ParamColumns(t.columns)| && LastWithName(ParamColumns(t.columns), i)
    requires ParamColumns(t.columns)[i] !in t.numeric
    ensures Summarize(t).Success? && j < |Summarize(t).value.rows|
    ensures var p := ParamColumns(t.columns)[i];
      var keys := Keys(t.rows, KEY_COLUMNS);
      && j < |keys|
      && ParamName(p) in Summarize(t).value.rows[j]
      && var vals := ColumnValues(Group(t.rows, KEY_COLUMNS, keys[j]), p);
      var v := Summarize(t).value.rows[j][ParamName(p)];
      && ((forall e :: 0 <= e < |vals| ==> vals[e] == Missing) ==> v == NOT_AVAILABLE)
      && ((exists e :: 0 <= e < |vals| && vals[e] != Missing) ==>
            v != Missing && v in vals &&
            forall e :: 0 <= e < |vals| && vals[e] != Missing ==> Count(vals, vals[e]) <= Count(vals, v))
  {
    SummaryRowAt(t, j);
    var k := Keys(t.rows, KEY_COLUMNS)[j];
    FillRowLast(KeyRow(k), t, ParamColumns(t.columns), Group(t.rows, KEY_COLUMNS, k), i);
    RepresentativeMode(t, ParamColumns(t.columns)[i], Group(t.rows, KEY_COLUMNS, k));
  }
}
