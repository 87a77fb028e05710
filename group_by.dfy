/** `DataFrame.groupby(by)` with pandas' defaults as far as the summary
    needs them: a row whose value in some key column is missing belongs to
    no group (dropna), every other row belongs to the group of its key, and
    a group keeps its rows in table order. */
module GroupBy {
  import opened Frames

  /** The key of `row`: its values in the `keyCols` columns, or `None` when any
      of them is missing. */
  function KeyOf(row: Row, keyCols: seq<ColumnName>): (k: Option<seq<Value>>)
    ensures k.Some? <==> forall i :: 0 <= i < |keyCols| ==> Get(row, keyCols[i]) != Missing
    ensures k.Some? ==> |k.value| == |keyCols| && forall i :: 0 <= i < |keyCols| ==> k.value[i] == Get(row, keyCols[i])
  {
    var vs := seq(|keyCols|, i requires 0 <= i < |keyCols| => Get(row, keyCols[i]));
    if forall i :: 0 <= i < |keyCols| ==> Get(row, keyCols[i]) != Missing then Some(vs) else None
  }

  /** Some row of `rows` has key `k`. */
  predicate HasKey(rows: seq<Row>, keyCols: seq<ColumnName>, k: seq<Value>) {
    exists i :: 0 <= i < |rows| && KeyOf(rows[i], keyCols) == Some(k)
  }

  /** The distinct keys of the groups, in order of first appearance. */
  function Keys(rows: seq<Row>, keyCols: seq<ColumnName>): (keys: seq<seq<Value>>)
    ensures forall i, j :: 0 <= i < j < |keys| ==> keys[i] != keys[j]
    ensures forall k :: k in keys <==> HasKey(rows, keyCols, k)
  {
    if rows == [] then []
    else
      var init := rows[..|rows| - 1];
      var ks := Keys(init, keyCols);
      var last := KeyOf(rows[|rows| - 1], keyCols);
      HasKeySnoc(rows, keyCols);
      if last.Some? && last.value !in ks then ks + [last.value] else ks
  }

  lemma HasKeySnoc(rows: seq<Row>, keyCols: seq<ColumnName>)
    requires rows != []
    ensures forall k :: HasKey(rows, keyCols, k) <==>
      HasKey(rows[..|rows| - 1], keyCols, k) || KeyOf(rows[|rows| - 1], keyCols) == Some(k)
  {
  }

  /** The rows of the group with key `k`, in table order. */
  function Group(rows: seq<Row>, keyCols: seq<ColumnName>, k: seq<Value>): (g: seq<Row>)
    ensures |g| <= |rows|
    ensures forall r :: r in g <==> r in rows && KeyOf(r, keyCols) == Some(k)
    ensures forall r :: multiset(g)[r] == if KeyOf(r, keyCols) == Some(k) then multiset(rows)[r] else 0
  {
    if rows == [] then []
    else
      assert forall r :: r in rows <==> r == rows[0] || r in rows[1..];
      assert rows == [rows[0]] + rows[1..];
      (if KeyOf(rows[0], keyCols) == Some(k) then [rows[0]] else []) + Group(rows[1..], keyCols, k)
  }

  /** A group is non-empty exactly when some row has its key. */
  lemma GroupNonEmpty(rows: seq<Row>, keyCols: seq<ColumnName>, k: seq<Value>)
    ensures Group(rows, keyCols, k) != [] <==> HasKey(rows, keyCols, k)
  {
  }

  /** The first row of a group is the first row of the table with its key. */
  lemma {:induction false} GroupStartsAtFirst(rows: seq<Row>, keyCols: seq<ColumnName>, k: seq<Value>, f: nat)
    requires f < |rows| && KeyOf(rows[f], keyCols) == Some(k)
    requires forall i :: 0 <= i < f ==> KeyOf(rows[i], keyCols) != Some(k)
    ensures Group(rows, keyCols, k) != [] && Group(rows, keyCols, k)[0] == rows[f]
  {
    if f > 0 {
      GroupStartsAtFirst(rows[1..], keyCols, k, f - 1);
    }
  }
}
