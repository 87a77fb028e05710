/** The three Python string operations the summary relies on:
    `str.startswith`, `str.replace(p, '')` and the code-point order that
    `sorted` uses on a list of strings. */
module PyStrings {

  predicate StartsWith(s: string, p: string) {
    |p| <= |s| && s[..|p|] == p
  }

  /** `p` occurs somewhere in `s`. */
  predicate Contains(s: string, p: string) {
    exists i :: 0 <= i <= |s| && StartsWith(s[i..], p)
  }

  /** `s.replace(p, '')`: scanning left to right, every occurrence of `p`
      is deleted and the scan resumes after it, so occurrences do not
      overlap and the text left behind is not scanned again. */
  function DeleteAll(s: string, p: string): (r: string)
    requires p != []
    ensures |r| <= |s|
    decreases |s|
  {
    if s == [] then []
    else if StartsWith(s, p) then DeleteAll(s[|p|..], p)
    else [s[0]] + DeleteAll(s[1..], p)
  }

  lemma ContainsTail(s: string, p: string)
    requires s != [] && !StartsWith(s, p)
    ensures Contains(s, p) <==> Contains(s[1..], p)
  {
    if Contains(s, p) {
      var i :| 0 <= i <= |s| && StartsWith(s[i..], p);
      assert i != 0;
      assert s[1..][i - 1..] == s[i..];
    }
    if Contains(s[1..], p) {
      var i :| 0 <= i <= |s[1..]| && StartsWith(s[1..][i..], p);
      assert s[1..][i..] == s[i + 1..];
    }
  }

  /** Deleting a pattern that does not occur leaves the string unchanged. */
  lemma {:induction false} DeleteAllAbsent(s: string, p: string)
    requires p != [] && !Contains(s, p)
    ensures DeleteAll(s, p) == s
    decreases |s|
  {
    if s != [] {
      assert !StartsWith(s, p) by { assert s[0..] == s; }
      ContainsTail(s, p);
      DeleteAllAbsent(s[1..], p);
    }
  }

  /** Deleting a pattern that does occur removes at least one copy of it. */
  lemma {:induction false} DeleteAllPresent(s: string, p: string)
    requires p != [] && Contains(s, p)
    ensures |DeleteAll(s, p)| <= |s| - |p|
    decreases |s|
  {
    if StartsWith(s, p) {
    } else {
      assert s != [] by {
        var i :| 0 <= i <= |s| && StartsWith(s[i..], p);
      }
      ContainsTail(s, p);
      DeleteAllPresent(s[1..], p);
    }
  }

  /** The scan deletes the leftmost occurrence and resumes right after
      it: the text before it is kept, and the rest is treated the same
      way. With `DeleteAllAbsent` this fixes the result on every string. */
  lemma {:induction false} DeleteAllLeftmost(s: string, p: string, i: nat)
    requires p != [] && i <= |s| && StartsWith(s[i..], p)
    requires forall j :: 0 <= j < i ==> !StartsWith(s[j..], p)
    ensures DeleteAll(s, p) == s[..i] + DeleteAll(s[i + |p|..], p)
    decreases i
  {
    if i == 0 {
      assert s[0..] == s;
    } else {
      assert s[0..] == s;
      assert !StartsWith(s, p);
      forall j | 0 <= j < i - 1 ensures !StartsWith(s[1..][j..], p) {
        assert s[1..][j..] == s[j + 1..];
      }
      assert s[1..][i - 1..] == s[i..];
      DeleteAllLeftmost(s[1..], p, i - 1);
      assert s[1..][i - 1 + |p|..] == s[i + |p|..];
      assert s[..i] == [s[0]] + s[1..][..i - 1];
    }
  }

  /** A name made of the pattern followed by text free of it loses exactly
      the leading pattern. */
  lemma DeleteAllPrefix(p: string, t: string)
    requires p != [] && !Contains(t, p)
    ensures DeleteAll(p + t, p) == t
  {
    assert StartsWith(p + t, p);
    assert (p + t)[|p|..] == t;
    DeleteAllAbsent(t, p);
  }

  // ---------------------------------------------------------------------
  // Ordering: Python compares strings code point by code point, and a
  // proper prefix sorts before the longer string.

  predicate LessEq(a: string, b: string)
    decreases |a|
  {
    a == [] || (b != [] && (a[0] < b[0] || (a[0] == b[0] && LessEq(a[1..], b[1..]))))
  }

  lemma {:induction false} LessEqTotal(a: string, b: string)
    ensures LessEq(a, b) || LessEq(b, a)
    decreases |a|
  {
    if a != [] && b != [] && a[0] == b[0] {
      LessEqTotal(a[1..], b[1..]);
    }
  }

  lemma {:induction false} LessEqAntisymmetric(a: string, b: string)
    requires LessEq(a, b) && LessEq(b, a)
    ensures a == b
    decreases |a|
  {
    if a != [] {
      LessEqAntisymmetric(a[1..], b[1..]);
      assert a == [a[0]] + a[1..] && b == [b[0]] + b[1..];
    }
  }

  lemma {:induction false} LessEqTransitive(a: string, b: string, c: string)
    requires LessEq(a, b) && LessEq(b, c)
    ensures LessEq(a, c)
    decreases |a|
  {
    if a != [] && a[0] == b[0] && b[0] == c[0] {
      LessEqTransitive(a[1..], b[1..], c[1..]);
    }
  }

  // ---------------------------------------------------------------------
  // Sorting

  predicate Sorted(s: seq<string>) {
    forall i, j :: 0 <= i < j < |s| ==> LessEq(s[i], s[j])
  }

  /** Inserts `x` into a sorted list before the first element it does not
      exceed. */
  function Insert(x: string, s: seq<string>): (r: seq<string>)
    requires Sorted(s)
    ensures Sorted(r)
    ensures multiset(r) == multiset(s) + multiset{x}
  {
    if s == [] then [x]
    else if LessEq(x, s[0]) then
      InsertFrontSorted(x, s);
      [x] + s
    else
      LessEqTotal(x, s[0]);
      var rest := Insert(x, s[1..]);
      assert s == [s[0]] + s[1..];
      InsertConsSorted(s[0], x, s[1..], rest);
      [s[0]] + rest
  }

  lemma InsertFrontSorted(x: string, s: seq<string>)
    requires Sorted(s) && s != [] && LessEq(x, s[0])
    ensures Sorted([x] + s)
  {
    forall j | 0 < j < |s| ensures LessEq(x, s[j]) {
      LessEqTransitive(x, s[0], s[j]);
    }
  }

  lemma InsertConsSorted(h: string, x: string, t: seq<string>, rest: seq<string>)
    requires Sorted([h] + t) && LessEq(h, x)
    requires Sorted(rest) && multiset(rest) == multiset(t) + multiset{x}
    ensures Sorted([h] + rest)
  {
    forall j | 0 <= j < |rest| ensures LessEq(h, rest[j]) {
      assert rest[j] in multiset(rest);
      if rest[j] != x {
        assert rest[j] in multiset(t);
        var k :| 0 <= k < |t| && t[k] == rest[j];
        assert ([h] + t)[0] == h && ([h] + t)[k + 1] == t[k];
      }
    }
    forall i, j | 0 <= i < j < |[h] + rest| ensures LessEq(([h] + rest)[i], ([h] + rest)[j]) {
      if i > 0 {
        assert ([h] + rest)[i] == rest[i - 1] && ([h] + rest)[j] == rest[j - 1];
      } else {
        assert ([h] + rest)[j] == rest[j - 1];
      }
    }
  }

  lemma SortedTail(s: seq<string>)
    requires Sorted(s) && s != []
    ensures Sorted(s[1..])
  {
  }

  /** `sorted(names)`, as an insertion sort. */
  function SortNames(names: seq<string>): (r: seq<string>)
    ensures Sorted(r)
    ensures multiset(r) == multiset(names)
  {
    if names == [] then []
    else
      assert names == [names[0]] + names[1..];
      Insert(names[0], SortNames(names[1..]))
  }

  /** A sorted permutation is unique: whatever sorting algorithm Python
      runs, its result is the one `SortNames` gives. */
  lemma {:induction false} SortedPermutationUnique(a: seq<string>, b: seq<string>)
    requires Sorted(a) && Sorted(b) && multiset(a) == multiset(b)
    ensures a == b
    decreases |a|
  {
    assert |a| == |multiset(a)| == |multiset(b)| == |b|;
    if a != [] {
      SortedHeadsEqual(a, b);
      var x := a[0];
      assert a == [x] + a[1..] && b == [x] + b[1..];
      MultisetTail(a);
      MultisetTail(b);
      SortedTail(a);
      SortedTail(b);
      SortedPermutationUnique(a[1..], b[1..]);
    }
  }

  lemma SortedHeadsEqual(a: seq<string>, b: seq<string>)
    requires Sorted(a) && Sorted(b) && multiset(a) == multiset(b) && a != [] && b != []
    ensures a[0] == b[0]
  {
    assert a[0] in multiset(b);
    var j :| 0 <= j < |b| && b[j] == a[0];
    assert b[0] in multiset(a);
    var i :| 0 <= i < |a| && a[i] == b[0];
    if j > 0 && i > 0 {
      assert LessEq(a[0], a[i]);
      assert LessEq(b[0], b[j]);
      LessEqAntisymmetric(a[0], b[0]);
    }
  }

  lemma MultisetTail(s: seq<string>)
    requires s != []
    ensures multiset(s[1..]) == multiset(s) - multiset{s[0]}
  {
    assert s == [s[0]] + s[1..];
  }
}
