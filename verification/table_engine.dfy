/** The state engine behind the BOM table (`useTable`): a case-insensitive
    search over all fields, a single-key sort whose direction toggles, a list
    of hidden columns, the visible columns derived from it, and a freeze index
    with -1 meaning "nothing frozen". */
module TableEngine {

  import opened Wrappers
  import opened Seqs
  import opened Strings
  import opened Cells

  datatype Direction = Asc | Desc

  datatype SortConfig = SortConfig(key: string, direction: Direction)

  // ----- search -----

  /** Some field of the row, rendered with `String` and lower-cased,
      contains the lower-cased term. */
  predicate RowMatches(row: Row, term: string) {
    exists k :: k in row && Contains(Lower(Text(Some(row[k]))), Lower(term))
  }

  /** The search filter: an empty term keeps every row (even a row without
      fields); otherwise exactly the matching rows are kept, in order and
      with their multiplicity. */
  function Search(rows: seq<Row>, term: string): (r: seq<Row>)
    ensures term == "" ==> r == rows
    ensures IsSubsequence(r, rows)
    ensures forall row :: row in r <==> row in rows && (term == "" || RowMatches(row, term))
  {
    if term == "" then
      SubsequenceRefl(rows);
      rows
    else Filter(rows, (row: Row) => RowMatches(row, term))
  }

  lemma {:induction false} SubsequenceRefl<T>(s: seq<T>)
    ensures IsSubsequence(s, s)
    decreases |s|
  {
    if s != [] {
      SubsequenceRefl(s[1..]);
    }
  }

  /** A non-empty search keeps every copy of a matching row and drops every
      copy of any other. */
  lemma SearchCount(rows: seq<Row>, term: string, row: Row)
    requires term != ""
    ensures multiset(Search(rows, term))[row] == if RowMatches(row, term) then multiset(rows)[row] else 0
  {
    FilterCount(rows, (x: Row) => RowMatches(x, term), row);
  }

  /** The search would not be the identity without the emptiness guard: the
      empty term occurs in every field, but a row with no field at all has
      nothing for it to occur in. */
  lemma EmptyRowNeedsGuard()
    ensures !RowMatches(map[], "")
    ensures Search([map[]], "") == [map[]]
  {
  }

  /** Lower-casing makes the search case-insensitive: a term and its
      upper-case variant select the same rows. */
  lemma SearchIgnoresCase(rows: seq<Row>, term: string, other: string)
    requires term != "" && other != "" && Lower(term) == Lower(other)
    ensures Search(rows, term) == Search(rows, other)
  {
    assert forall row :: RowMatches(row, term) == RowMatches(row, other);
    FilterExt(rows, (row: Row) => RowMatches(row, term), (row: Row) => RowMatches(row, other));
  }

  lemma {:induction false} FilterExt<T(!new)>(s: seq<T>, p: T -> bool, q: T -> bool)
    requires forall x :: p(x) == q(x)
    ensures Filter(s, p) == Filter(s, q)
    decreases |s|
  {
    if s != [] {
      FilterExt(s[1..], p, q);
    }
  }

  // ----- sort -----

  /** The comparator: numeric difference when both values are numbers,
      otherwise -1 / 1 / 0 from the lower-cased `String` forms; negated for
      a descending sort. A result <= 0 keeps `a` before `b`. */
  function Compare(cfg: SortConfig, a: Row, b: Row): real {
    var av := Get(a, cfg.key);
    var bv := Get(b, cfg.key);
    if IsNumber(av) && IsNumber(bv) then
      if cfg.direction == Asc then av.value.n - bv.value.n else bv.value.n - av.value.n
    else
      var x := Lower(Text(av));
      var y := Lower(Text(bv));
      if Less(x, y) then (if cfg.direction == Asc then -1.0 else 1.0)
      else if Less(y, x) then (if cfg.direction == Asc then 1.0 else -1.0)
      else 0.0
  }

  /** Descending order compares every pair the other way round. */
  lemma DescReverses(key: string, a: Row, b: Row)
    ensures Compare(SortConfig(key, Desc), a, b) == -Compare(SortConfig(key, Asc), a, b)
  {
  }

  /** Any two rows compare one way or the other. */
  lemma CompareTotal(cfg: SortConfig, a: Row, b: Row)
    ensures Compare(cfg, a, b) <= 0.0 || Compare(cfg, b, a) <= 0.0
  {
    var x := Lower(Text(Get(a, cfg.key)));
    var y := Lower(Text(Get(b, cfg.key)));
    LessAsymmetric2(x, y);
  }

  lemma LessAsymmetric2(x: string, y: string)
    ensures !(Less(x, y) && Less(y, x))
  {
    if Less(x, y) {
      LessAsymmetric(x, y);
    }
  }

  /** Every row of the column holds a number, or none does. */
  predicate Homogeneous(cfg: SortConfig, rows: seq<Row>) {
    || (forall row :: row in rows ==> IsNumber(Get(row, cfg.key)))
    || (forall row :: row in rows ==> !IsNumber(Get(row, cfg.key)))
  }

  /** On a homogeneous column the comparator is transitive. */
  lemma CompareTransitive(cfg: SortConfig, a: Row, b: Row, c: Row)
    requires Homogeneous(cfg, [a, b, c])
    requires Compare(cfg, a, b) <= 0.0 && Compare(cfg, b, c) <= 0.0
    ensures Compare(cfg, a, c) <= 0.0
  {
    assert a in [a, b, c] && b in [a, b, c] && c in [a, b, c];
    if !IsNumber(Get(a, cfg.key)) {
      assert !IsNumber(Get(b, cfg.key)) && !IsNumber(Get(c, cfg.key));
      var x := Lower(Text(Get(a, cfg.key)));
      var y := Lower(Text(Get(b, cfg.key)));
      var z := Lower(Text(Get(c, cfg.key)));
      LessAsymmetric2(x, y);
      LessAsymmetric2(y, z);
      LessAsymmetric2(x, z);
      if cfg.direction == Asc {
        assert !Less(y, x) && !Less(z, y);
        NotLessTransitive(x, y, z);
      } else {
        assert !Less(x, y) && !Less(y, z);
        NotLessTransitive(z, y, x);
      }
    }
  }

  /** `!(y < x)` and `!(z < y)` give `!(z < x)`. */
  lemma NotLessTransitive(x: string, y: string, z: string)
    requires !Less(y, x) && !Less(z, y)
    ensures !Less(z, x)
  {
    LessTotal(x, y);
    LessTotal(y, z);
    if x != y && y != z {
      LessTransitive(x, y, z);
      LessAsymmetric(x, z);
    } else if x != y {
      LessAsymmetric(x, y);
    } else if y != z {
      LessAsymmetric(y, z);
    } else {
      LessIrreflexive(x);
    }
  }

  /** On a column mixing numbers and strings the comparator is not an order:
      9 < 10 as numbers, "10" < "5" and "5" < "9" as strings. */
  lemma MixedColumnCycle()
    ensures var nine := map["k" := Num(9.0, "9")];
            var ten := map["k" := Num(10.0, "10")];
            var five := map["k" := Str("5")];
            var cfg := SortConfig("k", Asc);
            && Compare(cfg, nine, ten) < 0.0
            && Compare(cfg, ten, five) < 0.0
            && Compare(cfg, five, nine) < 0.0
  {
    var ten := map["k" := Num(10.0, "10")];
    var five := map["k" := Str("5")];
    var nine := map["k" := Num(9.0, "9")];
    assert Get(ten, "k") == Some(Num(10.0, "10"));
    assert Get(five, "k") == Some(Str("5"));
    assert Get(nine, "k") == Some(Num(9.0, "9"));
    assert Lower("10") == "10" && Lower("5") == "5" && Lower("9") == "9";
    assert Less("10", "5") && !Less("5", "10");
    assert Less("5", "9") && !Less("9", "5");
  }

  /** Inserts `x` into `sorted`, after every element that does not compare
      greater than it (so equal elements keep their arrival order). */
  function Insert(cfg: SortConfig, sorted: seq<Row>, x: Row): (r: seq<Row>)
    ensures multiset(r) == multiset(sorted) + multiset{x}
    decreases |sorted|
  {
    if sorted == [] then [x]
    else
      var init, last := sorted[..|sorted| - 1], sorted[|sorted| - 1];
      assert sorted == init + [last];
      if Compare(cfg, last, x) > 0.0 then Insert(cfg, init, x) + [last]
      else sorted + [x]
  }

  /** `items.sort(comparator)`, by insertion: the result is a
      rearrangement of the input. */
  function SortRows(cfg: SortConfig, rows: seq<Row>): (r: seq<Row>)
    ensures multiset(r) == multiset(rows)
    ensures |r| == |rows|
    decreases |rows|
  {
    if rows == [] then []
    else
      var init, x := rows[..|rows| - 1], rows[|rows| - 1];
      assert rows == init + [x];
      assert multiset(rows) == multiset(init) + multiset{x};
      Insert(cfg, SortRows(cfg, init), x)
  }

  /** Every earlier row compares at most equal to every later one. */
  predicate Sorted(cfg: SortConfig, rows: seq<Row>) {
    forall i, j :: 0 <= i < j < |rows| ==> Compare(cfg, rows[i], rows[j]) <= 0.0
  }

  lemma {:induction false} InsertSorted(cfg: SortConfig, sorted: seq<Row>, x: Row, all: seq<Row>)
    requires Homogeneous(cfg, all)
    requires x in all && forall y :: y in sorted ==> y in all
    requires Sorted(cfg, sorted)
    ensures Sorted(cfg, Insert(cfg, sorted, x))
    decreases |sorted|, 1
  {
    if sorted != [] {
      if Compare(cfg, sorted[|sorted| - 1], x) > 0.0 {
        InsertBefore(cfg, sorted, x, all);
      } else {
        InsertAfter(cfg, sorted, x, all);
      }
    }
  }

  /** `x` goes somewhere before the last element. */
  lemma {:induction false} InsertBefore(cfg: SortConfig, sorted: seq<Row>, x: Row, all: seq<Row>)
    requires Homogeneous(cfg, all)
    requires x in all && forall y :: y in sorted ==> y in all
    requires Sorted(cfg, sorted)
    requires sorted != [] && Compare(cfg, sorted[|sorted| - 1], x) > 0.0
    ensures Sorted(cfg, Insert(cfg, sorted, x))
    decreases |sorted|, 0
  {
    var init, last := sorted[..|sorted| - 1], sorted[|sorted| - 1];
    assert sorted == init + [last];
    CompareTotal(cfg, last, x);
    assert forall y :: y in init ==> y in sorted;
    InsertSorted(cfg, init, x, all);
    SortedLastBound(cfg, init, last);
    InsertStaysBelow(cfg, init, x, last);
    SortedSnoc(cfg, Insert(cfg, init, x), last);
    assert Insert(cfg, sorted, x) == Insert(cfg, init, x) + [last];
  }

  /** In a sorted sequence every element before the last compares at most
      equal to it. */
  lemma SortedLastBound(cfg: SortConfig, init: seq<Row>, last: Row)
    requires Sorted(cfg, init + [last])
    ensures forall y :: y in init ==> Compare(cfg, y, last) <= 0.0
  {
    var sorted := init + [last];
    forall y | y in init
      ensures Compare(cfg, y, last) <= 0.0
    {
      var k :| 0 <= k < |init| && init[k] == y;
      assert sorted[k] == y && sorted[|init|] == last;
    }
  }

  /** Every element of `Insert(init, x)` is one of `init` or `x`. */
  lemma InsertStaysBelow(cfg: SortConfig, init: seq<Row>, x: Row, last: Row)
    requires forall y :: y in init ==> Compare(cfg, y, last) <= 0.0
    requires Compare(cfg, x, last) <= 0.0
    ensures forall y :: y in Insert(cfg, init, x) ==> Compare(cfg, y, last) <= 0.0
  {
    var s := Insert(cfg, init, x);
    forall y | y in s
      ensures Compare(cfg, y, last) <= 0.0
    {
      assert y in multiset(s);
      if y != x {
        assert y in multiset(init);
      }
    }
  }

  /** Appending an element no smaller than all others keeps a sequence sorted. */
  lemma SortedSnoc(cfg: SortConfig, s: seq<Row>, last: Row)
    requires Sorted(cfg, s)
    requires forall y :: y in s ==> Compare(cfg, y, last) <= 0.0
    ensures Sorted(cfg, s + [last])
  {
    var r := s + [last];
    forall i, j | 0 <= i < j < |r|
      ensures Compare(cfg, r[i], r[j]) <= 0.0
    {
      assert r[i] == s[i];
      if j < |s| {
        assert r[j] == s[j];
      } else {
        assert r[j] == last && s[i] in s;
      }
    }
  }

  /** `x` goes at the end. */
  lemma InsertAfter(cfg: SortConfig, sorted: seq<Row>, x: Row, all: seq<Row>)
    requires Homogeneous(cfg, all)
    requires x in all && forall y :: y in sorted ==> y in all
    requires Sorted(cfg, sorted)
    requires sorted != [] && Compare(cfg, sorted[|sorted| - 1], x) <= 0.0
    ensures Sorted(cfg, Insert(cfg, sorted, x))
  {
    var last := sorted[|sorted| - 1];
    forall y | y in sorted
      ensures Compare(cfg, y, x) <= 0.0
    {
      var i :| 0 <= i < |sorted| && sorted[i] == y;
      if i < |sorted| - 1 {
        assert sorted[i] in all && last in all;
        assert Homogeneous(cfg, [sorted[i], last, x]);
        CompareTransitive(cfg, sorted[i], last, x);
      }
    }
    SortedSnoc(cfg, sorted, x);
  }

  /** On a homogeneous column the sort orders the rows by the comparator. */
  lemma {:induction false} SortRowsSorted(cfg: SortConfig, rows: seq<Row>)
    requires Homogeneous(cfg, rows)
    ensures Sorted(cfg, SortRows(cfg, rows))
    decreases |rows|
  {
    if rows != [] {
      var init := rows[..|rows| - 1];
      var s := SortRows(cfg, init);
      assert forall y :: y in init ==> y in rows;
      SortRowsSorted(cfg, init);
      forall y | y in s
        ensures y in rows
      {
        assert y in multiset(s);
      }
      InsertSorted(cfg, s, rows[|rows| - 1], rows);
    }
  }

  /** `filteredAndSortedData`: the search, then the sort when one is set. */
  function View(sort: Option<SortConfig>, search: string, rows: seq<Row>): (r: seq<Row>)
    ensures multiset(r) == multiset(Search(rows, search))
    ensures sort.None? ==> r == Search(rows, search)
  {
    var f := Search(rows, search);
    if sort.None? then f else SortRows(sort.value, f)
  }

  /** The rows shown are the matching rows, each as often as in the input,
      and, on a homogeneous sort column, in comparator order. */
  lemma ViewContents(sort: Option<SortConfig>, search: string, rows: seq<Row>)
    ensures forall row :: row in View(sort, search, rows)
                          <==> row in rows && (search == "" || RowMatches(row, search))
    ensures sort.Some? && Homogeneous(sort.value, rows) ==> Sorted(sort.value, View(sort, search, rows))
  {
    var f := Search(rows, search);
    var v := View(sort, search, rows);
    forall row
      ensures row in v <==> row in f
    {
      assert row in v <==> row in multiset(v);
    }
    if sort.Some? && Homogeneous(sort.value, rows) {
      assert Homogeneous(sort.value, f);
      SortRowsSorted(sort.value, f);
    }
  }

  // ----- requestSort -----

  /** `requestSort(key)`: the key becomes `key`; the direction is descending
      exactly when `key` was already the ascending sort key. */
  function RequestSort(current: Option<SortConfig>, key: string): (r: SortConfig)
    ensures r.key == key
    ensures r.direction == Desc <==> current == Some(SortConfig(key, Asc))
  {
    SortConfig(key, if current == Some(SortConfig(key, Asc)) then Desc else Asc)
  }

  /** Clicking the same header again always flips the direction, so three
      clicks end where one did; a newly chosen key always starts ascending. */
  lemma RequestSortCycle(current: Option<SortConfig>, key: string)
    ensures RequestSort(Some(RequestSort(current, key)), key).direction != RequestSort(current, key).direction
    ensures RequestSort(Some(RequestSort(Some(RequestSort(current, key)), key)), key) == RequestSort(current, key)
    ensures current.Some? && current.value.key != key ==> RequestSort(current, key).direction == Asc
  {
  }

  // ----- hidden and visible columns -----

  /** `toggleColumn(col)`: a hidden column is shown again (every copy is
      removed), any other is appended to the hidden list. */
  function ToggleColumn(hidden: seq<string>, col: string): (r: seq<string>)
    ensures col in r <==> col !in hidden
    ensures forall c :: c != col ==> (c in r <==> c in hidden)
    ensures Distinct(hidden) ==> Distinct(r)
  {
    if col in hidden then
      FilterDistinct(hidden, (c: string) => c != col);
      Filter(hidden, (c: string) => c != col)
    else
      var r := hidden + [col];
      assert forall i :: 0 <= i < |hidden| ==> r[i] == hidden[i];
      r
  }

  /** Toggling twice restores which columns are hidden; when the column was
      visible it restores the very list. */
  lemma ToggleTwice(hidden: seq<string>, col: string)
    ensures forall c :: c in ToggleColumn(ToggleColumn(hidden, col), col) <==> c in hidden
    ensures col !in hidden ==> ToggleColumn(ToggleColumn(hidden, col), col) == hidden
  {
    if col !in hidden {
      FilterKeepsAll(hidden, col);
      assert (hidden + [col])[..|hidden|] == hidden;
    }
  }

  /** Removing a value that is only at the end gives the rest back. */
  lemma {:induction false} FilterKeepsAll(s: seq<string>, col: string)
    requires col !in s
    ensures Filter(s + [col], (c: string) => c != col) == s
    decreases |s|
  {
    if s == [] {
      assert Filter([col], (c: string) => c != col) == Filter([], (c: string) => c != col);
    } else {
      assert (s + [col])[1..] == s[1..] + [col];
      FilterKeepsAll(s[1..], col);
      assert s == [s[0]] + s[1..];
    }
  }

  /** `visibleColumns`: the columns not hidden, in column order. */
  function VisibleColumns(columns: seq<string>, hidden: seq<string>): (r: seq<string>)
    ensures IsSubsequence(r, columns)
    ensures forall c :: c in r <==> c in columns && c !in hidden
    ensures Distinct(columns) ==> Distinct(r)
  {
    var r := Filter(columns, (c: string) => c !in hidden);
    FilterDistinct(columns, (c: string) => c !in hidden);
    r
  }

  lemma {:induction false} FilterDistinct<T(!new)>(s: seq<T>, p: T -> bool)
    ensures Distinct(s) ==> Distinct(Filter(s, p))
    decreases |s|
  {
    if s != [] && Distinct(s) {
      FilterDistinct(s[1..], p);
      var rest := Filter(s[1..], p);
      assert forall k :: 0 <= k < |s[1..]| ==> s[1..][k] == s[k + 1] && s[k + 1] != s[0];
      assert s[0] !in rest;
      if p(s[0]) {
        var r := [s[0]] + rest;
        forall i, j | 0 <= i < j < |r|
          ensures r[i] != r[j]
        {
          if i == 0 {
            assert r[j] == rest[j - 1];
          } else {
            assert r[i] == rest[i - 1] && r[j] == rest[j - 1];
          }
        }
      }
    }
  }

  /** Toggling a column flips its own visibility and no other column's. */
  lemma ToggleFlipsVisibility(columns: seq<string>, hidden: seq<string>, col: string, c: string)
    requires c in columns
    ensures c in VisibleColumns(columns, ToggleColumn(hidden, col))
         <==> if c == col then c !in VisibleColumns(columns, hidden) else c in VisibleColumns(columns, hidden)
  {
  }

  // ----- freezing -----

  /** `handleFreeze(col)`: freeze up to the column's index, or release when
      the freeze already stands exactly there; an unknown column gives -1. */
  function HandleFreeze(columns: seq<string>, frozenUntil: int, col: string): (r: int)
    ensures r == -1 <==> col !in columns || frozenUntil == IndexOf(columns, col)
    ensures r != -1 ==> 0 <= r < |columns| && columns[r] == col && r != frozenUntil
    ensures forall k :: 0 <= k < r ==> columns[k] != col
    ensures -1 <= r < |columns|
  {
    var i := IndexOf(columns, col);
    if frozenUntil == i then -1 else i
  }

  /** Two clicks on the same known column release the freeze when the first
      click froze, and freeze again when the first click released it. */
  lemma FreezeTwice(columns: seq<string>, frozenUntil: int, col: string)
    requires col in columns
    ensures var once := HandleFreeze(columns, frozenUntil, col);
            var twice := HandleFreeze(columns, once, col);
            if once == -1 then twice == IndexOf(columns, col) else twice == -1
  {
  }
}
