/** The helpers the table component contributes on top of the grid library:
    the case-insensitive "starts with" `text` filter, filter auto-removal,
    the option list of the select filter, the min/max scan of the slider and
    number-range filters, the number-range bound edits, the `roundedMedian`
    aggregator and the "go to page" index conversion. */
module ReactTable {
  import opened Values

  // ---------------------------------------------------------------------------
  // The `text` filter type
  // ---------------------------------------------------------------------------

  /** The row predicate of the `text` filter: a row whose cell is `undefined`
      is kept; any other row is kept when its lower-cased string form starts
      with the lower-cased string form of the filter value. */
  function TextKeeps(row: TableRow, id: string, filterValue: Value): (keep: bool)
    ensures var f, c := ToStr(filterValue), ToStr(Cell(row.values, id));
            keep <==> Cell(row.values, id) == Undefined
                      || (|f| <= |c| && forall i :: 0 <= i < |f| ==> LowerChar(f[i]) == LowerChar(c[i]))
  {
    var v := Cell(row.values, id);
    v != Undefined ==> Lower(ToStr(filterValue)) <= Lower(ToStr(v))
  }

  /** `filterTypes.text`: `rows.filter(...)` with the predicate above. */
  function TextFilter(rows: seq<TableRow>, id: string, filterValue: Value): (kept: seq<TableRow>)
    ensures |kept| <= |rows|
    ensures forall row :: row in kept <==> row in rows && TextKeeps(row, id, filterValue)
  {
    if rows == [] then []
    else
      (if TextKeeps(rows[0], id, filterValue) then [rows[0]] else [])
      + TextFilter(rows[1..], id, filterValue)
  }

  /** The filter works row by row and keeps the relative order of the rows:
      filtering a concatenation is concatenating the filtered parts. */
  lemma {:induction false} TextFilterAppend(a: seq<TableRow>, b: seq<TableRow>, id: string, filterValue: Value)
    ensures TextFilter(a + b, id, filterValue) == TextFilter(a, id, filterValue) + TextFilter(b, id, filterValue)
  {
    if a == [] {
      assert a + b == b;
    } else {
      var head := if TextKeeps(a[0], id, filterValue) then [a[0]] else [];
      ConcatSplitsHead(a, b);
      TextFilterAppend(a[1..], b, id, filterValue);
      ConcatAssociative(head, TextFilter(a[1..], id, filterValue), TextFilter(b, id, filterValue));
    }
  }

  /** The head and tail of a concatenation whose left part is not empty. */
  lemma ConcatSplitsHead<T>(a: seq<T>, b: seq<T>)
    requires a != []
    ensures (a + b)[0] == a[0] && (a + b)[1..] == a[1..] + b
  {
  }

  /** The head and tail of a sequence built by prepending one element. */
  lemma ConsSplits<T>(x: T, s: seq<T>)
    ensures ([x] + s)[0] == x && ([x] + s)[1..] == s
  {
  }

  lemma EmptyConcat<T>(s: seq<T>)
    ensures [] + s == s
  {
  }

  lemma ConcatAssociative<T>(x: seq<T>, y: seq<T>, z: seq<T>)
    ensures (x + y) + z == x + (y + z)
  {
  }

  /** Every kept row is kept as many times as it occurs; every other row is dropped. */
  lemma {:induction false} TextFilterMultiplicity(rows: seq<TableRow>, id: string, filterValue: Value, row: TableRow)
    ensures multiset(TextFilter(rows, id, filterValue))[row]
            == if TextKeeps(row, id, filterValue) then multiset(rows)[row] else 0
  {
    if rows != [] {
      assert rows == [rows[0]] + rows[1..];
      TextFilterMultiplicity(rows[1..], id, filterValue, row);
    }
  }

  /** Filtering twice with the same value is filtering once. */
  lemma {:induction false} TextFilterIdempotent(rows: seq<TableRow>, id: string, filterValue: Value)
    ensures TextFilter(TextFilter(rows, id, filterValue), id, filterValue) == TextFilter(rows, id, filterValue)
  {
    if rows != [] {
      var rest := TextFilter(rows[1..], id, filterValue);
      TextFilterIdempotent(rows[1..], id, filterValue);
      if TextKeeps(rows[0], id, filterValue) {
        ConsSplits(rows[0], rest);
      } else {
        EmptyConcat(rest);
      }
    }
  }

  /** An empty filter string keeps every row. */
  lemma {:induction false} TextFilterEmptyKeepsAll(rows: seq<TableRow>, id: string)
    ensures TextFilter(rows, id, Str("")) == rows
  {
    if rows != [] {
      assert Lower(ToStr(Str(""))) == [];
      TextFilterEmptyKeepsAll(rows[1..], id);
      assert [rows[0]] + rows[1..] == rows;
    }
  }

  /** A row the longer filter keeps is kept by the shorter one too. */
  lemma KeepsNarrows(row: TableRow, id: string, shorter: Value, longer: Value)
    requires Lower(ToStr(shorter)) <= Lower(ToStr(longer))
    requires TextKeeps(row, id, longer)
    ensures TextKeeps(row, id, shorter)
  {
    var cell := Cell(row.values, id);
    if cell != Undefined {
      PrefixTransitive(Lower(ToStr(shorter)), Lower(ToStr(longer)), Lower(ToStr(cell)));
    }
  }

  lemma PrefixTransitive(a: string, b: string, c: string)
    requires a <= b && b <= c
    ensures a <= c
  {
    assert a == b[..|a|] && b == c[..|b|];
  }

  /** A filter whose lower-cased form extends that of another keeps a
      sub-sequence of what the shorter one keeps: filtering by the longer one
      is the same as first filtering by the shorter one. */
  lemma {:induction false} TextFilterNarrows(rows: seq<TableRow>, id: string, shorter: Value, longer: Value)
    requires Lower(ToStr(shorter)) <= Lower(ToStr(longer))
    ensures TextFilter(rows, id, longer) == TextFilter(TextFilter(rows, id, shorter), id, longer)
  {
    if rows != [] {
      var rest := TextFilter(rows[1..], id, shorter);
      TextFilterNarrows(rows[1..], id, shorter, longer);
      if TextKeeps(rows[0], id, shorter) {
        ConsSplits(rows[0], rest);
      } else {
        if TextKeeps(rows[0], id, longer) {
          KeepsNarrows(rows[0], id, shorter, longer);
        }
        EmptyConcat(rest);
      }
    }
  }

  /** Filtering never adds rows: the result is a sub-multiset of the input. */
  lemma TextFilterShrinks(rows: seq<TableRow>, id: string, filterValue: Value)
    ensures multiset(TextFilter(rows, id, filterValue)) <= multiset(rows)
  {
    forall row
      ensures multiset(TextFilter(rows, id, filterValue))[row] <= multiset(rows)[row]
    {
      TextFilterMultiplicity(rows, id, filterValue, row);
    }
  }

  /** Typing more characters into a text box never brings rows back. */
  lemma TextFilterExtendedString(rows: seq<TableRow>, id: string, typed: string, more: string)
    ensures multiset(TextFilter(rows, id, Str(typed + more))) <= multiset(TextFilter(rows, id, Str(typed)))
  {
    LowerKeepsPrefix(typed, typed + more);
    TextFilterNarrows(rows, id, Str(typed), Str(typed + more));
    TextFilterShrinks(TextFilter(rows, id, Str(typed)), id, Str(typed + more));
  }

  // ---------------------------------------------------------------------------
  // Filter removal
  // ---------------------------------------------------------------------------

  /** `fuzzyTextFilterFn.autoRemove = val => !val`: the library drops the
      filter when this holds. */
  function FuzzyAutoRemove(filterValue: Value): (remove: bool)
    ensures remove <==> filterValue in FalsyValues
  {
    !Truthy(filterValue)
  }

  /** `setFilter(e.target.value || undefined)` in the global, default and
      select filter inputs: the text of the input box, with the empty string
      turned into `undefined`. */
  function FilterFromInput(input: string): (filterValue: Value)
    ensures filterValue == Undefined <==> input == ""
    ensures input != "" ==> filterValue == Str(input)
  {
    Or(Str(input), Undefined)
  }

  /** Under the fuzzy filter's `autoRemove` rule, a filter value taken from an
      input box is removed exactly when the box is empty. */
  lemma FilterFromInputRemoved(input: string)
    ensures FuzzyAutoRemove(FilterFromInput(input)) <==> input == ""
  {
  }

  // ---------------------------------------------------------------------------
  // Select filter options
  // ---------------------------------------------------------------------------

  /** The cells of one column, in row order. */
  function ColumnValues(rows: seq<TableRow>, id: string): (col: seq<Value>)
    ensures |col| == |rows|
  {
    seq(|rows|, i requires 0 <= i < |rows| => Cell(rows[i].values, id))
  }

  predicate NoDuplicates(s: seq<Value>)
  {
    forall i, j :: 0 <= i < j < |s| ==> s[i] != s[j]
  }

  /** The position of the first occurrence of `x` in `s`. */
  function FirstIndex(s: seq<Value>, x: Value): (k: nat)
    requires x in s
    ensures k < |s| && s[k] == x
    ensures forall j :: 0 <= j < k ==> s[j] != x
  {
    if s[0] == x then 0 else 1 + FirstIndex(s[1..], x)
  }

  /** `options` lists the distinct values of `s` in order of first appearance. */
  predicate FirstSeenOrder(s: seq<Value>, options: seq<Value>)
    requires forall x :: x in options ==> x in s
  {
    forall i, j :: 0 <= i < j < |options| ==> FirstIndex(s, options[i]) < FirstIndex(s, options[j])
  }

  /** What adding the values of `s` one by one to an initially empty,
      insertion-ordered JavaScript `Set` and spreading it gives. */
  function Distinct(s: seq<Value>): (d: seq<Value>)
    ensures forall x :: x in d <==> x in s
    ensures NoDuplicates(d)
  {
    if s == [] then []
    else
      var d := Distinct(s[..|s| - 1]);
      if s[|s| - 1] in d then d else d + [s[|s| - 1]]
  }

  /** Appending a value does not move the first occurrence of one already present. */
  lemma FirstIndexAppend(s: seq<Value>, x: Value, y: Value)
    requires y in s
    ensures FirstIndex(s + [x], y) == FirstIndex(s, y)
  {
    var k := FirstIndex(s, y);
    var k' := FirstIndex(s + [x], y);
    assert (s + [x])[k] == y;
    assert k' <= k;
    assert s[k'] == (s + [x])[k'];
  }

  /** The distinct values come in order of first appearance. */
  lemma {:induction false} DistinctFirstSeen(s: seq<Value>)
    ensures FirstSeenOrder(s, Distinct(s))
  {
    if s != [] {
      var p, x := s[..|s| - 1], s[|s| - 1];
      assert s == p + [x];
      var d := Distinct(p);
      DistinctFirstSeen(p);
      forall y | y in d
        ensures FirstIndex(s, y) == FirstIndex(p, y) < |p|
      {
        FirstIndexAppend(p, x, y);
      }
      if x !in d {
        assert FirstIndex(s, x) == |p| by {
          assert s[|p|] == x;
          assert forall j :: 0 <= j < |p| ==> s[j] == p[j];
        }
        var e := d + [x];
        forall i, j | 0 <= i < j < |e|
          ensures FirstIndex(s, e[i]) < FirstIndex(s, e[j])
        {
          assert e[i] == d[i];
          if j < |d| {
            assert e[j] == d[j];
          }
        }
      }
    }
  }

  /** The option list of `SelectColumnFilter`: every row's value of the column
      is added to a `Set`, whose values are then spread into an array. */
  method SelectOptions(rows: seq<TableRow>, id: string) returns (options: seq<Value>)
    ensures options == Distinct(ColumnValues(rows, id))
    ensures forall v :: v in options <==> v in ColumnValues(rows, id)
    ensures NoDuplicates(options)
    ensures FirstSeenOrder(ColumnValues(rows, id), options)
  {
    ghost var col := ColumnValues(rows, id);
    options := [];
    for i := 0 to |rows|
      invariant options == Distinct(col[..i])
    {
      var v := Cell(rows[i].values, id);
      assert col[..i + 1][..i] == col[..i];
      if v !in options {
        options := options + [v];
      }
    }
    assert col[..|rows|] == col;
    DistinctFirstSeen(col);
  }

  // ---------------------------------------------------------------------------
  // Min/max scan of the slider and number-range filters
  // ---------------------------------------------------------------------------

  /** The least element of a non-empty sequence. */
  function Least(s: seq<int>): (m: int)
    requires |s| > 0
    ensures m in s
    ensures forall v :: v in s ==> m <= v
  {
    if |s| == 1 then s[0]
    else
      assert s == [s[0]] + s[1..];
      var t := Least(s[1..]);
      if s[0] <= t then s[0] else t
  }

  /** The greatest element of a non-empty sequence. */
  function Greatest(s: seq<int>): (m: int)
    requires |s| > 0
    ensures m in s
    ensures forall v :: v in s ==> v <= m
  {
    if |s| == 1 then s[0]
    else
      assert s == [s[0]] + s[1..];
      var t := Greatest(s[1..]);
      if s[0] >= t then s[0] else t
  }

  /** `Math.min` on two numbers: one of them, and no greater than either. */
  function Min(a: int, b: int): (m: int)
    ensures m <= a && m <= b
    ensures m == a || m == b
  {
    if a <= b then a else b
  }

  /** `Math.max` on two numbers: one of them, and no less than either. */
  function Max(a: int, b: int): (m: int)
    ensures m >= a && m >= b
    ensures m == a || m == b
  {
    if a >= b then a else b
  }

  predicate AllNumeric(rows: seq<TableRow>, id: string)
  {
    forall i :: 0 <= i < |rows| ==> Cell(rows[i].values, id).Num?
  }

  /** The numeric cells of one column, in row order. */
  function NumColumn(rows: seq<TableRow>, id: string): (col: seq<int>)
    requires AllNumeric(rows, id)
    ensures |col| == |rows|
    ensures forall i :: 0 <= i < |rows| ==> Cell(rows[i].values, id) == Num(col[i])
  {
    seq(|rows|, i requires 0 <= i < |rows| && Cell(rows[i].values, id).Num? => Cell(rows[i].values, id).n)
  }

  /** The `[min, max]` pair computed by `SliderColumnFilter` and, with the
      same code, by `NumberRangeColumnFilter`: start from the first row's value
      (or 0 when there are no rows) and widen over every row. */
  method ColumnRange(rows: seq<TableRow>, id: string) returns (lo: int, hi: int)
    requires AllNumeric(rows, id)
    ensures |rows| == 0 ==> lo == 0 && hi == 0
    ensures |rows| > 0 ==> lo in NumColumn(rows, id) && hi in NumColumn(rows, id)
    ensures forall v :: v in NumColumn(rows, id) ==> lo <= v <= hi
    ensures |rows| > 0 ==> lo == Least(NumColumn(rows, id)) && hi == Greatest(NumColumn(rows, id))
  {
    ghost var col := NumColumn(rows, id);
    lo := if |rows| > 0 then Cell(rows[0].values, id).n else 0;
    hi := if |rows| > 0 then Cell(rows[0].values, id).n else 0;
    for i := 0 to |rows|
      invariant |rows| > 0 ==> lo in col && hi in col
      invariant forall j :: 0 <= j < i ==> lo <= col[j] <= hi
      invariant |rows| == 0 ==> lo == 0 && hi == 0
    {
      lo := Min(Cell(rows[i].values, id).n, lo);
      hi := Max(Cell(rows[i].values, id).n, hi);
    }
    if |rows| > 0 {
      var least, greatest := Least(col), Greatest(col);
      assert lo <= least && least <= lo;
      assert hi <= greatest && greatest <= hi;
    }
  }

  // ---------------------------------------------------------------------------
  // Number-range bound edits
  // ---------------------------------------------------------------------------

  /** The `[min, max]` filter value of a number-range column; an unset bound
      is `undefined`. */
  datatype RangeFilter = RangeFilter(lo: Option<int>, hi: Option<int>)

  /** The updater of the "Min" box: `[val ? parseInt(val) : undefined, old[1]]`.
      The input is the already-parsed box content; `None` is an empty box.
      `(old = [])` reads a missing filter as an empty array, both of whose
      elements are `undefined`. */
  function EditMin(current: Option<RangeFilter>, input: Option<int>): (edited: RangeFilter)
    ensures edited.lo == input
    ensures edited.hi == (if current.Some? then current.value.hi else None)
  {
    RangeFilter(input, if current.Some? then current.value.hi else None)
  }

  /** The updater of the "Max" box: `[old[0], val ? parseInt(val) : undefined]`. */
  function EditMax(current: Option<RangeFilter>, input: Option<int>): (edited: RangeFilter)
    ensures edited.hi == input
    ensures edited.lo == (if current.Some? then current.value.lo else None)
  {
    RangeFilter(if current.Some? then current.value.lo else None, input)
  }

  /** Edits of different boxes do not interfere: editing both, in either
      order, gives exactly the two typed bounds. */
  lemma EditsCommute(current: Option<RangeFilter>, lo: Option<int>, hi: Option<int>)
    ensures EditMax(Some(EditMin(current, lo)), hi) == RangeFilter(lo, hi)
    ensures EditMin(Some(EditMax(current, hi)), lo) == RangeFilter(lo, hi)
  {
  }

  /** The last edit of a box wins. */
  lemma EditMinLastWins(current: Option<RangeFilter>, first: Option<int>, second: Option<int>)
    ensures EditMin(Some(EditMin(current, first)), second) == EditMin(current, second)
  {
  }

  lemma EditMaxLastWins(current: Option<RangeFilter>, first: Option<int>, second: Option<int>)
    ensures EditMax(Some(EditMax(current, first)), second) == EditMax(current, second)
  {
  }

  // ---------------------------------------------------------------------------
  // The `roundedMedian` aggregator
  // ---------------------------------------------------------------------------

  /** `Math.round(sum / 2)`: the integer nearest to `sum / 2`, halves rounded
      toward positive infinity. */
  function RoundHalf(sum: int): (r: int)
    ensures 2 * r - 1 <= sum < 2 * r + 1
  {
    (sum + 1) / 2
  }

  /** What `roundedMedian` computes: the rounded midpoint of the least and the
      greatest leaf value, or 0 for no leaves. It is not a median. */
  function Midpoint(leafValues: seq<int>): int
  {
    if |leafValues| == 0 then 0 else RoundHalf(Least(leafValues) + Greatest(leafValues))
  }

  /** `roundedMedian(leafValues)`: `min` and `max` start at `leafValues[0] || 0`
      and are widened over every leaf. */
  method RoundedMedian(leafValues: seq<int>) returns (r: int)
    ensures r == Midpoint(leafValues)
    ensures |leafValues| == 0 ==> r == 0
    ensures |leafValues| > 0 ==>
              2 * r - 1 <= Least(leafValues) + Greatest(leafValues) < 2 * r + 1
  {
    var lo := if |leafValues| > 0 && leafValues[0] != 0 then leafValues[0] else 0;
    var hi := if |leafValues| > 0 && leafValues[0] != 0 then leafValues[0] else 0;
    for i := 0 to |leafValues|
      invariant |leafValues| > 0 ==> lo in leafValues && hi in leafValues
      invariant forall j :: 0 <= j < i ==> lo <= leafValues[j] <= hi
      invariant |leafValues| == 0 ==> lo == 0 && hi == 0
    {
      lo := Min(lo, leafValues[i]);
      hi := Max(hi, leafValues[i]);
    }
    if |leafValues| > 0 {
      var least, greatest := Least(leafValues), Greatest(leafValues);
      assert lo <= least && least <= lo;
      assert hi <= greatest && greatest <= hi;
    }
    r := RoundHalf(lo + hi);
  }

  /** The aggregate lies between the least and the greatest leaf. */
  lemma MidpointBetween(leafValues: seq<int>)
    requires |leafValues| > 0
    ensures Least(leafValues) <= Midpoint(leafValues) <= Greatest(leafValues)
  {
    var lo, hi := Least(leafValues), Greatest(leafValues);
    assert lo <= hi by { assert leafValues[0] in leafValues; }
  }

  /** A single leaf aggregates to itself. */
  lemma MidpointSingle(v: int)
    ensures Midpoint([v]) == v
  {
  }

  /** The least element depends only on which values occur. */
  lemma LeastSameElements(a: seq<int>, b: seq<int>)
    requires |a| > 0 && |b| > 0
    requires forall x :: x in a <==> x in b
    ensures Least(a) == Least(b)
  {
    var la, lb := Least(a), Least(b);
    assert la in b && lb in a;
    assert la <= lb && lb <= la;
  }

  /** The greatest element depends only on which values occur. */
  lemma GreatestSameElements(a: seq<int>, b: seq<int>)
    requires |a| > 0 && |b| > 0
    requires forall x :: x in a <==> x in b
    ensures Greatest(a) == Greatest(b)
  {
    var ga, gb := Greatest(a), Greatest(b);
    assert ga in b && gb in a;
    assert ga <= gb && gb <= ga;
  }

  /** The aggregate does not depend on the order of the leaves. */
  lemma MidpointPermutation(a: seq<int>, b: seq<int>)
    requires multiset(a) == multiset(b)
    ensures Midpoint(a) == Midpoint(b)
  {
    assert |a| == |multiset(a)| == |multiset(b)| == |b|;
    if |a| > 0 {
      forall x
        ensures x in a <==> x in b
      {
        assert x in a <==> x in multiset(a);
        assert x in b <==> x in multiset(b);
      }
      LeastSameElements(a, b);
      GreatestSameElements(a, b);
    }
  }

  /** Leaves 10 and 30 aggregate to 20; leaves 1 and 2 to 2 and leaves -2 and
      -1 to -1 (`Math.round` takes halves up). */
  lemma MidpointExamples()
    ensures Midpoint([10, 30]) == 20
    ensures Midpoint([1, 2]) == 2
    ensures Midpoint([-2, -1]) == -1
  {
    assert Least([10, 30]) == 10 && Greatest([10, 30]) == 30;
    assert Least([1, 2]) == 1 && Greatest([1, 2]) == 2;
    assert Least([-2, -1]) == -2 && Greatest([-2, -1]) == -1;
  }

  // ---------------------------------------------------------------------------
  // "Go to page"
  // ---------------------------------------------------------------------------


  /** The page index handed to `gotoPage` from the "Go to page" box:
      `e.target.value ? Number(e.target.value) - 1 : 0`. The input is the
      already-parsed box content; `None` is an empty box. */
  function GotoPageIndex(input: Option<int>): (pageIndex: int)
    ensures input == None ==> pageIndex == 0
    ensures input.Some? ==> pageIndex + 1 == input.value
  {
    match input
    case None => 0
    case Some(n) => n - 1
  }

  /** `defaultValue={pageIndex + 1}`: the box shows the 1-based page number
      of a 0-based page index, and typing that number back goes to the same
      page index. */
  function DisplayedPage(pageIndex: nat): (shown: int)
    ensures shown >= 1
    ensures GotoPageIndex(Some(shown)) == pageIndex
  {
    pageIndex + 1
  }
}
