/** Scalar filters: the rows of a table whose columns satisfy every condition. */
module ScanFilter {
  import opened Common
  import opened ByteOrder
  import opened Columns
  import opened Float64
  import opened Store
  import opened Fragments
  import M = MiniBlock

  /** A dynamically typed value: an element of a column, or the argument of a condition. */
  datatype Scalar =
    | Whole(n: int)                // int, int32, int64
    | Decimal(x: real)             // float32, float64
    | Chars(bytes: seq<Byte>)
    | List(elements: seq<Scalar>)  // any slice or array
    | OtherValue

  datatype Operator = EQ | NE | LT | GT | LE | GE | In | Between | OtherOperator(code: int)

  datatype Condition = Condition(column: string, operator: Operator, value: Scalar)

  /** How machine numbers are read: the float64 an integer converts to, the values of IEEE bit
      patterns, and the square root. */
  datatype Arithmetic = Arithmetic(
    ofInt: int -> real, ofFloat32: Word32 -> real, ofFloat64: Word64 -> real, sqrt: real -> real)

  /** What a search component is made of: a fragment reader and a schema. */
  datatype Source = Source(files: Files, encoder: M.Encoder, readerSchema: Schema, schema: Schema)

  function Read(src: Source, f: Fragment, columnId: int): M.Outcome<Column> {
    ReadColumn(src.files, src.encoder, src.readerSchema, f, columnId)
  }

  /** Some read of these fragments panics. */
  ghost predicate ReadPanics(src: Source, fragments: seq<Fragment>) {
    exists i, id :: 0 <= i < |fragments| && Read(src, fragments[i], id).Panic?
  }

  // ---------- One value against one condition ----------

  function ToFloat64(num: Arithmetic, v: Scalar): Option<real> {
    match v
    case Whole(n) => Some(num.ofInt(n))
    case Decimal(x) => Some(x)
    case _ => None
  }

  predicate Comparable(num: Arithmetic, a: Scalar, b: Scalar) {
    ToFloat64(num, a).Some? && ToFloat64(num, b).Some?
  }

  /** Both values are numbers and the first is at most the second. */
  predicate AtMost(num: Arithmetic, a: Scalar, b: Scalar) {
    Comparable(num, a, b) && ToFloat64(num, a).value <= ToFloat64(num, b).value
  }

  predicate Same(num: Arithmetic, a: Scalar, b: Scalar) {
    (AtMost(num, a, b) && AtMost(num, b, a)) || (a.Chars? && a == b)
  }

  /** The value meets the condition. */
  predicate Matches(num: Arithmetic, v: Scalar, cond: Condition) {
    var w := cond.value;
    match cond.operator
    case EQ => Same(num, v, w)
    case NE => !Same(num, v, w)
    case LT => AtMost(num, v, w) && !Same(num, v, w)
    case GT => AtMost(num, w, v) && !Same(num, v, w)
    case LE => AtMost(num, v, w)
    case GE => AtMost(num, w, v)
    case In => w.List? && exists i :: 0 <= i < |w.elements| && Same(num, v, w.elements[i])
    case Between => w.List? && |w.elements| == 2 && AtMost(num, w.elements[0], v) && AtMost(num, v, w.elements[1])
    case OtherOperator(_) => false
  }

  method ValuesEqual(num: Arithmetic, a: Scalar, b: Scalar) returns (equal: bool)
    ensures equal == Same(num, a, b)
  {
    var x := ToFloat64(num, a);
    if x.Some? {
      var y := ToFloat64(num, b);
      if y.Some? {
        return x.value == y.value;
      }
      return false;
    }
    if a.Chars? && b.Chars? {
      return a.bytes == b.bytes;
    }
    return false;
  }

  method CompareNumeric(num: Arithmetic, a: Scalar, b: Scalar) returns (c: int, ok: bool)
    ensures ok == Comparable(num, a, b)
    ensures ok ==> (c <= 0 <==> AtMost(num, a, b)) && (c >= 0 <==> AtMost(num, b, a))
  {
    var x := ToFloat64(num, a);
    if x.None? {
      return 0, false;
    }
    var y := ToFloat64(num, b);
    if y.None? {
      return 0, false;
    }
    if x.value < y.value {
      return -1, true;
    }
    if x.value > y.value {
      return 1, true;
    }
    return 0, true;
  }

  method InSet(num: Arithmetic, v: Scalar, list: Scalar) returns (found: bool)
    ensures found <==> list.List? && exists i :: 0 <= i < |list.elements| && Same(num, v, list.elements[i])
  {
    if !list.List? {
      return false;
    }
    for i := 0 to |list.elements|
      invariant forall j :: 0 <= j < i ==> !Same(num, v, list.elements[j])
    {
      var equal := ValuesEqual(num, v, list.elements[i]);
      if equal {
        return true;
      }
    }
    return false;
  }

  method BetweenRange(num: Arithmetic, v: Scalar, range: Scalar) returns (within: bool)
    ensures within == Matches(num, v, Condition("", Between, range))
  {
    if !range.List? {
      return false;
    }
    if |range.elements| != 2 {
      return false;
    }
    var low, okLow := CompareNumeric(num, v, range.elements[0]);
    var high, okHigh := CompareNumeric(num, v, range.elements[1]);
    if !okLow || !okHigh {
      return false;
    }
    return low >= 0 && high <= 0;
  }

  method MatchesCondition(num: Arithmetic, v: Scalar, cond: Condition) returns (m: bool)
    ensures m == Matches(num, v, cond)
  {
    match cond.operator {
      case EQ => m := ValuesEqual(num, v, cond.value);
      case NE =>
        var equal := ValuesEqual(num, v, cond.value);
        m := !equal;
      case LT =>
        var c, ok := CompareNumeric(num, v, cond.value);
        m := ok && c < 0;
      case GT =>
        var c, ok := CompareNumeric(num, v, cond.value);
        m := ok && c > 0;
      case LE =>
        var c, ok := CompareNumeric(num, v, cond.value);
        m := ok && c <= 0;
      case GE =>
        var c, ok := CompareNumeric(num, v, cond.value);
        m := ok && c >= 0;
      case In => m := InSet(num, v, cond.value);
      case Between => m := BetweenRange(num, v, cond.value);
      case OtherOperator(_) => m := false;
    }
  }

  // ---------- What rounding to float64 does to integers ----------

  /** Integers convert to the nearest float64. */
  ghost predicate ConvertsToNearest(num: Arithmetic) {
    forall n: int :: num.ofInt(n) == Rounded(n) as real
  }

  /** Two different integers with the same nearest float64. */
  predicate Collide(a: int, b: int) {
    a != b && Rounded(a) == Rounded(b)
  }

  function Compare(operator: Operator, b: int): Condition {
    Condition("", operator, Whole(b))
  }

  /** Every comparison of two integers is that of the integers, except that colliding ones are equal. */
  lemma RoundingOnlyMerges(num: Arithmetic, a: int, b: int)
    requires ConvertsToNearest(num)
    ensures Matches(num, Whole(a), Compare(EQ, b)) <==> a == b || Collide(a, b)
    ensures Matches(num, Whole(a), Compare(NE, b)) <==> a != b && !Collide(a, b)
    ensures Matches(num, Whole(a), Compare(LT, b)) <==> a < b && !Collide(a, b)
    ensures Matches(num, Whole(a), Compare(GT, b)) <==> a > b && !Collide(a, b)
    ensures Matches(num, Whole(a), Compare(LE, b)) <==> a <= b || Collide(a, b)
    ensures Matches(num, Whole(a), Compare(GE, b)) <==> a >= b || Collide(a, b)
  {
    hide Rounded;
    if a < b {
      RoundedMonotone(a, b);
    } else {
      RoundedMonotone(b, a);
    }
  }

  function Wholes(numbers: seq<int>): (r: seq<Scalar>)
    ensures |r| == |numbers| && forall i :: 0 <= i < |r| ==> r[i] == Whole(numbers[i])
  {
    seq(|numbers|, i requires 0 <= i < |numbers| => Whole(numbers[i]))
  }

  /** The same for the two operators that take a slice. */
  lemma RoundingOnlyMergesInSlices(num: Arithmetic, a: int, numbers: seq<int>)
    requires ConvertsToNearest(num)
    ensures Matches(num, Whole(a), Condition("", In, List(Wholes(numbers)))) <==>
            exists i :: 0 <= i < |numbers| && (a == numbers[i] || Collide(a, numbers[i]))
    ensures Matches(num, Whole(a), Condition("", Between, List(Wholes(numbers)))) <==>
            |numbers| == 2 && (numbers[0] <= a || Collide(a, numbers[0])) && (a <= numbers[1] || Collide(a, numbers[1]))
  {
    hide Rounded, Same, AtMost, Collide;
    var list := Wholes(numbers);
    forall i | 0 <= i < |numbers|
      ensures Same(num, Whole(a), list[i]) <==> a == numbers[i] || Collide(a, numbers[i])
      ensures AtMost(num, list[i], Whole(a)) <==> numbers[i] <= a || Collide(a, numbers[i])
      ensures AtMost(num, Whole(a), list[i]) <==> a <= numbers[i] || Collide(a, numbers[i])
    {
      RoundingOnlyMerges(num, a, numbers[i]);
    }
  }

  function Exactly(): int -> real {
    (n: int) => n as real
  }

  /** The same filter, comparing the integers themselves. */
  function Unrounded(num: Arithmetic): Arithmetic {
    num.(ofInt := Exactly())
  }

  /** Every integer that a comparison would look at is at most bound in magnitude. */
  predicate Within(v: Scalar, bound: nat) {
    match v
    case Whole(n) => n <= bound && -n <= bound
    case List(elements) =>
      forall i :: 0 <= i < |elements| && elements[i].Whole? ==> elements[i].n <= bound && -elements[i].n <= bound
    case _ => true
  }

  /** Conditions of every operator decide as if integers were not rounded. */
  ghost predicate ExactUpTo(num: Arithmetic, bound: nat) {
    forall v: Scalar, cond: Condition :: Within(v, bound) && Within(cond.value, bound) ==>
      Matches(num, v, cond) == Matches(Unrounded(num), v, cond)
  }

  lemma SmallIsExact(num: Arithmetic, v: Scalar, cond: Condition)
    requires ConvertsToNearest(num) && Within(v, TWO_53) && Within(cond.value, TWO_53)
    ensures Matches(num, v, cond) == Matches(Unrounded(num), v, cond)
  {
    hide Rounded;
    SameReading(num, v);
    SameReading(num, cond.value);
    if cond.value.List? {
      forall i | 0 <= i < |cond.value.elements|
        ensures ToFloat64(num, cond.value.elements[i]) == ToFloat64(Unrounded(num), cond.value.elements[i])
      {
        SameReading(num, cond.value.elements[i]);
      }
    }
  }

  lemma SameReading(num: Arithmetic, v: Scalar)
    requires ConvertsToNearest(num) && (v.Whole? ==> Within(v, TWO_53))
    ensures ToFloat64(num, v) == ToFloat64(Unrounded(num), v)
  {
    if v.Whole? {
      SmallStays(v.n);
    }
  }

  /** Filters are exact on all integers up to a bound, for every operator, exactly if the bound is
      at most 2^53. Beyond it 2^53 equals 2^53 + 1. */
  lemma ExactExactlyUpTo(num: Arithmetic, bound: nat)
    requires ConvertsToNearest(num)
    ensures ExactUpTo(num, bound) <==> bound <= TWO_53
  {
    if bound <= TWO_53 {
      forall v: Scalar, cond: Condition | Within(v, bound) && Within(cond.value, bound)
        ensures Matches(num, v, cond) == Matches(Unrounded(num), v, cond)
      {
        assert Within(v, TWO_53) && Within(cond.value, TWO_53);
        SmallIsExact(num, v, cond);
      }
    } else {
      FirstMerged();
      var v, cond := Whole(TWO_53 + 1), Compare(EQ, TWO_53);
      assert Within(v, bound) && Within(cond.value, bound);
      assert Matches(num, v, cond) && !Matches(Unrounded(num), v, cond);
    }
  }

  // ---------- One column against one condition ----------

  predicate Filterable(c: Column) {
    c.Int64s? || c.Int32s? || c.Float32s? || c.Float64s? || c.Strings?
  }

  function ElementAt(num: Arithmetic, c: Column, i: nat): Scalar
    requires Filterable(c) && i < Length(c)
  {
    match c
    case Int64s(v) => Whole(v[i])
    case Int32s(v) => Whole(v[i])
    case Float32s(v) => Decimal(num.ofFloat32(v[i]))
    case Float64s(v) => Decimal(num.ofFloat64(v[i]))
    case Strings(v) => Chars(v[i])
  }

  /** Row i of the column exists and meets the condition. */
  predicate Holds(num: Arithmetic, c: Column, cond: Condition, i: nat) {
    Filterable(c) && i < Length(c) && Matches(num, ElementAt(num, c, i), cond)
  }

  method EvaluateColumn(num: Arithmetic, data: Column, cond: Condition, numRows: nat)
    returns (r: Option<array<bool>>)
    ensures r.Some? <==> Filterable(data)
    ensures r.Some? ==> fresh(r.value) && r.value.Length == numRows
    ensures r.Some? ==> forall i :: 0 <= i < numRows ==> r.value[i] == Holds(num, data, cond, i)
  {
    hide Matches;
    if !Filterable(data) {
      return None;
    }
    var result := new bool[numRows](_ => false);
    var n := Length(data);
    if n > numRows {
      n := numRows;
    }
    for i := 0 to n
      invariant forall j :: 0 <= j < i ==> result[j] == Holds(num, data, cond, j)
      invariant forall j :: i <= j < numRows ==> !result[j]
    {
      var m := MatchesCondition(num, ElementAt(num, data, i), cond);
      result[i] := m;
    }
    return Some(result);
  }

  // ---------- Fragments ----------

  /** The column a condition names, in one fragment. */
  function ColumnOf(src: Source, f: Fragment, name: string): M.Outcome<Column> {
    match FieldByName(src.schema, name)
    case None => M.Error
    case Some(field) => Read(src, f, field.id)
  }

  /** The condition can be evaluated on the fragment. */
  predicate Evaluates(src: Source, f: Fragment, cond: Condition) {
    ColumnOf(src, f, cond.column).Value? && Filterable(ColumnOf(src, f, cond.column).value)
  }

  predicate ConditionHolds(num: Arithmetic, src: Source, f: Fragment, cond: Condition, i: nat) {
    Evaluates(src, f, cond) && Holds(num, ColumnOf(src, f, cond.column).value, cond, i)
  }

  /** Row i of the fragment meets all conditions. */
  ghost predicate RowPasses(num: Arithmetic, src: Source, f: Fragment, conds: seq<Condition>, i: nat) {
    forall j :: 0 <= j < |conds| ==> ConditionHolds(num, src, f, conds[j], i)
  }

  ghost predicate FragmentEvaluates(src: Source, f: Fragment, conds: seq<Condition>) {
    forall j :: 0 <= j < |conds| ==> Evaluates(src, f, conds[j])
  }

  /** The part of Filter that handles one fragment: the mask of its matching rows. */
  method FilterFragment(num: Arithmetic, src: Source, f: Fragment, conds: seq<Condition>)
    returns (r: M.Outcome<array<bool>>)
    ensures r.Value? <==> FragmentEvaluates(src, f, conds)
    ensures r.Panic? ==> ReadPanics(src, [f])
    ensures r.Value? ==> fresh(r.value) && r.value.Length == RowsOf(f)
    ensures r.Value? ==> forall i :: 0 <= i < RowsOf(f) ==> r.value[i] == RowPasses(num, src, f, conds, i)
  {
    hide Holds, Filterable, ReadColumn;
    var numRows := RowsOf(f);
    var matched := new bool[numRows](_ => true);
    for k := 0 to |conds|
      invariant FragmentEvaluates(src, f, conds[..k])
      invariant forall i :: 0 <= i < numRows ==> matched[i] == RowPasses(num, src, f, conds[..k], i)
    {
      var cond := conds[k];
      assert conds[..k + 1] == conds[..k] + [cond];
      var field := FieldByName(src.schema, cond.column);
      if field.None? {
        assert !Evaluates(src, f, conds[k]);
        return M.Error;
      }
      var data := Read(src, f, field.value.id);
      if !data.Value? {
        assert !Evaluates(src, f, conds[k]);
        if data.Panic? {
          assert Read(src, [f][0], field.value.id).Panic?;
          return M.Panic;
        }
        return M.Error;
      }
      var rowMatched := EvaluateColumn(num, data.value, cond, numRows);
      if rowMatched.None? {
        assert !Evaluates(src, f, conds[k]);
        return M.Error;
      }
      assert ColumnOf(src, f, cond.column) == data;
      for i := 0 to numRows
        invariant forall j :: 0 <= j < numRows ==> rowMatched.value[j] == ConditionHolds(num, src, f, cond, j)
        invariant forall j :: 0 <= j < i ==> matched[j] == RowPasses(num, src, f, conds[..k + 1], j)
        invariant forall j :: i <= j < numRows ==> matched[j] == RowPasses(num, src, f, conds[..k], j)
      {
        PassesMore(num, src, f, conds[..k], cond, i);
        matched[i] := matched[i] && rowMatched.value[i];
      }
    }
    assert conds[..|conds|] == conds;
    return M.Value(matched);
  }

  lemma PassesMore(num: Arithmetic, src: Source, f: Fragment, conds: seq<Condition>, cond: Condition, i: nat)
    ensures RowPasses(num, src, f, conds + [cond], i)
       <==> RowPasses(num, src, f, conds, i) && ConditionHolds(num, src, f, cond, i)
  {
    hide ConditionHolds;
    var more := conds + [cond];
    assert more[|conds|] == cond;
    assert forall j :: 0 <= j < |conds| ==> more[j] == conds[j];
  }

  // ---------- Tables ----------

  ghost predicate FilterEvaluates(src: Source, fragments: seq<Fragment>, conds: seq<Condition>) {
    forall i :: 0 <= i < |fragments| ==> FragmentEvaluates(src, fragments[i], conds)
  }

  /** The IDs of the passing rows among the first n of a fragment that starts at offset. */
  ghost function PassingRows(
    num: Arithmetic, src: Source, f: Fragment, conds: seq<Condition>, offset: int, n: nat): seq<int> {
    if n == 0 then []
    else
      PassingRows(num, src, f, conds, offset, n - 1) +
      if RowPasses(num, src, f, conds, n - 1) then [offset + n - 1] else []
  }

  ghost function MatchingRows(num: Arithmetic, src: Source, fragments: seq<Fragment>, conds: seq<Condition>): seq<int> {
    if fragments == [] then []
    else
      var n := |fragments| - 1;
      MatchingRows(num, src, fragments[..n], conds) +
      PassingRows(num, src, fragments[n], conds, RowOffset(fragments, n), RowsOf(fragments[n]))
  }

  /** The rows a filter selects. Without conditions it selects none. */
  ghost function Selected(
    num: Arithmetic, src: Source, fragments: seq<Fragment>, filter: Option<seq<Condition>>): seq<int> {
    if filter.None? || filter.value == [] then [] else MatchingRows(num, src, fragments, filter.value)
  }

  ghost predicate FilterSucceeds(src: Source, fragments: seq<Fragment>, filter: Option<seq<Condition>>) {
    filter.None? || filter.value == [] || FilterEvaluates(src, fragments, filter.value)
  }

  method Filter(num: Arithmetic, src: Source, fragments: seq<Fragment>, filter: Option<seq<Condition>>)
    returns (r: M.Outcome<seq<int>>)
    ensures r.Value? <==> FilterSucceeds(src, fragments, filter)
    ensures r.Panic? ==> ReadPanics(src, fragments)
    ensures r.Value? ==> r.value == Selected(num, src, fragments, filter)
  {
    hide FragmentEvaluates, RowPasses, Read;
    if filter.None? || |filter.value| == 0 {
      return M.Value([]);
    }
    var matching: seq<int> := [];
    var rowOffset := 0;
    for k := 0 to |fragments|
      invariant rowOffset == RowOffset(fragments, k)
      invariant FilterEvaluates(src, fragments[..k], filter.value)
      invariant matching == MatchingRows(num, src, fragments[..k], filter.value)
    {
      var f := fragments[k];
      assert fragments[..k + 1][..k] == fragments[..k];
      var matched := FilterFragment(num, src, f, filter.value);
      if !matched.Value? {
        if matched.Panic? {
          PanicIsHere(src, fragments, k);
          return M.Panic;
        }
        return M.Error;
      }
      ghost var before := matching;
      for i := 0 to matched.value.Length
        invariant matching == before + PassingRows(num, src, f, filter.value, rowOffset, i)
      {
        if matched.value[i] {
          matching := matching + [rowOffset + i];
        }
      }
      OffsetOfPrefix(fragments, k + 1, k);
      rowOffset := rowOffset + RowsOf(f);
    }
    assert fragments[..|fragments|] == fragments;
    return M.Value(matching);
  }

  lemma PanicIsHere(src: Source, fragments: seq<Fragment>, k: nat)
    requires k < |fragments| && ReadPanics(src, [fragments[k]])
    ensures ReadPanics(src, fragments)
  {
    var i, id :| 0 <= i < 1 && Read(src, [fragments[k]][i], id).Panic?;
    assert Read(src, fragments[k], id).Panic?;
  }

  lemma {:induction false} OffsetOfPrefix(fragments: seq<Fragment>, n: nat, k: nat)
    requires k <= n <= |fragments|
    ensures RowOffset(fragments[..n], k) == RowOffset(fragments, k)
  {
    if k > 0 {
      OffsetOfPrefix(fragments, n, k - 1);
    }
  }

  // ---------- What a filter selects ----------

  ghost predicate Increasing(rows: seq<int>) {
    forall i, j :: 0 <= i < j < |rows| ==> rows[i] < rows[j]
  }

  /** Row i of fragment k has this ID and passes. */
  ghost predicate IsMatch(
    num: Arithmetic, src: Source, fragments: seq<Fragment>, conds: seq<Condition>, id: int, k: nat, i: nat)
  {
    k < |fragments| && i < RowsOf(fragments[k]) && id == RowOffset(fragments, k) + i &&
    RowPasses(num, src, fragments[k], conds, i)
  }

  lemma {:induction false} PassingRowsMeaning(
    num: Arithmetic, src: Source, f: Fragment, conds: seq<Condition>, offset: int, n: nat)
    ensures var rows := PassingRows(num, src, f, conds, offset, n);
      && Increasing(rows)
      && (forall j :: 0 <= j < |rows| ==> offset <= rows[j] < offset + n)
      && forall id :: id in rows <==> offset <= id < offset + n && RowPasses(num, src, f, conds, id - offset)
  {
    hide RowPasses;
    if n > 0 {
      PassingRowsMeaning(num, src, f, conds, offset, n - 1);
    }
  }

  lemma {:induction false} MatchingRowsBelow(
    num: Arithmetic, src: Source, fragments: seq<Fragment>, conds: seq<Condition>)
    ensures var rows := MatchingRows(num, src, fragments, conds);
      Increasing(rows) && forall j :: 0 <= j < |rows| ==> 0 <= rows[j] < RowOffset(fragments, |fragments|)
  {
    hide RowPasses;
    if fragments != [] {
      var n := |fragments| - 1;
      MatchingRowsBelow(num, src, fragments[..n], conds);
      OffsetOfPrefix(fragments, n, n);
      PassingRowsMeaning(num, src, fragments[n], conds, RowOffset(fragments, n), RowsOf(fragments[n]));
    }
  }

  /** The IDs are strictly increasing, and an ID is among them exactly when it is the position,
      counted over all fragments, of a row that meets every condition. */
  lemma {:induction false} FilterMeaning(
    num: Arithmetic, src: Source, fragments: seq<Fragment>, conds: seq<Condition>, id: int)
    ensures Increasing(MatchingRows(num, src, fragments, conds))
    ensures id in MatchingRows(num, src, fragments, conds) <==>
            exists k: nat, i: nat :: IsMatch(num, src, fragments, conds, id, k, i)
  {
    hide RowPasses;
    MatchingRowsBelow(num, src, fragments, conds);
    if fragments != [] {
      var n := |fragments| - 1;
      var front, offset := fragments[..n], RowOffset(fragments, n);
      FilterMeaning(num, src, front, conds, id);
      PassingRowsMeaning(num, src, fragments[n], conds, offset, RowsOf(fragments[n]));
      if k: nat, i: nat :| IsMatch(num, src, front, conds, id, k, i) {
        OffsetOfPrefix(fragments, n, k);
        assert IsMatch(num, src, fragments, conds, id, k, i);
      }
      if id in PassingRows(num, src, fragments[n], conds, offset, RowsOf(fragments[n])) {
        assert IsMatch(num, src, fragments, conds, id, n, id - offset);
      }
      if k: nat, i: nat :| IsMatch(num, src, fragments, conds, id, k, i) {
        if k < n {
          OffsetOfPrefix(fragments, n, k);
          assert IsMatch(num, src, front, conds, id, k, i);
        }
      }
    }
  }
}
