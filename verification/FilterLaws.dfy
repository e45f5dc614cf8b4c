/** What every filter operator decides, in terms of the numbers and strings compared. */
module FilterLaws {
  import opened Common
  import opened ByteOrder
  import opened Columns
  import opened Float64
  import opened Store
  import opened ScanFilter

  /** v is the number x: a float as it is, an integer as the nearest float64. */
  predicate IsNumber(v: Scalar, x: real) {
    (v.Decimal? && v.x == x) || (v.Whole? && Rounded(v.n) as real == x)
  }

  predicate IsNumeric(v: Scalar) {
    v.Decimal? || v.Whole?
  }

  /** Two numbers, integers or floats in any mix, compare as the numbers that they are. */
  lemma NumbersCompare(num: Arithmetic, column: string, v: Scalar, w: Scalar, x: real, y: real)
    requires ConvertsToNearest(num) && IsNumber(v, x) && IsNumber(w, y)
    ensures Matches(num, v, Condition(column, EQ, w)) <==> x == y
    ensures Matches(num, v, Condition(column, NE, w)) <==> x != y
    ensures Matches(num, v, Condition(column, LT, w)) <==> x < y
    ensures Matches(num, v, Condition(column, GT, w)) <==> x > y
    ensures Matches(num, v, Condition(column, LE, w)) <==> x <= y
    ensures Matches(num, v, Condition(column, GE, w)) <==> x >= y
  {
    hide Rounded;
  }

  /** Strings are equal as bytes and have no order. */
  lemma TextsCompare(num: Arithmetic, column: string, a: seq<Byte>, b: seq<Byte>)
    ensures Matches(num, Chars(a), Condition(column, EQ, Chars(b))) <==> a == b
    ensures Matches(num, Chars(a), Condition(column, NE, Chars(b))) <==> a != b
    ensures forall operator ::
      operator == LT || operator == GT || operator == LE || operator == GE ==>
        !Matches(num, Chars(a), Condition(column, operator, Chars(b)))
  {
  }

  /** Anything else is unequal and has no order: a number and a string, or a value that is neither. */
  lemma OthersDiffer(num: Arithmetic, column: string, v: Scalar, w: Scalar)
    requires !(IsNumeric(v) && IsNumeric(w)) && !(v.Chars? && w.Chars?)
    ensures !Matches(num, v, Condition(column, EQ, w)) && Matches(num, v, Condition(column, NE, w))
    ensures forall operator ::
      operator == LT || operator == GT || operator == LE || operator == GE ==>
        !Matches(num, v, Condition(column, operator, w))
  {
  }

  /** In finds a number equal to x, whatever else the slice holds. */
  lemma InFindsNumber(num: Arithmetic, column: string, v: Scalar, x: real, elements: seq<Scalar>)
    requires ConvertsToNearest(num) && IsNumber(v, x)
    ensures Matches(num, v, Condition(column, In, List(elements))) <==>
            exists i :: 0 <= i < |elements| && IsNumber(elements[i], x)
  {
    hide Rounded;
    forall i | 0 <= i < |elements| ensures Same(num, v, elements[i]) <==> IsNumber(elements[i], x) {
      if IsNumeric(elements[i]) {
        var y := if elements[i].Decimal? then elements[i].x else Rounded(elements[i].n) as real;
        NumbersCompare(num, column, v, elements[i], x, y);
      }
    }
  }

  lemma InFindsText(num: Arithmetic, column: string, a: seq<Byte>, elements: seq<Scalar>)
    ensures Matches(num, Chars(a), Condition(column, In, List(elements))) <==> Chars(a) in elements
  {
    forall i | 0 <= i < |elements| ensures Same(num, Chars(a), elements[i]) <==> elements[i] == Chars(a) {
      if elements[i].Chars? {
        TextsCompare(num, column, a, elements[i].bytes);
      }
    }
  }

  /** Between takes both ends in. */
  lemma BetweenBounds(num: Arithmetic, column: string, v: Scalar, lo: Scalar, hi: Scalar, x: real, l: real, h: real)
    requires ConvertsToNearest(num) && IsNumber(v, x) && IsNumber(lo, l) && IsNumber(hi, h)
    ensures Matches(num, v, Condition(column, Between, List([lo, hi]))) <==> l <= x <= h
  {
    hide Rounded;
  }

  /** A slice operator needs a slice, Between one of two numbers and a number to compare; no value
      meets an unknown operator. */
  lemma NeverMatch(num: Arithmetic, column: string, v: Scalar, w: Scalar, code: int)
    ensures !w.List? ==> !Matches(num, v, Condition(column, In, w)) && !Matches(num, v, Condition(column, Between, w))
    ensures w.List? && |w.elements| != 2 ==> !Matches(num, v, Condition(column, Between, w))
    ensures w.List? && |w.elements| == 2 && !(IsNumeric(v) && IsNumeric(w.elements[0]) && IsNumeric(w.elements[1])) ==>
      !Matches(num, v, Condition(column, Between, w))
    ensures !Matches(num, v, Condition(column, OtherOperator(code), w))
  {
  }

  /** Without conditions a filter selects no row, although every row meets all of them. */
  lemma NoConditionsNoRows(num: Arithmetic, src: Source, fragments: seq<Fragment>, f: Fragment, i: nat)
    ensures FilterSucceeds(src, fragments, Some([])) && Selected(num, src, fragments, Some([])) == []
    ensures RowPasses(num, src, f, [], i)
  {
  }

  // ---------- Columns ----------

  /** Row i of a column is the number x, as its type is read. */
  predicate RowIsNumber(num: Arithmetic, data: Column, i: nat, x: real) {
    match data
    case Int32s(v) => i < |v| && x == Rounded(v[i]) as real
    case Int64s(v) => i < |v| && x == Rounded(v[i]) as real
    case Float32s(v) => i < |v| && x == num.ofFloat32(v[i])
    case Float64s(v) => i < |v| && x == num.ofFloat64(v[i])
    case _ => false
  }

  /** A row of an integer or float column meets a condition on a number exactly if its own number
      stands in that relation to it. */
  lemma RowsCompare(num: Arithmetic, column: string, data: Column, i: nat, w: Scalar, x: real, y: real)
    requires ConvertsToNearest(num) && RowIsNumber(num, data, i, x) && IsNumber(w, y)
    ensures Holds(num, data, Condition(column, EQ, w), i) <==> x == y
    ensures Holds(num, data, Condition(column, NE, w), i) <==> x != y
    ensures Holds(num, data, Condition(column, LT, w), i) <==> x < y
    ensures Holds(num, data, Condition(column, GT, w), i) <==> x > y
    ensures Holds(num, data, Condition(column, LE, w), i) <==> x <= y
    ensures Holds(num, data, Condition(column, GE, w), i) <==> x >= y
  {
    hide Rounded, Matches;
    NumbersCompare(num, column, ElementAt(num, data, i), w, x, y);
  }

  /** A row of a string column, likewise. */
  lemma TextRowsCompare(num: Arithmetic, column: string, strings: seq<seq<Byte>>, i: nat, b: seq<Byte>)
    requires i < |strings|
    ensures Holds(num, Strings(strings), Condition(column, EQ, Chars(b)), i) <==> strings[i] == b
    ensures Holds(num, Strings(strings), Condition(column, NE, Chars(b)), i) <==> strings[i] != b
  {
    TextsCompare(num, column, strings[i], b);
  }

  /** Data that is too short, or of a type that filters cannot compare, has no matching row. */
  lemma NoRow(num: Arithmetic, data: Column, cond: Condition, i: nat)
    requires i >= Length(data) || data.Int8s? || data.Int16s? || data.Binaries?
    ensures !Holds(num, data, cond, i)
  {
  }
}
