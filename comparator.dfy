/**
 * The comparison function `sortedData` hands to `Array.prototype.sort`
 * (src/components/DataTable.tsx, lines 34-48): absent values last in both
 * directions, numbers numerically, everything else by its string form.
 */
module Comparator {
  import opened Wrappers

  /** The name of a row attribute (`keyof T`). */
  type Field = string

  /**
   * A present cell value: a JavaScript number (modelled as an integer), or any
   * other non-null value, kept as the text `String(v)` gives it.
   */
  datatype Value = Num(n: int) | Str(s: string)

  /** The direction state; `Unset` is the `null` that the state's declared type admits. */
  datatype Dir = Asc | Desc | Unset

  /** Which kind of present values a column holds. */
  datatype Kind = Numeric | Textual

  // ---------------------------------------------------------------------------
  // String(n) for an integer n

  function DigitChar(d: nat): (c: char)
    requires d < 10
    ensures '0' <= c <= '9'
  {
    ('0' as int + d) as char
  }

  /** The numeric value of a string of decimal digits. */
  function DecimalValue(s: string): (v: int)
  {
    if s == [] then 0 else DecimalValue(s[..|s| - 1]) * 10 + (s[|s| - 1] as int - '0' as int)
  }

  /** A decimal numeral as `String(n)` writes it: digits only, and no leading zero unless it is `"0"`. */
  predicate Canonical(s: string)
  {
    |s| >= 1 && (forall i :: 0 <= i < |s| ==> '0' <= s[i] <= '9') && (s[0] == '0' ==> s == "0")
  }

  /** Decimal digits of `n`, without leading zeros. */
  function NatToString(n: nat): (r: string)
    ensures Canonical(r)
    ensures r == "0" <==> n == 0
    decreases n
  {
    if n < 10 then [DigitChar(n)] else NatToString(n / 10) + [DigitChar(n % 10)]
  }

  lemma {:induction false} NatToStringValue(n: nat)
    ensures DecimalValue(NatToString(n)) == n
    decreases n
  {
    var r := NatToString(n);
    if n < 10 {
      assert r[..|r| - 1] == [];
    } else {
      assert r[..|r| - 1] == NatToString(n / 10);
      NatToStringValue(n / 10);
    }
  }

  /** A canonical numeral is the only one for its value: it is the string `NatToString` gives. */
  lemma {:induction false} CanonicalUnique(s: string, n: nat)
    requires Canonical(s) && DecimalValue(s) == n
    ensures s == NatToString(n)
    decreases |s|
  {
    var init, last := s[..|s| - 1], s[|s| - 1];
    assert s == init + [last];
    if |s| == 1 {
      assert init == [];
    } else {
      assert init[0] == s[0];
      assert s[0] != '0';
      assert Canonical(init);
      DecimalValueNonNegative(init);
      var m: nat := DecimalValue(init);
      assert n == m * 10 + (last as int - '0' as int);
      assert n / 10 == m && n % 10 == last as int - '0' as int;
      CanonicalUnique(init, m);
      assert m != 0;
    }
  }

  lemma {:induction false} DecimalValueNonNegative(s: string)
    requires forall i :: 0 <= i < |s| ==> '0' <= s[i] <= '9'
    ensures DecimalValue(s) >= 0
    decreases |s|
  {
    if s != [] {
      var init := s[..|s| - 1];
      assert forall i :: 0 <= i < |init| ==> init[i] == s[i];
      DecimalValueNonNegative(init);
    }
  }

  /** `String(n)` for an integer-valued JavaScript number. */
  function IntToString(n: int): (r: string)
    ensures |r| >= 1 && (n < 0 <==> r[0] == '-')
    ensures n >= 0 ==> Canonical(r) && DecimalValue(r) == n
    ensures n < 0 ==> Canonical(r[1..]) && r[1..] != "0" && DecimalValue(r[1..]) == -n
  {
    NatToStringValue(if n < 0 then -n else n);
    if n < 0 then "-" + NatToString(-n) else NatToString(n)
  }

  /** `String(v)` for a present value. */
  function AsString(v: Value): (r: string)
  {
    match v
    case Num(n) => IntToString(n)
    case Str(s) => s
  }

  // ---------------------------------------------------------------------------
  // The string comparison (stands in for localeCompare)

  /**
   * Three-way comparison of two strings in code-point lexicographic order:
   * negative when `a` comes first, zero when they are equal, positive otherwise.
   */
  function StrCompare(a: string, b: string): (r: int)
    ensures -1 <= r <= 1
  {
    if a == [] && b == [] then 0
    else if a == [] then -1
    else if b == [] then 1
    else if a[0] < b[0] then -1
    else if b[0] < a[0] then 1
    else StrCompare(a[1..], b[1..])
  }

  /** Reference definition of lexicographic order: a prefix, or smaller at the first difference. */
  ghost predicate LexLe(a: string, b: string)
  {
    a <= b || exists k :: 0 <= k < |a| && k < |b| && a[..k] == b[..k] && a[k] < b[k]
  }

  /** Equal first characters leave the order to the rests. */
  lemma LexLeTail(a: string, b: string)
    requires a != [] && b != [] && a[0] == b[0]
    ensures LexLe(a, b) <==> LexLe(a[1..], b[1..])
  {
    assert a <= b <==> a[1..] <= b[1..];
    if exists k :: 0 <= k < |a| && k < |b| && a[..k] == b[..k] && a[k] < b[k] {
      var k :| 0 <= k < |a| && k < |b| && a[..k] == b[..k] && a[k] < b[k];
      assert k > 0;
      assert a[1..][..k - 1] == a[..k][1..];
      assert b[1..][..k - 1] == b[..k][1..];
      assert a[1..][k - 1] == a[k] && b[1..][k - 1] == b[k];
    }
    if exists k :: 0 <= k < |a| - 1 && k < |b| - 1 && a[1..][..k] == b[1..][..k] && a[1..][k] < b[1..][k] {
      var k :| 0 <= k < |a| - 1 && k < |b| - 1 && a[1..][..k] == b[1..][..k] && a[1..][k] < b[1..][k];
      assert a[..k + 1] == [a[0]] + a[1..][..k];
      assert b[..k + 1] == [b[0]] + b[1..][..k];
      assert a[k + 1] == a[1..][k] && b[k + 1] == b[1..][k];
    }
  }

  /** A smaller first character decides the order. */
  lemma LexLeHead(a: string, b: string)
    requires a != [] && b != [] && a[0] != b[0]
    ensures LexLe(a, b) <==> a[0] < b[0]
  {
  }

  lemma {:induction false} StrCompareIsLex(a: string, b: string)
    ensures StrCompare(a, b) <= 0 <==> LexLe(a, b)
  {
    if a == [] {
    } else if b == [] {
      assert !(a <= b);
    } else if a[0] != b[0] {
      LexLeHead(a, b);
    } else {
      StrCompareIsLex(a[1..], b[1..]);
      LexLeTail(a, b);
    }
  }

  lemma {:induction false} StrCompareAntisym(a: string, b: string)
    ensures StrCompare(b, a) == -StrCompare(a, b)
  {
    if a != [] && b != [] && a[0] == b[0] {
      StrCompareAntisym(a[1..], b[1..]);
    }
  }

  lemma {:induction false} StrCompareZero(a: string, b: string)
    ensures StrCompare(a, b) == 0 <==> a == b
  {
    if a != [] && b != [] && a[0] == b[0] {
      StrCompareZero(a[1..], b[1..]);
      assert a == [a[0]] + a[1..] && b == [b[0]] + b[1..];
    }
  }

  lemma {:induction false} StrCompareTrans(a: string, b: string, c: string)
    requires StrCompare(a, b) <= 0 && StrCompare(b, c) <= 0
    ensures StrCompare(a, c) <= 0
  {
    if a != [] && b != [] && c != [] && a[0] == b[0] == c[0] {
      StrCompareTrans(a[1..], b[1..], c[1..]);
    }
  }

  // ---------------------------------------------------------------------------
  // The comparator

  /**
   * The comparison function of `sortedData`, on the two rows' values of the
   * sort field: negative puts `va`'s row first, positive puts it after.
   * Any direction other than `Asc` takes the descending branch, as the
   * conditional expressions in the source do.
   */
  function CompareValues(va: Option<Value>, vb: Option<Value>, dir: Dir): (r: int)
    ensures va.None? && vb.Some? ==> r > 0
    ensures va.Some? && vb.None? ==> r < 0
  {
    if va.None? && vb.None? then 0
    else if va.None? then 1
    else if vb.None? then -1
    else if va.value.Num? && vb.value.Num? then
      (if dir == Asc then va.value.n - vb.value.n else vb.value.n - va.value.n)
    else if dir == Asc then StrCompare(AsString(va.value), AsString(vb.value))
    else StrCompare(AsString(vb.value), AsString(va.value))
  }

  /** Reference order on present values: numbers numerically, otherwise by string form. */
  ghost predicate ValueLe(a: Value, b: Value)
  {
    if a.Num? && b.Num? then a.n <= b.n else LexLe(AsString(a), AsString(b))
  }

  /**
   * Reference definition of "`va`'s row may come before `vb`'s row": an
   * absent value follows every present one and equals another absent one; in
   * ascending order present values rise, in descending order they fall.
   */
  ghost predicate Before(va: Option<Value>, vb: Option<Value>, dir: Dir)
  {
    match (va, vb)
    case (_, None) => true
    case (None, Some(_)) => false
    case (Some(a), Some(b)) => if dir == Asc then ValueLe(a, b) else ValueLe(b, a)
  }

  /** A value belongs to a column of kind `k`: it is absent, or it is a number exactly when `k` is numeric. */
  predicate OfKind(v: Option<Value>, k: Kind)
  {
    v.None? || (v.value.Num? <==> k == Numeric)
  }

  lemma CompareMeaning(va: Option<Value>, vb: Option<Value>, dir: Dir)
    ensures CompareValues(va, vb, dir) <= 0 <==> Before(va, vb, dir)
  {
    if va.Some? && vb.Some? && !(va.value.Num? && vb.value.Num?) {
      var a, b := AsString(va.value), AsString(vb.value);
      StrCompareIsLex(a, b);
      StrCompareIsLex(b, a);
    }
  }

  lemma CompareAntisym(va: Option<Value>, vb: Option<Value>, dir: Dir)
    ensures CompareValues(va, vb, dir) < 0 <==> CompareValues(vb, va, dir) > 0
    ensures CompareValues(va, vb, dir) == 0 <==> CompareValues(vb, va, dir) == 0
  {
    if va.Some? && vb.Some? {
      StrCompareAntisym(AsString(va.value), AsString(vb.value));
    }
  }

  /** Swapping the direction reverses the order of present values and keeps absent values last. */
  lemma CompareDirections(va: Option<Value>, vb: Option<Value>)
    ensures va.Some? && vb.Some? ==> CompareValues(va, vb, Desc) == -CompareValues(va, vb, Asc)
    ensures (va.None? || vb.None?) ==> CompareValues(va, vb, Desc) == CompareValues(va, vb, Asc)
  {
    if va.Some? && vb.Some? {
      StrCompareAntisym(AsString(va.value), AsString(vb.value));
    }
  }

  /** Within one kind, the comparator says "equal" exactly for equal values (two absent values included). */
  lemma CompareZeroIffSame(va: Option<Value>, vb: Option<Value>, dir: Dir, k: Kind)
    requires OfKind(va, k) && OfKind(vb, k)
    ensures CompareValues(va, vb, dir) == 0 <==> va == vb
  {
    if va.Some? && vb.Some? && va.value.Str? {
      StrCompareZero(va.value.s, vb.value.s);
      StrCompareZero(vb.value.s, va.value.s);
    }
  }

  lemma CompareReflexive(v: Option<Value>, dir: Dir)
    ensures CompareValues(v, v, dir) == 0
  {
    if v.Some? {
      StrCompareZero(AsString(v.value), AsString(v.value));
    }
  }

  /** Within one kind, "may come before" is transitive. */
  lemma CompareTrans(va: Option<Value>, vb: Option<Value>, vc: Option<Value>, dir: Dir, k: Kind)
    requires OfKind(va, k) && OfKind(vb, k) && OfKind(vc, k)
    requires CompareValues(va, vb, dir) <= 0 && CompareValues(vb, vc, dir) <= 0
    ensures CompareValues(va, vc, dir) <= 0
  {
    if va.Some? && vb.Some? && vc.Some? && k == Textual {
      var a, b, c := va.value.s, vb.value.s, vc.value.s;
      if dir == Asc { StrCompareTrans(a, b, c); } else { StrCompareTrans(c, b, a); }
    }
  }

  /**
   * A column that mixes numbers and strings has no consistent order: 9 < 10
   * numerically, "10" < "5" and "5" < "9" as strings, a cycle.
   */
  lemma MixedKindsCycle()
    ensures CompareValues(Some(Num(9)), Some(Num(10)), Asc) < 0
    ensures CompareValues(Some(Num(10)), Some(Str("5")), Asc) < 0
    ensures CompareValues(Some(Str("5")), Some(Num(9)), Asc) < 0
  {
    assert IntToString(10) == "10";
    assert IntToString(9) == "9";
  }
}
