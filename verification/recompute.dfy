/** `_recompute_with_pivot`: the client-side pass that regroups the initial
    quantity by item code over exactly the rows at hand and re-derives the
    two complementary percentages `Queda` and `Vendido`.

    Cell values are `None`, integers or text; quantities are summed as
    integers and the percentages are exact rationals, rounded half to even
    to hundredths and printed with two decimals, a decimal comma and `%`. */
module Recompute {
  import opened Wrappers
  import opened Text

  /** A cell of the result table. */
  datatype Value = Null | Int(n: int) | Str(s: string)

  /** A row of the result: the item code, the initial quantity, the current
      stock, the grouped total, the two percentages, and every other column,
      which the pass does not touch. */
  datatype Row = Row(codigo: Value, inicial: Value, existencia: Value,
                     agrupada: Value, queda: Value, vendido: Value,
                     others: seq<(string, Value)>)

  // ---------------------------------------------------------------------
  // Numbers.

  /** The whitespace pandas' number parser skips around a number: the
      ASCII space, tab, line feed, vertical tab, form feed and carriage
      return. */
  predicate IsAsciiSpace(c: char) {
    c == ' ' || ('\t' <= c <= '\r')
  }

  /** The text with ASCII whitespace removed from both ends. */
  function AsciiTrim(s: string): (r: string)
    ensures |r| <= |s|
    ensures r == [] || (!IsAsciiSpace(r[0]) && !IsAsciiSpace(r[|r| - 1]))
    decreases |s|
  {
    if |s| > 0 && IsAsciiSpace(s[0]) then AsciiTrim(s[1..])
    else if |s| > 0 && IsAsciiSpace(s[|s| - 1]) then AsciiTrim(s[..|s| - 1])
    else s
  }

  /** Trimming gives back text with non-space ends from between any ASCII
      whitespace padding. */
  lemma {:induction false} AsciiTrimPadded(a: string, t: string, b: string)
    requires |t| > 0 && !IsAsciiSpace(t[0]) && !IsAsciiSpace(t[|t| - 1])
    requires forall k :: 0 <= k < |a| ==> IsAsciiSpace(a[k])
    requires forall k :: 0 <= k < |b| ==> IsAsciiSpace(b[k])
    ensures AsciiTrim(a + t + b) == t
    decreases |a| + |b|
  {
    var s := a + t + b;
    if |a| > 0 {
      assert s[0] == a[0];
      assert s[1..] == a[1..] + t + b;
      AsciiTrimPadded(a[1..], t, b);
    } else if |b| > 0 {
      assert s[0] == t[0];
      assert s[|s| - 1] == b[|b| - 1];
      assert s[..|s| - 1] == a + t + b[..|b| - 1];
      AsciiTrimPadded(a, t, b[..|b| - 1]);
    } else {
      assert s == t;
    }
  }

  /** `pd.to_numeric(errors="coerce").fillna(0)` for one cell: integers
      stay, integer text is read once the ASCII whitespace around it is
      skipped, and anything else becomes 0. */
  function Numeric(v: Value): int {
    match v
    case Null => 0
    case Int(n) => n
    case Str(s) => ParseInt(AsciiTrim(s)).GetOr(0)
  }

  /** Coercion keeps numbers, reads back the text of any integer even when
      padded with ASCII whitespace, and turns missing or non-numeric cells
      into 0. */
  lemma {:induction false} NumericFacts(i: int, s: string, a: string, b: string)
    requires forall k :: 0 <= k < |a| ==> IsAsciiSpace(a[k])
    requires forall k :: 0 <= k < |b| ==> IsAsciiSpace(b[k])
    ensures Numeric(Int(i)) == i && Numeric(Str(a + IntText(i) + b)) == i
    ensures Numeric(Null) == 0
    ensures ParseInt(AsciiTrim(s)).None? ==> Numeric(Str(s)) == 0
  {
    var t := IntText(i);
    IntTextRoundTrip(i);
    AsciiTrimPadded(a, t, b);
  }

  // ---------------------------------------------------------------------
  // Grouping.

  /** `pivot_table(index="CodigoBarra", values="CantidadInicial",
      aggfunc="sum")`, built row by row: a row with a missing code is left
      out of the table, as pandas drops missing index values. */
  function Pivot(rows: seq<Row>): (m: map<Value, int>)
    decreases |rows|
  {
    if |rows| == 0 then map[]
    else
      var m := Pivot(rows[..|rows| - 1]);
      var r := rows[|rows| - 1];
      if r.codigo == Null then m
      else m[r.codigo := (if r.codigo in m then m[r.codigo] else 0) + Numeric(r.inicial)]
  }

  /** The reference total: the initial quantities of the rows that carry
      code `k`, added up from the first row on. */
  function GroupSum(rows: seq<Row>, k: Value): int
    decreases |rows|
  {
    if |rows| == 0 then 0
    else (if rows[0].codigo == k then Numeric(rows[0].inicial) else 0) + GroupSum(rows[1..], k)
  }

  /** Some row carries code `k`. */
  predicate HasCode(rows: seq<Row>, k: Value) {
    exists i :: 0 <= i < |rows| && rows[i].codigo == k
  }

  lemma {:induction false} GroupSumSnoc(rows: seq<Row>, r: Row, k: Value)
    ensures GroupSum(rows + [r], k) == GroupSum(rows, k) + (if r.codigo == k then Numeric(r.inicial) else 0)
    decreases |rows|
  {
    if |rows| > 0 {
      assert (rows + [r])[1..] == rows[1..] + [r];
      GroupSumSnoc(rows[1..], r, k);
    } else {
      assert (rows + [r])[1..] == [];
    }
  }

  /** The pivot table holds exactly the codes present (other than a missing
      one), each with the sum over all rows that carry it. */
  lemma {:induction false} PivotIsGroupSum(rows: seq<Row>)
    ensures forall k :: k in Pivot(rows) <==> k != Null && HasCode(rows, k)
    ensures forall k :: k in Pivot(rows) ==> Pivot(rows)[k] == GroupSum(rows, k)
    decreases |rows|
  {
    if |rows| > 0 {
      var n := |rows| - 1;
      var front, r := rows[..n], rows[n];
      assert rows == front + [r];
      PivotIsGroupSum(front);
      forall k ensures GroupSum(rows, k) == GroupSum(front, k) + (if r.codigo == k then Numeric(r.inicial) else 0) {
        GroupSumSnoc(front, r, k);
      }
      forall k ensures HasCode(rows, k) <==> HasCode(front, k) || r.codigo == k {
        if HasCode(rows, k) {
          var i :| 0 <= i < |rows| && rows[i].codigo == k;
          if i < n {
            assert front[i] == rows[i];
          }
        }
        if HasCode(front, k) {
          var i :| 0 <= i < |front| && front[i].codigo == k;
          assert rows[i] == front[i];
        }
      }
      forall k | k !in Pivot(front) && k != Null && k != r.codigo ensures GroupSum(front, k) == 0 {
        GroupSumAbsent(front, k);
      }
      if r.codigo != Null && r.codigo !in Pivot(front) {
        GroupSumAbsent(front, r.codigo);
      }
    }
  }

  /** A code no row carries adds up to nothing. */
  lemma {:induction false} GroupSumAbsent(rows: seq<Row>, k: Value)
    requires !HasCode(rows, k)
    ensures GroupSum(rows, k) == 0
    decreases |rows|
  {
    if |rows| > 0 {
      assert rows[0].codigo != k;
      assert !HasCode(rows[1..], k) by {
        forall i | 0 <= i < |rows| - 1 ensures rows[1..][i].codigo != k {
          assert rows[1..][i] == rows[i + 1];
        }
      }
      GroupSumAbsent(rows[1..], k);
    }
  }

  /** Rows that agree on codes and initial quantities pivot alike. */
  lemma {:induction false} PivotSame(a: seq<Row>, b: seq<Row>)
    requires |a| == |b|
    requires forall i :: 0 <= i < |a| ==> a[i].codigo == b[i].codigo && Numeric(a[i].inicial) == Numeric(b[i].inicial)
    ensures Pivot(a) == Pivot(b)
    decreases |a|
  {
    if |a| > 0 {
      var n := |a| - 1;
      PivotSame(a[..n], b[..n]);
    }
  }

  // ---------------------------------------------------------------------
  // Percentages.

  /** `ExistenciaActual * 100 / total`, with a zero or missing total
      (`replace(0, pd.NA)` and a code the pivot left out) giving 0. */
  function Share(stock: int, total: Value): real {
    if total.Int? && total.n != 0 then (stock * 100) as real / total.n as real else 0.0
  }

  /** `round(x, 2)` in hundredths: the nearest integer to `100 x`, ties to
      the even one. */
  function RoundHalfEven(x: real): int {
    var n := x * 100.0;
    var f := n.Floor;
    var d := n - f as real;
    if d > 0.5 then f + 1 else if d < 0.5 then f else if f % 2 == 0 then f else f + 1
  }

  /** The rounded value is within half a hundredth of `x`, and even when
      `x` sits exactly half-way. */
  lemma {:induction false} RoundNearest(x: real)
    ensures var h := RoundHalfEven(x);
      && -0.5 <= x * 100.0 - h as real <= 0.5
      && ((x * 100.0 - h as real == 0.5 || x * 100.0 - h as real == -0.5) ==> h % 2 == 0)
  {
  }

  /** Only one integer is within half a hundredth with ties going to the
      even one, so that is what rounding gives. */
  lemma {:induction false} RoundUnique(x: real, h: int)
    requires -0.5 <= x * 100.0 - h as real <= 0.5
    requires (x * 100.0 - h as real == 0.5 || x * 100.0 - h as real == -0.5) ==> h % 2 == 0
    ensures RoundHalfEven(x) == h
  {
    RoundNearest(x);
  }

  /** The sign of the rounded value follows that of `x`. */
  lemma {:induction false} RoundSign(x: real)
    ensures x < 0.0 ==> RoundHalfEven(x) <= 0
    ensures x >= 0.0 ==> RoundHalfEven(x) >= 0
  {
    RoundNearest(x);
  }

  /** The two decimals of a non-negative number of hundredths, comma
      separated. */
  function Fixed(a: nat): string {
    NatText(a / 100) + ("," + [DigitChar(a % 100 / 10), DigitChar(a % 10)])
  }

  /** The printed form of a signed number of hundredths: the sign, the
      digits with two decimals after the comma, and `%`. */
  function Printed(neg: bool, a: nat): string {
    (if neg then "-" else "") + Fixed(a) + "%"
  }

  /** Every printed percentage has exactly two decimals after a comma, ends
      with `%`, and starts with `-` exactly when it is negative. */
  lemma {:induction false} PrintedShape(neg: bool, a: nat)
    ensures var r := Printed(neg, a);
      && |r| >= 5 && r[|r| - 1] == '%' && r[|r| - 4] == ','
      && IsDigit(r[|r| - 3]) && IsDigit(r[|r| - 2])
      && (r[0] == '-' <==> neg)
  {
    var t := NatText(a / 100);
    assert IsDigit(t[0]);
  }

  /** `f"{round(v, 2):.2f}".replace(".", ",") + "%"`: the minus sign is
      printed for every negative `v`, even one that rounds to zero. */
  function FormatPct(x: real): string {
    var h := RoundHalfEven(x);
    Printed(x < 0.0, if h < 0 then -h else h)
  }

  /** Reads a percentage printed as above back as signed hundredths. */
  function ParsePct(s: string): Option<int> {
    if |s| < 5 || s[|s| - 1] != '%' || s[|s| - 4] != ',' then None
    else
      var body := s[..|s| - 4];
      var d1, d2 := s[|s| - 3], s[|s| - 2];
      var neg := body[0] == '-';
      var digits := if neg then body[1..] else body;
      if IsDigit(d1) && IsDigit(d2) && |digits| > 0 && forall i :: 0 <= i < |digits| ==> IsDigit(digits[i]) then
        var mag := DigitsValue(digits) * 100 + DigitValue(d1) * 10 + DigitValue(d2);
        Some(if neg then -mag else mag)
      else None
  }

  /** Reading back a printed number of hundredths gives it, with its sign. */
  lemma {:induction false} ParsePrinted(neg: bool, a: nat)
    ensures ParsePct(Printed(neg, a)) == Some(if neg then 0 - a as int else a as int)
  {
    var t := NatText(a / 100);
    var c1, c2 := DigitChar(a % 100 / 10), DigitChar(a % 10);
    PrintedParts(neg, a);
    ParseParts(Printed(neg, a), neg, t, c1, c2);
    assert DigitsValue(t) * 100 + DigitValue(c1) * 10 + DigitValue(c2) == a by {
      NatTextValue(a / 100);
      assert DigitValue(c1) == a % 100 / 10 && DigitValue(c2) == a % 10;
      Hundredths(a);
    }
  }

  /** A number of hundredths is its whole part and its two decimals. */
  lemma {:induction false} Hundredths(a: nat)
    ensures a / 100 * 100 + a % 100 / 10 * 10 + a % 10 == a
  {
    var w, r := a / 100, a % 100;
    assert a == w * 100 + r;
    assert r == r / 10 * 10 + r % 10;
    assert a == w * 100 + r / 10 * 100 / 10 + r % 10 by {
      assert r / 10 * 100 / 10 == r / 10 * 10;
    }
    assert a % 10 == r % 10 by {
      assert a == (w * 10 + r / 10) * 10 + r % 10;
    }
  }

  lemma {:induction false} PrintedParts(neg: bool, a: nat)
    ensures var s := Printed(neg, a);
      && |s| >= 5 && s[|s| - 1] == '%' && s[|s| - 4] == ','
      && s[|s| - 3] == DigitChar(a % 100 / 10) && s[|s| - 2] == DigitChar(a % 10)
      && s[..|s| - 4] == (if neg then "-" else "") + NatText(a / 100)
  {
    var sign := if neg then "-" else "";
    var t := NatText(a / 100);
    var s := Printed(neg, a);
    assert s == (sign + t) + [',', DigitChar(a % 100 / 10), DigitChar(a % 10), '%'];
  }

  /** How `ParsePct` reads a text made of a sign, digits, a comma, two
      digits and `%`. */
  lemma {:induction false} ParseParts(s: string, neg: bool, t: string, c1: char, c2: char)
    requires |s| >= 5 && s[|s| - 1] == '%' && s[|s| - 4] == ','
    requires s[|s| - 3] == c1 && s[|s| - 2] == c2 && IsDigit(c1) && IsDigit(c2)
    requires s[..|s| - 4] == (if neg then "-" else "") + t
    requires |t| > 0 && forall i :: 0 <= i < |t| ==> IsDigit(t[i])
    ensures var mag := DigitsValue(t) * 100 + DigitValue(c1) * 10 + DigitValue(c2);
      ParsePct(s) == Some(if neg then -mag else mag)
  {
    var body := s[..|s| - 4];
    assert body[0] == '-' <==> neg;
    assert (if neg then body[1..] else body) == t;
  }

  /** Reading back a printed percentage gives its rounded value. */
  lemma {:induction false} FormatPctRoundTrip(x: real)
    ensures ParsePct(FormatPct(x)) == Some(RoundHalfEven(x))
  {
    var h := RoundHalfEven(x);
    RoundSign(x);
    ParsePrinted(x < 0.0, if h < 0 then -h else h);
  }

  /** The two rounded percentages of a row add up to exactly 100.00: when
      `100 q` sits half-way, `100 (100 - q)` does too, and the two even
      neighbours still add up to 10000. */
  lemma {:induction false} RoundedComplement(q: real)
    ensures RoundHalfEven(q) + RoundHalfEven(100.0 - q) == 10000
  {
    var h := RoundHalfEven(q);
    RoundNearest(q);
    RoundUnique(100.0 - q, 10000 - h);
  }

  /** A zero or missing total prints `0,00%` and `100,00%`. */
  lemma {:induction false} ZeroTotalPercents()
    ensures FormatPct(0.0) == "0,00%" && FormatPct(100.0 - 0.0) == "100,00%"
  {
    RoundUnique(0.0, 0);
    RoundUnique(100.0, 10000);
    assert NatText(100) == "100";
  }

  // ---------------------------------------------------------------------
  // The pass.

  /** One row after the pass, given the pivot table of all rows: the two
      quantities coerced, the grouped total merged in (missing when the
      pivot has no entry), the percentages derived from it. */
  function RecomputeRow(r: Row, pivot: map<Value, int>): Row {
    var stock := Numeric(r.existencia);
    var total := if r.codigo in pivot then Int(pivot[r.codigo]) else Null;
    var q := Share(stock, total);
    r.(inicial := Int(Numeric(r.inicial)), existencia := Int(stock), agrupada := total,
       queda := Str(FormatPct(q)), vendido := Str(FormatPct(100.0 - q)))
  }

  /** `_recompute_with_pivot(df)`: a missing or empty table comes back as
      it is; otherwise every row is recomputed against the pivot of all the
      rows given. */
  function RecomputeWithPivot(df: Option<seq<Row>>): (r: Option<seq<Row>>)
    ensures r.Some? <==> df.Some?
    ensures r.Some? ==> |r.value| == |df.value|
  {
    if df.None? || |df.value| == 0 then df
    else
      var rows := df.value;
      var pivot := Pivot(rows);
      Some(seq(|rows|, i requires 0 <= i < |rows| => RecomputeRow(rows[i], pivot)))
  }

  /** What the pass computes for row `i`, stated against the reference
      sum: each row keeps its code, its other columns and its place; its
      grouped total is the sum over all given rows with the same code (and
      missing for a missing code); `Queda` is the stock as a share of that
      total, 0 when the total is 0 or missing, and `Vendido` is the rest of
      100. */
  lemma {:induction false} RecomputeRows(df: Option<seq<Row>>, i: int)
    requires df.Some? && |df.value| > 0 && 0 <= i < |df.value|
    ensures var r := df.value[i];
      var o := RecomputeWithPivot(df).value[i];
      var total := if r.codigo == Null then Null else Int(GroupSum(df.value, r.codigo));
      var q := if total.Int? && total.n != 0
        then (Numeric(r.existencia) * 100) as real / total.n as real else 0.0;
      && o.codigo == r.codigo && o.others == r.others
      && o.inicial == Int(Numeric(r.inicial)) && o.existencia == Int(Numeric(r.existencia))
      && o.agrupada == total
      && o.queda == Str(FormatPct(q)) && o.vendido == Str(FormatPct(100.0 - q))
  {
    var rows := df.value;
    var p := Pivot(rows);
    var r := rows[i];
    assert RecomputeWithPivot(df).value[i] == RecomputeRow(r, p);
    var total := if r.codigo == Null then Null else Int(GroupSum(rows, r.codigo));
    assert (if r.codigo in p then Int(p[r.codigo]) else Null) == total by {
      PivotIsGroupSum(rows);
      assert HasCode(rows, r.codigo);
    }
  }

  /** An empty or missing table is returned unchanged. */
  lemma {:induction false} RecomputeEmpty(df: Option<seq<Row>>)
    requires df.None? || |df.value| == 0
    ensures RecomputeWithPivot(df) == df
  {
  }

  /** The printed percentages of every recomputed row read back to two
      numbers that add up to exactly 100.00. */
  lemma {:induction false} RecomputePercentsSum(df: Option<seq<Row>>, i: int)
    requires df.Some? && |df.value| > 0 && 0 <= i < |df.value|
    ensures var o := RecomputeWithPivot(df).value[i];
      && o.queda.Str? && o.vendido.Str?
      && ParsePct(o.queda.s).Some? && ParsePct(o.vendido.s).Some?
      && ParsePct(o.queda.s).value + ParsePct(o.vendido.s).value == 10000
  {
    var rows := df.value;
    assert RecomputeWithPivot(df).value[i] == RecomputeRow(rows[i], Pivot(rows));
    RowPercentsSum(rows[i], Pivot(rows));
  }

  lemma {:induction false} RowPercentsSum(r: Row, pivot: map<Value, int>)
    ensures var o := RecomputeRow(r, pivot);
      && o.queda.Str? && o.vendido.Str?
      && ParsePct(o.queda.s).Some? && ParsePct(o.vendido.s).Some?
      && ParsePct(o.queda.s).value + ParsePct(o.vendido.s).value == 10000
  {
    var total := if r.codigo in pivot then Int(pivot[r.codigo]) else Null;
    var q := Share(Numeric(r.existencia), total);
    var o := RecomputeRow(r, pivot);
    assert o.queda == Str(FormatPct(q)) && o.vendido == Str(FormatPct(100.0 - q));
    PairSum(q);
  }

  /** A share and the rest of 100, printed and read back, add up to 100.00. */
  lemma {:induction false} PairSum(q: real)
    ensures ParsePct(FormatPct(q)).Some? && ParsePct(FormatPct(100.0 - q)).Some?
    ensures ParsePct(FormatPct(q)).value + ParsePct(FormatPct(100.0 - q)).value == 10000
  {
    assert ParsePct(FormatPct(q)) == Some(RoundHalfEven(q)) by {
      FormatPctRoundTrip(q);
    }
    assert ParsePct(FormatPct(100.0 - q)) == Some(RoundHalfEven(100.0 - q)) by {
      FormatPctRoundTrip(100.0 - q);
    }
    RoundedComplement(q);
  }

  /** Running the pass on its own output changes nothing: the coerced
      quantities read back as themselves, so the totals and percentages
      come out the same. */
  lemma {:induction false} RecomputeIdempotent(df: Option<seq<Row>>)
    ensures RecomputeWithPivot(RecomputeWithPivot(df)) == RecomputeWithPivot(df)
  {
    if df.Some? && |df.value| > 0 {
      var rows := df.value;
      var p := Pivot(rows);
      var out := seq(|rows|, i requires 0 <= i < |rows| => RecomputeRow(rows[i], p));
      assert RecomputeWithPivot(df) == Some(out);
      forall i | 0 <= i < |out|
        ensures out[i].codigo == rows[i].codigo && Numeric(out[i].inicial) == Numeric(rows[i].inicial)
      {
      }
      PivotSame(out, rows);
      var again := seq(|out|, i requires 0 <= i < |out| => RecomputeRow(out[i], p));
      assert RecomputeWithPivot(Some(out)) == Some(again);
      forall i | 0 <= i < |out| ensures again[i] == out[i] {
        RowTwice(rows[i], p);
      }
      assert again == out;
    }
  }

  /** A recomputed row is its own recomputation against the same pivot. */
  lemma {:induction false} RowTwice(r: Row, p: map<Value, int>)
    ensures RecomputeRow(RecomputeRow(r, p), p) == RecomputeRow(r, p)
  {
  }
}
