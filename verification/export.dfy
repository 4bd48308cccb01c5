/** Export normalisation (`utils/helpers.py`): the zero-padding of the code
    columns, the Excel text-cell quoting, the choice of format, the writer
    picked by the file extension, and the pairing of tree-view rows with
    their column names. */
module Export {
  import opened Wrappers
  import opened Text
  import opened Recompute

  // ---------------------------------------------------------------------
  // Code columns.

  /** `n` zero digits. */
  function Zeros(n: nat): (r: string)
    ensures |r| == n
    ensures forall i :: 0 <= i < n ==> r[i] == '0'
  {
    seq(n, _ => '0')
  }

  /** `s.zfill(w)`: zeros are put in front up to width `w`, after a leading
      sign if there is one; text already that wide is kept. */
  function ZFill(s: string, w: nat): (r: string)
    ensures |r| == if |s| >= w then |s| else w
    ensures |s| > 1 || (|s| == 1 && s[0] != '+' && s[0] != '-') ==> r[|r| - 1] == s[|s| - 1]
    ensures |r| > 0 ==> r[0] == '0' || (|s| > 0 && r[0] == s[0])
  {
    if |s| >= w then s
    else if |s| > 0 && (s[0] == '+' || s[0] == '-') then [s[0]] + Zeros(w - |s|) + s[1..]
    else Zeros(w - |s|) + s
  }

  lemma {:induction false} ZerosValue(n: nat)
    ensures DigitsValue(Zeros(n)) == 0
  {
    if n > 0 {
      assert Zeros(n)[..n - 1] == Zeros(n - 1);
      ZerosValue(n - 1);
    }
  }

  /** Leading zeros do not change the value of a run of digits. */
  lemma {:induction false} LeadingZeros(n: nat, d: string)
    requires forall i :: 0 <= i < |d| ==> IsDigit(d[i])
    ensures forall i :: 0 <= i < n + |d| ==> IsDigit((Zeros(n) + d)[i])
    ensures DigitsValue(Zeros(n) + d) == DigitsValue(d)
    decreases |d|
  {
    var t := Zeros(n) + d;
    if |d| == 0 {
      assert t == Zeros(n);
      ZerosValue(n);
    } else {
      assert t[..|t| - 1] == Zeros(n) + d[..|d| - 1];
      assert t[|t| - 1] == d[|d| - 1];
      LeadingZeros(n, d[..|d| - 1]);
    }
  }

  /** Zero-padding integer text keeps its value, sign included. */
  lemma {:induction false} ZFillValue(s: string, w: nat)
    requires ParseInt(s).Some?
    ensures ParseInt(ZFill(s, w)) == ParseInt(s)
  {
    if |s| < w {
      if s[0] == '+' || s[0] == '-' {
        assert s == [s[0]] + s[1..];
        SignedPad(s[0], s[1..], w - |s|);
      } else {
        PlainPad(s, w - |s|);
      }
    }
  }

  lemma {:induction false} SignedPad(c: char, body: string, m: nat)
    requires c == '+' || c == '-'
    requires ParseInt([c] + body).Some?
    ensures ParseInt([c] + Zeros(m) + body) == ParseInt([c] + body)
  {
    var s, r := [c] + body, [c] + Zeros(m) + body;
    assert s[1..] == body && r[1..] == Zeros(m) + body;
    assert |body| >= 1 && forall i :: 0 <= i < |body| ==> IsDigit(body[i]);
    LeadingZeros(m, body);
  }

  lemma {:induction false} PlainPad(d: string, m: nat)
    requires ParseInt(d).Some? && d[0] != '+' && d[0] != '-'
    ensures ParseInt(Zeros(m) + d) == ParseInt(d)
  {
    assert forall i :: 0 <= i < |d| ==> IsDigit(d[i]);
    LeadingZeros(m, d);
    if m > 0 {
      assert (Zeros(m) + d)[0] == '0';
    }
  }

  /** `fillna("").astype(str)` for one cell. */
  function FillText(v: Value): string {
    match v
    case Null => ""
    case Int(n) => IntText(n)
    case Str(s) => s
  }

  /** The width the code columns are padded to. */
  const CodeWidth := 4

  /** A code cell as both writers store it: filled, padded to four
      characters, then stripped. */
  function NormalizeCode(v: Value): string {
    Strip(ZFill(FillText(v), CodeWidth))
  }

  /** A missing code is written as four zeros. */
  lemma {:induction false} NullCode()
    ensures NormalizeCode(Null) == "0000"
  {
    var z := ZFill("", CodeWidth);
    assert z == Zeros(4);
    StripNoop(z);
    assert z == "0000";
  }

  /** An integer code keeps its value: the written text reads back as the
      same integer, and it is at least four characters wide. */
  lemma {:induction false} IntCode(n: int)
    ensures ParseInt(NormalizeCode(Int(n))) == Some(n)
    ensures |NormalizeCode(Int(n))| >= CodeWidth
  {
    var t := IntText(n);
    var z := ZFill(t, CodeWidth);
    IntTextRoundTrip(n);
    ZFillValue(t, CodeWidth);
    assert !IsDigit(t[0]) ==> t[0] == '-';
    assert IsDigit(t[|t| - 1]) by {
      if n < 0 {
        assert t[|t| - 1] == NatText(-n)[|NatText(-n)| - 1];
      }
    }
    StripNoop(z);
  }

  /** Text already four characters wide is only stripped. */
  lemma {:induction false} WideCode(s: string)
    requires |s| >= CodeWidth
    ensures NormalizeCode(Str(s)) == Strip(s)
  {
  }

  // ---------------------------------------------------------------------
  // Excel text cells.

  /** `s.replace('"', '""')`. */
  function Doubled(s: string): string {
    Replace(s, "\"", "\"\"")
  }

  /** A formula that yields `v` as text: `="` + `v` with its quotes
      doubled + `"`. */
  function Quote(v: string): string {
    "=\"" + Doubled(v) + "\""
  }

  /** The cell the Excel writer leaves for a code: its stripped text,
      quoted. */
  function ExcelCell(v: string): string {
    Quote(Strip(v))
  }

  /** The text inside a quoted formula: every `""` back to `"`; a lone `"`
      is malformed. */
  function Undoubled(t: string): Option<string>
    decreases |t|
  {
    if |t| == 0 then Some("")
    else if t[0] != '"' then
      match Undoubled(t[1..])
      case None => None
      case Some(rest) => Some([t[0]] + rest)
    else if |t| >= 2 && t[1] == '"' then
      match Undoubled(t[2..])
      case None => None
      case Some(rest) => Some("\"" + rest)
    else None
  }

  /** The text a cell written by `Quote` stands for. */
  function ReadCell(c: string): Option<string> {
    if |c| >= 3 && c[0] == '=' && c[1] == '"' && c[|c| - 1] == '"' then Undoubled(c[2..|c| - 1])
    else None
  }

  lemma {:induction false} DoubledQuote(rest: string)
    ensures Doubled("\"" + rest) == "\"\"" + Doubled(rest)
  {
    ReplaceFront(rest, "\"", "\"\"");
  }

  lemma {:induction false} DoubledOther(c: char, rest: string)
    requires c != '"'
    ensures Doubled([c] + rest) == [c] + Doubled(rest)
  {
    assert !StartsAt([c] + rest, 0, "\"") by {
      StartsAtChar([c] + rest, 0, "\"", 0);
    }
    ReplaceSkip([c], rest, "\"", "\"\"");
  }

  /** Un-doubling what was doubled gives the text back. */
  lemma {:induction false} UndoubledDoubled(x: string)
    ensures Undoubled(Doubled(x)) == Some(x)
    decreases |x|
  {
    if |x| == 0 {
      assert Doubled(x) == "";
    } else {
      var rest := x[1..];
      assert x == [x[0]] + rest;
      UndoubledDoubled(rest);
      if x[0] == '"' {
        DoubledQuote(rest);
        var t := Doubled(x);
        assert t[2..] == Doubled(rest);
      } else {
        DoubledOther(x[0], rest);
        var t := Doubled(x);
        assert t[1..] == Doubled(rest);
      }
    }
  }

  /** Only the doubling of `v` un-doubles to `v`. */
  lemma {:induction false} DoubledUndoubled(t: string, v: string)
    requires Undoubled(t) == Some(v)
    ensures Doubled(v) == t
    decreases |t|
  {
    if |t| > 0 {
      if t[0] != '"' {
        var rest := Undoubled(t[1..]).value;
        DoubledUndoubled(t[1..], rest);
        DoubledOther(t[0], rest);
        assert t == [t[0]] + t[1..];
      } else {
        var rest := Undoubled(t[2..]).value;
        DoubledUndoubled(t[2..], rest);
        DoubledQuote(rest);
        assert t == "\"\"" + t[2..];
      }
    }
  }

  /** Reading an Excel code cell gives back the stripped code. */
  lemma {:induction false} ExcelRoundTrip(v: string)
    ensures ReadCell(ExcelCell(v)) == Some(Strip(v))
  {
    var d := Doubled(Strip(v));
    var c := ExcelCell(v);
    assert c[2..|c| - 1] == d;
    UndoubledDoubled(Strip(v));
  }

  /** A cell that reads as `v` is exactly the quoting of `v`: the quoting is
      a one-to-one correspondence between texts and well-formed cells. */
  lemma {:induction false} ReadCellExact(c: string, v: string)
    ensures ReadCell(c) == Some(v) <==> c == Quote(v)
  {
    if ReadCell(c) == Some(v) {
      var t := c[2..|c| - 1];
      DoubledUndoubled(t, v);
      assert c == "=\"" + t + "\"";
    }
    if c == Quote(v) {
      assert c[2..|c| - 1] == Doubled(v);
      UndoubledDoubled(v);
    }
  }

  // ---------------------------------------------------------------------
  // Format and writer.

  datatype Format = Csv | Xlsx

  /** The answer to the format question. */
  datatype Choice = Cancelled | Invalid | Chosen(format: Format)

  function FormatName(f: Format): string {
    match f
    case Csv => "csv"
    case Xlsx => "xlsx"
  }

  /** No answer (or an empty one) cancels; otherwise the trimmed,
      lower-cased answer must name a format. */
  function ChooseFormat(answer: Option<string>): (c: Choice)
    ensures c == Cancelled <==> answer.None? || answer.value == ""
  {
    if answer.None? || answer.value == "" then Cancelled
    else
      var f := Lower(Strip(answer.value));
      if f == FormatName(Csv) then Chosen(Csv)
      else if f == FormatName(Xlsx) then Chosen(Xlsx)
      else Invalid
  }

  /** The extension the save dialog proposes for a format. */
  function DefaultExtension(f: Format): string {
    "." + FormatName(f)
  }

  /** An answer picks a format exactly when its trimmed, lower-cased form is
      that format's name. */
  lemma {:induction false} ChooseFormatExact(s: string, f: Format)
    ensures ChooseFormat(Some(s)) == Chosen(f) <==> Lower(Strip(s)) == FormatName(f)
  {
    if s == "" {
      assert Lower(Strip(s)) == "";
    }
  }

  /** Surrounding whitespace and letter case do not change the answer. */
  lemma {:induction false} ChooseFormatNormal(s: string)
    requires !Blank(s)
    ensures ChooseFormat(Some(s)) == ChooseFormat(Some(Lower(Strip(s))))
  {
    var t := Strip(s);
    var l := Lower(t);
    assert Strip(l) == l by {
      assert l[0] == LowerChar(t[0]) && l[|l| - 1] == LowerChar(t[|t| - 1]);
      StripNoop(l);
    }
    assert Lower(Strip(l)) == l by {
      LowerTwice(t);
    }
    SameAnswer(s, l);
  }

  /** Answers that normalise alike are read alike. */
  lemma {:induction false} SameAnswer(a: string, b: string)
    requires a != "" && b != "" && Lower(Strip(a)) == Lower(Strip(b))
    ensures ChooseFormat(Some(a)) == ChooseFormat(Some(b))
  {
  }

  lemma {:induction false} LowerTwice(t: string)
    ensures Lower(Lower(t)) == Lower(t)
  {
    var l := Lower(t);
    forall i | 0 <= i < |t| ensures Lower(l)[i] == l[i] {
      assert l[i] == LowerChar(t[i]);
    }
  }

  /** The writer a file name selects. */
  datatype Writer = CsvWriter | ExcelWriter | Unsupported

  function Last<T>(s: seq<T>): T
    requires |s| > 0
  {
    s[|s| - 1]
  }

  /** `path.lower().split('.')[-1]`. */
  function Extension(path: string): string {
    Last(Split(Lower(path), '.'))
  }

  /** `csv` writes CSV, `xls` and `xlsx` write Excel, anything else is
      refused. */
  function Dispatch(path: string): Writer {
    var e := Extension(path);
    if e == "csv" then CsvWriter
    else if e == "xls" || e == "xlsx" then ExcelWriter
    else Unsupported
  }

  /** What an interactive export ends in. */
  datatype Outcome = NoFormat | BadFormat | NoPath | BadExtension | Written(writer: Writer)

  /** `export_data_interactive`: the format question, the save dialog
      (`path` is what it returned, empty when cancelled), then the writer
      picked by the extension. */
  function ExportInteractive(answer: Option<string>, path: string): Outcome {
    match ChooseFormat(answer)
    case Cancelled => NoFormat
    case Invalid => BadFormat
    case Chosen(_) =>
      if path == "" then NoPath
      else if Dispatch(path) == Unsupported then BadExtension
      else Written(Dispatch(path))
  }

  /** Something is written exactly when a format was accepted, a path was
      given and its extension names a writer; the accepted format only
      shapes the dialog, never the writer. */
  lemma {:induction false} ExportOutcome(answer: Option<string>, answer': Option<string>, path: string)
    ensures ExportInteractive(answer, path).Written?
        <==> ChooseFormat(answer).Chosen? && path != "" && Dispatch(path) != Unsupported
    ensures ExportInteractive(answer, path).Written? ==> ExportInteractive(answer, path).writer == Dispatch(path)
    ensures ChooseFormat(answer).Chosen? && ChooseFormat(answer').Chosen?
        ==> ExportInteractive(answer, path) == ExportInteractive(answer', path)
  {
  }

  /** Splitting on a separator ends with what follows its last
      occurrence. */
  lemma {:induction false} SplitLast(a: string, sep: char, e: string)
    requires sep !in e
    ensures Last(Split(a + [sep] + e, sep)) == e
  {
    var s := a + [sep] + e;
    assert s[|a|] == sep;
    var pre := SplitTail(s, sep);
    TailUnique(s, sep, pre, Last(Split(s, sep)), a, e);
  }

  /** What follows the last separator is determined by the text. */
  lemma {:induction false} TailUnique(l: string, sep: char, a: string, e: string, b: string, f: string)
    requires l == a + [sep] + e && sep !in e
    requires l == b + [sep] + f && sep !in f
    ensures e == f
  {
    var p, q := |a|, |b|;
    assert l[p] == sep && l[q] == sep;
    assert forall k :: p < k < |l| ==> l[k] != sep by {
      forall k | p < k < |l| ensures l[k] != sep {
        assert l[k] == e[k - p - 1];
      }
    }
    assert forall k :: q < k < |l| ==> l[k] != sep by {
      forall k | q < k < |l| ensures l[k] != sep {
        assert l[k] == f[k - q - 1];
      }
    }
    LastSep(l, sep, p, q);
    assert e == l[p + 1..] == f;
  }

  lemma {:induction false} LowerConcat(a: string, b: string)
    ensures Lower(a + b) == Lower(a) + Lower(b)
  {
    var l, r := Lower(a + b), Lower(a) + Lower(b);
    forall i | 0 <= i < |a + b| ensures l[i] == r[i] {
      if i < |a| {
        assert r[i] == Lower(a)[i];
      } else {
        assert r[i] == Lower(b)[i - |a|];
      }
    }
  }

  lemma {:induction false} LowerKeepsDot(e: string)
    ensures '.' in Lower(e) <==> '.' in e
  {
    var l := Lower(e);
    if '.' in e {
      var k :| 0 <= k < |e| && e[k] == '.';
      assert l[k] == '.';
    }
    if '.' in l {
      var k :| 0 <= k < |l| && l[k] == '.';
      assert LowerChar(e[k]) == '.';
    }
  }

  /** The extension is the lower-cased text after the last dot. */
  lemma {:induction false} ExtensionOf(base: string, ext: string)
    requires '.' !in ext
    ensures Extension(base + "." + ext) == Lower(ext)
  {
    LowerConcat(base + ".", ext);
    LowerConcat(base, ".");
    assert Lower(".") == ".";
    LowerKeepsDot(ext);
    SplitLast(Lower(base), '.', Lower(ext));
  }

  /** The main window's export picks CSV when the lower-cased path ends in
      `.csv` and Excel otherwise; it never refuses a path. */
  function ViewWriter(path: string): (w: Writer)
    ensures w != Unsupported
  {
    if EndsWith(Lower(path), ".csv") then CsvWriter else ExcelWriter
  }

  /** For a path with a dot, the two exports agree on when CSV is
      written. */
  lemma {:induction false} ViewAgrees(path: string)
    requires '.' in path
    ensures Dispatch(path) == CsvWriter <==> ViewWriter(path) == CsvWriter
  {
    var l := Lower(path);
    LowerKeepsDot(path);
    var pre := SplitTail(l, '.');
    assert ".csv" == "." + "csv";
    DotTail(pre, Extension(path), l, "csv");
  }

  /** A text with the separator is what precedes its last piece, the
      separator, and that piece. */
  lemma {:induction false} SplitTail(l: string, sep: char) returns (pre: string)
    requires sep in l
    ensures l == pre + [sep] + Last(Split(l, sep))
  {
    var parts := Split(l, sep);
    var n := |parts|;
    assert n > 1;
    pre := Join(parts[..n - 1], [sep]);
    assert parts == parts[..n - 1] + [parts[n - 1]];
    JoinSnoc(parts[..n - 1], parts[n - 1], [sep]);
  }

  /** A separator with none after it is the last one: there is only one. */
  lemma {:induction false} LastSep(l: string, sep: char, p: nat, q: nat)
    requires p < |l| && q < |l| && l[p] == sep && l[q] == sep
    requires forall k :: p < k < |l| ==> l[k] != sep
    requires forall k :: q < k < |l| ==> l[k] != sep
    ensures p == q
  {
  }

  /** When `e` follows the last dot, the text ends with `.w` exactly when
      `e` is `w`. */
  lemma {:induction false} DotTail(pre: string, e: string, l: string, w: string)
    requires l == pre + "." + e && '.' !in e && '.' !in w
    ensures EndsWith(l, "." + w) <==> e == w
  {
    var m := |l|;
    if e == w {
      assert l[m - |w| - 1..] == "." + e;
    }
    if EndsWith(l, "." + w) {
      var b := l[..m - |w| - 1];
      assert l == b + "." + w by {
        assert l[m - |w| - 1..] == "." + w;
      }
      TailUnique(l, '.', pre, e, b, w);
    }
  }

  /** A bare `csv` without a dot: the interactive export writes CSV, the
      main window's export writes Excel. */
  lemma {:induction false} ViewDiffers()
    ensures Dispatch("csv") == CsvWriter && ViewWriter("csv") == ExcelWriter
  {
    assert Lower("csv") == "csv";
    assert '.' !in "csv";
    assert Split("csv", '.') == ["csv"];
  }

  // ---------------------------------------------------------------------
  // Tree-view rows.

  /** `obtener_datos_treeview`: one record per row, in order. */
  function TreeRecords(cols: seq<string>, rows: seq<seq<Value>>): (r: seq<map<string, Value>>)
    ensures |r| == |rows|
  {
    seq(|rows|, i requires 0 <= i < |rows| => ZipDict(cols, rows[i]))
  }

  /** Reading a record back in column order gives the row: the table rebuilt
      from the records with the same columns is the one shown. */
  lemma {:induction false} RecordRoundTrip(cols: seq<string>, vals: seq<Value>)
    requires Distinct(cols) && |vals| == |cols|
    ensures forall i :: 0 <= i < |cols| ==> cols[i] in ZipDict(cols, vals)
    ensures seq(|cols|, i requires 0 <= i < |cols| && cols[i] in ZipDict(cols, vals) => ZipDict(cols, vals)[cols[i]]) == vals
  {
    forall i | 0 <= i < |cols| ensures cols[i] in ZipDict(cols, vals) && ZipDict(cols, vals)[cols[i]] == vals[i] {
      ZipDictAt(cols, vals, i);
    }
  }
}
