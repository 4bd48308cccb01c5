/** The pure parts of the main window (`views/main_view.py`): the search
    boxes read as filters, the check and projection of the columns a query
    returned, the client-side exclusion of receiving codes, and the trimming
    of the code columns before an export. The query itself is not modelled:
    the table it returned is a parameter. */
module Client {
  import opened Wrappers
  import opened Text
  import opened Exclusion
  import opened Assembly
  import opened Recompute
  import opened Export

  /** A result table: column names and rows of cells. */
  datatype Table = Table(columns: seq<string>, rows: seq<seq<Value>>)

  /** Every row has `n` cells. */
  predicate Widths(rows: seq<seq<Value>>, n: nat) {
    forall i :: 0 <= i < |rows| ==> |rows[i]| == n
  }

  /** Every row has one cell per column. */
  predicate WellFormed(t: Table) {
    Widths(t.rows, |t.columns|)
  }

  /** `df.empty`: no rows or no columns. */
  predicate IsEmpty(t: Table) {
    |t.rows| == 0 || |t.columns| == 0
  }

  /** The columns the window shows, in order. */
  const DesiredCols: seq<string> := [
    "CodigoBarra", "Referencia", "CodigoMarca", "Marca", "Nombre",
    "Nombre_Fabricante", "CodigoFabricante", "CategoriaCodigo", "CategoriaNombre",
    "Linea", "CantidadInicial", "Cantidad_Inicial_Agrupada", "ExistenciaActual",
    "correccion", "NumeroTransferencia", "FechaLlegada", "observacion",
    "CodigoRecibe", "Queda", "Vendido"]

  // ---------------------------------------------------------------------
  // Columns.

  /** `[c for c in want if c not in have]`. */
  function Missing(want: seq<string>, have: seq<string>): seq<string>
    decreases |want|
  {
    if |want| == 0 then []
    else (if want[0] in have then [] else [want[0]]) + Missing(want[1..], have)
  }

  /** The missing columns are exactly the wanted ones the table lacks. */
  lemma {:induction false} MissingExactly(want: seq<string>, have: seq<string>)
    ensures forall c :: c in Missing(want, have) <==> c in want && c !in have
    decreases |want|
  {
    if |want| > 0 {
      MissingExactly(want[1..], have);
      assert want == [want[0]] + want[1..];
    }
  }

  /** Python's `repr` of a list of names. */
  function NamesRepr(names: seq<string>): string {
    "[" + Join(seq(|names|, i requires 0 <= i < |names| => "'" + names[i] + "'"), ", ") + "]"
  }

  /** `df[want]`: the named columns, in the order asked for. */
  function Project(t: Table, want: seq<string>): Table
    requires WellFormed(t)
    requires forall j :: 0 <= j < |want| ==> want[j] in t.columns
  {
    Table(want, seq(|t.rows|, i requires 0 <= i < |t.rows| =>
      seq(|want|, j requires 0 <= j < |want| => t.rows[i][Position(t.columns, want[j])])))
  }

  /** The column check of `import_cruce`: an empty result becomes an empty
      table with the wanted columns, a result lacking one of them is an
      error, and anything else is projected onto them. */
  function ImportTable(df: Table, want: seq<string>): Result<Table>
    requires WellFormed(df)
  {
    if IsEmpty(df) then Success(Table(want, []))
    else
      var m := Missing(want, df.columns);
      if |m| > 0 then Failure("Faltan columnas en el resultado SQL: " + NamesRepr(m))
      else
        MissingExactly(want, df.columns);
        Success(Project(df, want))
  }

  /** The import fails exactly when a non-empty result lacks a wanted
      column; otherwise the table has the wanted columns, and each cell is
      the one the result held under the same name in the same row. */
  lemma {:induction false} ImportFacts(df: Table, want: seq<string>)
    requires WellFormed(df) && Distinct(df.columns)
    ensures ImportTable(df, want).Failure?
        <==> !IsEmpty(df) && exists c :: c in want && c !in df.columns
    ensures ImportTable(df, want).Success? ==> ImportTable(df, want).value.columns == want
    ensures ImportTable(df, want).Success? && IsEmpty(df) ==> ImportTable(df, want).value.rows == []
    ensures ImportTable(df, want).Success? && !IsEmpty(df) ==>
      var r := ImportTable(df, want).value;
      |r.rows| == |df.rows| && WellFormed(r)
      && forall i, j, k :: 0 <= i < |df.rows| && 0 <= j < |want| && 0 <= k < |df.columns| && df.columns[k] == want[j]
           ==> r.rows[i][j] == df.rows[i][k]
  {
    MissingExactly(want, df.columns);
    if |Missing(want, df.columns)| > 0 {
      assert Missing(want, df.columns)[0] in Missing(want, df.columns);
    }
    if !IsEmpty(df) && |Missing(want, df.columns)| == 0 {
      var r := Project(df, want);
      forall i, j, k | 0 <= i < |df.rows| && 0 <= j < |want| && 0 <= k < |df.columns| && df.columns[k] == want[j]
        ensures r.rows[i][j] == df.rows[i][k]
      {
        PositionAt(df.columns, k);
      }
    }
  }

  /** Importing an imported table again changes nothing. */
  lemma {:induction false} ImportTwice(df: Table, want: seq<string>)
    requires WellFormed(df) && Distinct(want) && |want| > 0 && ImportTable(df, want).Success?
    ensures WellFormed(ImportTable(df, want).value)
    ensures ImportTable(ImportTable(df, want).value, want) == ImportTable(df, want)
  {
    var r := ImportTable(df, want).value;
    MissingExactly(want, df.columns);
    if !IsEmpty(df) {
      assert r == Project(df, want);
      MissingNone(want, want);
      ProjectSelf(r);
    }
  }

  /** Nothing is missing from columns that hold every wanted one. */
  lemma {:induction false} MissingNone(want: seq<string>, have: seq<string>)
    requires forall j :: 0 <= j < |want| ==> want[j] in have
    ensures Missing(want, have) == []
    decreases |want|
  {
    if |want| > 0 {
      MissingNone(want[1..], have);
    }
  }

  /** Projecting a table onto its own columns gives it back. */
  lemma {:induction false} ProjectSelf(t: Table)
    requires WellFormed(t) && Distinct(t.columns)
    ensures Project(t, t.columns) == t
  {
    var p := Project(t, t.columns);
    forall i, j | 0 <= i < |t.rows| && 0 <= j < |t.columns| ensures p.rows[i][j] == t.rows[i][j] {
      PositionAt(t.columns, j);
    }
    SameCells(p, t);
  }

  /** Tables of one shape that agree cell by cell are equal. */
  lemma {:induction false} SameCells(a: Table, b: Table)
    requires WellFormed(a) && WellFormed(b) && a.columns == b.columns && |a.rows| == |b.rows|
    requires forall i, j :: 0 <= i < |a.rows| && 0 <= j < |a.columns| ==> a.rows[i][j] == b.rows[i][j]
    ensures a == b
  {
    forall i | 0 <= i < |a.rows| ensures a.rows[i] == b.rows[i] {
    }
  }

  // ---------------------------------------------------------------------
  // Search filters.

  /** The search boxes, as typed. */
  datatype Boxes = Boxes(codigo: string, referencia: string, categoria: string,
                         linea: string, fabrica: string, excluir: string)

  /** A box read as a filter: its stripped text, or `None` when that is
      empty. */
  function FilterValue(s: string): Option<string> {
    var t := Strip(s);
    if t == "" then None else Some(t)
  }

  /** The filters `buscar_datos` sends to the server: the five boxes read
      as filters, no exclusion (it is applied on the client) and no
      correction filter. */
  function SearchFilters(b: Boxes): Filters {
    Filters(FilterValue(b.codigo), FilterValue(b.referencia), FilterValue(b.categoria),
            FilterValue(b.linea), FilterValue(b.fabrica), None, false)
  }

  /** A box gives no filter exactly when it is blank, and the filter it
      gives is one the query builder applies; reading the filter's text
      again gives the same filter. */
  lemma {:induction false} FilterValueFacts(s: string)
    ensures FilterValue(s).None? <==> Blank(s)
    ensures Given(FilterValue(s)) <==> !Blank(s)
    ensures FilterValue(s).Some? ==> FilterValue(FilterValue(s).value) == FilterValue(s)
  {
    var t := Strip(s);
    if t != "" {
      StripNoop(t);
    }
  }

  /** The server is asked for every non-blank box and for nothing else. */
  lemma {:induction false} SearchFiltersFacts(b: Boxes)
    ensures var f := SearchFilters(b);
      && (Given(f.codigo) <==> !Blank(b.codigo))
      && (Given(f.referencia) <==> !Blank(b.referencia))
      && (Given(f.categoria) <==> !Blank(b.categoria))
      && (Given(f.linea) <==> !Blank(b.linea))
      && (Given(f.fabrica) <==> !Blank(b.fabrica))
      && ExcludedCodes(f.excluir) == [] && !f.correccion
  {
    FilterValueFacts(b.codigo);
    FilterValueFacts(b.referencia);
    FilterValueFacts(b.categoria);
    FilterValueFacts(b.linea);
    FilterValueFacts(b.fabrica);
  }

  // ---------------------------------------------------------------------
  // Client-side exclusion.

  /** The column the exclusion looks at. */
  const RecibeColumn := "CodigoRecibe"

  /** `str(v)` for a cell of a text column: a missing value prints as
      `None`. */
  function CellText(v: Value): string {
    match v
    case Null => "None"
    case Int(n) => IntText(n)
    case Str(s) => s
  }

  /** The text a conversion column holds after `astype(str).str.strip()`. */
  function Trimmed(v: Value): Value {
    Str(Strip(CellText(v)))
  }

  /** Trimming twice is trimming once. */
  lemma {:induction false} TrimmedTwice(v: Value)
    ensures Trimmed(Trimmed(v)) == Trimmed(v)
  {
    StripNoop(Strip(CellText(v)));
  }

  /** The row with its code cell trimmed. */
  function Retexted(row: seq<Value>, k: nat): seq<Value>
    requires k < |row|
  {
    row[k := Trimmed(row[k])]
  }

  /** A row goes when its trimmed, upper-cased code is one of the codes. */
  predicate Dropped(row: seq<Value>, k: nat, codes: seq<string>)
    requires k < |row|
  {
    Upper(Strip(CellText(row[k]))) in codes
  }

  /** Whether a row of width above `k` stays. */
  function Stays(k: nat, codes: seq<string>): seq<Value> -> bool {
    row => !(k < |row| && Dropped(row, k, codes))
  }

  /** A row with its code cell trimmed. */
  function TrimCode(k: nat): seq<Value> -> seq<Value> {
    row => if k < |row| then Retexted(row, k) else row
  }

  /** `temp[~temp["CodigoRecibe"].str.upper().isin(codes)]`: the rows that
      stay, in order, each with its code cell trimmed. */
  function KeepRows(rows: seq<seq<Value>>, k: nat, codes: seq<string>): seq<seq<Value>> {
    FilterMap(rows, Stays(k, codes), TrimCode(k))
  }

  /** Trimming keeps every row's width. */
  lemma {:induction false} KeepWidths(rows: seq<seq<Value>>, k: nat, n: nat, codes: seq<string>)
    requires k < n && Widths(rows, n)
    ensures Widths(KeepRows(rows, k, codes), n)
  {
    FilterMapExact(rows, Stays(k, codes), TrimCode(k));
  }

  /** `out` holds exactly the rows of `rows` that are not dropped, in
      order, each with its code trimmed: the rows at the increasing
      positions `idx`. */
  predicate Picks(rows: seq<seq<Value>>, k: nat, n: nat, codes: seq<string>, out: seq<seq<Value>>, idx: seq<nat>)
    requires k < n && Widths(rows, n)
  {
    && |idx| == |out|
    && (forall j :: 0 <= j < |idx| ==> idx[j] < |rows| && out[j] == Retexted(rows[idx[j]], k))
    && (forall a, b :: 0 <= a < b < |idx| ==> idx[a] < idx[b])
    && (forall i :: 0 <= i < |rows| ==> (i in idx <==> !Dropped(rows[i], k, codes)))
  }

  /** The exclusion keeps exactly the rows whose code is not excluded, in
      their order, changing nothing in them but the trimmed code. */
  lemma {:induction false} KeepRowsExact(rows: seq<seq<Value>>, k: nat, n: nat, codes: seq<string>)
    requires k < n && Widths(rows, n)
    ensures exists idx :: Picks(rows, k, n, codes, KeepRows(rows, k, codes), idx)
  {
    var keep, f := Stays(k, codes), TrimCode(k);
    FilterMapExact(rows, keep, f);
    var idx :| Picked(rows, keep, f, KeepRows(rows, k, codes), idx);
    assert forall i :: 0 <= i < |rows| ==> keep(rows[i]) == !Dropped(rows[i], k, codes);
    assert forall i :: 0 <= i < |rows| ==> f(rows[i]) == Retexted(rows[i], k);
    assert Picks(rows, k, n, codes, KeepRows(rows, k, codes), idx);
  }

  /** Without codes every row stays, only its code trimmed. */
  lemma {:induction false} KeepAll(rows: seq<seq<Value>>, k: nat, n: nat)
    requires k < n && Widths(rows, n)
    ensures KeepRows(rows, k, []) == seq(|rows|, i requires 0 <= i < |rows| => Retexted(rows[i], k))
  {
    FilterMapAll(rows, Stays(k, []), TrimCode(k));
  }

  /** A kept row is kept again, unchanged. */
  lemma {:induction false} RetextedTwice(row: seq<Value>, k: nat, codes: seq<string>)
    requires k < |row|
    ensures Retexted(Retexted(row, k), k) == Retexted(row, k)
    ensures Dropped(Retexted(row, k), k, codes) == Dropped(row, k, codes)
  {
    TrimmedTwice(row[k]);
    StripNoop(Strip(CellText(row[k])));
  }

  lemma {:induction false} KeepTwice(rows: seq<seq<Value>>, k: nat, codes: seq<string>)
    ensures KeepRows(KeepRows(rows, k, codes), k, codes) == KeepRows(rows, k, codes)
  {
    var keep, f := Stays(k, codes), TrimCode(k);
    forall row | keep(row) ensures keep(f(row)) && f(f(row)) == f(row) {
      if k < |row| {
        RetextedTwice(row, k, codes);
      }
    }
    FilterMapTwice(rows, keep, f);
  }

  /** The exclusion step of `buscar_datos`, given the stripped exclusion
      box: nothing happens when it is empty or the table is, a table
      without the code column is kept with a warning (the flag), and
      otherwise the excluded rows go. */
  function ExcludeClient(t: Table, raw: string): (r: (Table, bool))
    requires WellFormed(t)
    ensures WellFormed(r.0) && r.0.columns == t.columns
  {
    if raw == "" || IsEmpty(t) then (t, false)
    else if RecibeColumn !in t.columns then (t, true)
    else
      var k := Position(t.columns, RecibeColumn);
      KeepWidths(t.rows, k, |t.columns|, ExclusionCodes(raw));
      (Table(t.columns, KeepRows(t.rows, k, ExclusionCodes(raw))), false)
  }

  /** Excluding again with the same text changes nothing. */
  lemma {:induction false} ExcludeTwice(t: Table, raw: string)
    requires WellFormed(t)
    ensures ExcludeClient(ExcludeClient(t, raw).0, raw).0 == ExcludeClient(t, raw).0
  {
    if raw != "" && !IsEmpty(t) && RecibeColumn in t.columns {
      KeepTwice(t.rows, Position(t.columns, RecibeColumn), ExclusionCodes(raw));
    }
  }

  /** A list of nothing but blank pieces names no code, so every row
      stays. */
  lemma {:induction false} BlankPieces(parts: seq<string>)
    requires |parts| >= 1 && forall i :: 0 <= i < |parts| ==> Blank(parts[i])
    ensures ExclusionCodes(Join(parts, ",")) == []
  {
    assert forall i :: 0 <= i < |parts| ==> ',' !in parts[i] by {
      forall i, j | 0 <= i < |parts| && 0 <= j < |parts[i]| ensures parts[i][j] != ',' {
        assert IsSpace(parts[i][j]);
      }
    }
    SplitJoin(parts, ',');
    BlankCodesOf(parts);
  }

  lemma {:induction false} BlankCodesOf(parts: seq<string>)
    requires forall i :: 0 <= i < |parts| ==> Blank(parts[i])
    ensures Codes(parts) == []
    decreases |parts|
  {
    if |parts| > 0 {
      BlankCodesOf(parts[1..]);
    }
  }

  /** `buscar_datos` once the server has answered with `df`: a non-empty
      answer is projected onto the shown columns (a missing one raises
      pandas' `KeyError`), then the exclusion box is applied. */
  function Search(b: Boxes, df: Table, want: seq<string>): Result<(Table, bool)>
    requires WellFormed(df)
  {
    var raw := Strip(b.excluir);
    if IsEmpty(df) then Success(ExcludeClient(df, raw))
    else
      var m := Missing(want, df.columns);
      if |m| > 0 then Failure(NamesRepr(m) + " not in index")
      else
        MissingExactly(want, df.columns);
        Success(ExcludeClient(Project(df, want), raw))
  }

  /** A search shows the imported table with the excluded rows gone: it
      fails exactly when the import does, and otherwise ends in the
      exclusion applied to the imported table (an empty answer stays as
      it is). */
  lemma {:induction false} SearchIsImportThenExclude(b: Boxes, df: Table, want: seq<string>)
    requires WellFormed(df)
    ensures Search(b, df, want).Failure? <==> ImportTable(df, want).Failure?
    ensures !IsEmpty(df) && ImportTable(df, want).Success? ==>
      WellFormed(ImportTable(df, want).value)
      && Search(b, df, want).value == ExcludeClient(ImportTable(df, want).value, Strip(b.excluir))
    ensures IsEmpty(df) ==> Search(b, df, want) == Success((df, false))
  {
  }

  // ---------------------------------------------------------------------
  // Export preparation.

  /** The code columns, which are written as text. */
  const CodeColumns: seq<string> := ["CodigoFabricante", "CategoriaCodigo", "CodigoBarra"]

  /** `df[c] = df[c].astype(str).str.strip()` when the column is there. */
  function TextColumn(t: Table, c: string): (r: Table)
    requires WellFormed(t)
    ensures WellFormed(r) && r.columns == t.columns && |r.rows| == |t.rows|
  {
    if c !in t.columns then t
    else
      var k := Position(t.columns, c);
      Table(t.columns, seq(|t.rows|, i requires 0 <= i < |t.rows| => t.rows[i][k := Trimmed(t.rows[i][k])]))
  }

  /** Each column of `cs` in turn. */
  function TextColumns(t: Table, cs: seq<string>): (r: Table)
    requires WellFormed(t)
    ensures WellFormed(r) && r.columns == t.columns && |r.rows| == |t.rows|
    decreases |cs|
  {
    if |cs| == 0 then t else TextColumns(TextColumn(t, cs[0]), cs[1..])
  }

  /** The copy `export_data` hands to the writers. */
  function ExportReady(t: Table): (r: Table)
    requires WellFormed(t)
  {
    TextColumns(t, CodeColumns)
  }

  /** A cell after the conversion: trimmed text when its column is one of
      `cs`, untouched otherwise. */
  predicate Converted(t: Table, r: Table, cs: seq<string>)
    requires WellFormed(t) && WellFormed(r) && r.columns == t.columns && |r.rows| == |t.rows|
  {
    forall i, k :: 0 <= i < |t.rows| && 0 <= k < |t.columns| ==>
      r.rows[i][k] == if t.columns[k] in cs then Trimmed(t.rows[i][k]) else t.rows[i][k]
  }

  lemma {:induction false} TextColumnCells(t: Table, c: string)
    requires WellFormed(t) && Distinct(t.columns)
    ensures Converted(t, TextColumn(t, c), [c])
  {
    var r := TextColumn(t, c);
    if c in t.columns {
      forall i, k | 0 <= i < |t.rows| && 0 <= k < |t.columns|
        ensures r.rows[i][k] == if t.columns[k] in [c] then Trimmed(t.rows[i][k]) else t.rows[i][k]
      {
        PositionAt(t.columns, k);
      }
    }
  }

  /** Only the named columns change, each cell to its trimmed text. */
  lemma {:induction false} TextColumnsCells(t: Table, cs: seq<string>)
    requires WellFormed(t) && Distinct(t.columns)
    ensures Converted(t, TextColumns(t, cs), cs)
    decreases |cs|
  {
    if |cs| > 0 {
      var u := TextColumn(t, cs[0]);
      var r := TextColumns(u, cs[1..]);
      TextColumnCells(t, cs[0]);
      TextColumnsCells(u, cs[1..]);
      forall i, k | 0 <= i < |t.rows| && 0 <= k < |t.columns|
        ensures r.rows[i][k] == if t.columns[k] in cs then Trimmed(t.rows[i][k]) else t.rows[i][k]
      {
        TrimmedTwice(t.rows[i][k]);
        assert t.columns[k] in cs <==> t.columns[k] in [cs[0]] || t.columns[k] in cs[1..] by {
          assert cs == [cs[0]] + cs[1..];
        }
      }
    }
  }

  /** Converting the same columns again changes nothing. */
  lemma {:induction false} TextColumnsTwice(t: Table, cs: seq<string>)
    requires WellFormed(t) && Distinct(t.columns)
    ensures TextColumns(TextColumns(t, cs), cs) == TextColumns(t, cs)
  {
    var r := TextColumns(t, cs);
    var s := TextColumns(r, cs);
    TextColumnsCells(t, cs);
    TextColumnsCells(r, cs);
    assert Converted(t, r, cs) && Converted(r, s, cs);
    forall i, k | 0 <= i < |t.rows| && 0 <= k < |t.columns| ensures s.rows[i][k] == r.rows[i][k] {
      TrimmedTwice(t.rows[i][k]);
      assert r.columns[k] == t.columns[k];
    }
    SameCells(s, r);
  }

  /** Preparing a prepared table again changes nothing. */
  lemma {:induction false} ExportReadyTwice(t: Table)
    requires WellFormed(t) && Distinct(t.columns)
    ensures ExportReady(ExportReady(t)) == ExportReady(t)
  {
    TextColumnsTwice(t, CodeColumns);
  }

  /** A missing code goes through the window's conversion as the text
      `None`, which the writers then keep as it is; written straight from
      the records it would have become `0000`. */
  lemma {:induction false} NullThroughWindow()
    ensures NormalizeCode(Trimmed(Null)) == "None"
    ensures NormalizeCode(Null) == "0000"
  {
    NullCode();
    StripNoop("None");
    assert Trimmed(Null) == Str("None");
    assert ZFill("None", CodeWidth) == "None";
  }

  /** What the export button ends in. */
  datatype ViewExport = NothingToExport | NoSavePath | Write(writer: Writer, table: Table)

  /** `export_data`: the filtered view if there is one, else the imported
      table; nothing to export when neither holds rows; otherwise the chosen
      path (empty when the dialog was cancelled) picks the writer. */
  function ExportData(view: Option<Table>, full: Option<Table>, path: string): ViewExport
    requires view.Some? ==> WellFormed(view.value)
    requires full.Some? ==> WellFormed(full.value)
  {
    var base := if view.Some? then view else full;
    if base.None? || IsEmpty(base.value) then NothingToExport
    else if path == "" then NoSavePath
    else Write(ViewWriter(path), ExportReady(base.value))
  }

  /** Something is written exactly when the table shown (or, without a
      view, the imported one) has rows and a path was chosen, and it is
      that table with only its code columns converted. */
  lemma {:induction false} ExportDataFacts(view: Option<Table>, full: Option<Table>, path: string)
    requires view.Some? ==> WellFormed(view.value) && Distinct(view.value.columns)
    requires full.Some? ==> WellFormed(full.value) && Distinct(full.value.columns)
    ensures var base := if view.Some? then view else full;
      && (ExportData(view, full, path).Write? <==> base.Some? && !IsEmpty(base.value) && path != "")
      && (ExportData(view, full, path).Write? ==>
            var w := ExportData(view, full, path).table;
            WellFormed(w) && w.columns == base.value.columns && |w.rows| == |base.value.rows|
            && Converted(base.value, w, CodeColumns))
  {
    var base := if view.Some? then view else full;
    if base.Some? && !IsEmpty(base.value) && path != "" {
      TextColumnsCells(base.value, CodeColumns);
    }
  }
}
