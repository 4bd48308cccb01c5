/** Assembling the final query and its parameters
    (`_build_full_sql_and_params`): the template is cleaned, the start date is
    written in as a literal, the reference filter is injected (or its markers
    dropped), the final SELECT is guarded with a WHERE, the filter conditions
    are appended with ` AND `, and a default ordering is added when the query
    has none. */
module Assembly {
  import opened Wrappers
  import opened Text
  import opened Keywords
  import opened Binds
  import opened FinalWhere
  import opened Exclusion
  import opened RefFilter

  /** The filters of a search. A text filter applies when it is given and
      not empty (Python's truthiness of the argument). */
  datatype Filters = Filters(
    codigo: Option<string>, referencia: Option<string>, categoria: Option<string>,
    linea: Option<string>, fabrica: Option<string>, excluir: Option<string>,
    correccion: bool)

  predicate Given(v: Option<string>) {
    v.Some? && v.value != ""
  }

  // ---------------------------------------------------------------------
  // The template part.

  /** The placeholder the template uses for the start date. */
  const FechaPattern := ":fechaStart"

  /** The start date chosen by the option. */
  function FechaStart(option: int): string {
    if option == 1 then "2023-01-01" else "2024-01-01"
  }

  /** The date as an SQL literal, which is written in place of the
      placeholder instead of being bound. */
  function FechaLiteral(option: int): string {
    "'" + FechaStart(option) + "'"
  }

  /** `query.strip().rstrip(';')`. */
  function Cleaned(template: string): string {
    RStripChar(Strip(template), ';')
  }

  /** The template with the date written in, the reference filter applied
      and the final SELECT guarded, together with the reference parameters. */
  function Prepared(template: string, option: int, ref: Option<string>): (r: (string, Params))
    ensures r.1.Keys <= {RefKey}
    ensures RefKey in r.1 <==> ref.Some? && !Blank(ref.value)
    ensures RefKey in r.1 ==> r.1[RefKey] == LikeValue(Lower(Strip(ref.value)))
    ensures Guarded(r.0)
  {
    var dated := Replace(Cleaned(template), FechaPattern, FechaLiteral(option));
    var (injected, refParams) := InjectRefFilter(dated, ref);
    var stripped := StripUnboundRefLike(injected, refParams);
    EnsureFinalWhereGuarded(stripped);
    (EnsureFinalWhere(stripped, FinalAlias), refParams)
  }

  // ---------------------------------------------------------------------
  // The filter conditions.

  /** An equality filter on a column of the final SELECT, bound to the
      parameter `key`. */
  datatype Column = Column(name: string, key: string)

  const Codigo := Column("CodigoBarra", "codigoFilter")
  const Categoria := Column("CategoriaNombre", "categoriaFilter")
  const Linea := Column("Linea", "lineaFilter")
  const Fabrica := Column("CodigoFabricante", "fabricaFilter")

  /** `Final2.<column> = :<key>`. */
  function Condition(c: Column): string {
    FinalAlias + "." + c.name + " = " + Placeholder(c.key)
  }

  /** The condition of the correction flag, which binds nothing. */
  const CorreccionCondition := FinalAlias + ".correccion = 0"

  /** One `if filter:` step: the condition and `params[key] = str(v).strip()`. */
  function AddColumn(conds: seq<string>, params: Params, c: Column, v: Option<string>): (r: (seq<string>, Params))
  {
    if Given(v) then (conds + [Condition(c)], params[c.key := Strip(v.value)]) else (conds, params)
  }

  /** The conditions and parameters of the four column filters, in the
      order codigo, categoria, linea, fabrica. */
  function ColumnFilters(f: Filters): (r: (seq<string>, Params))
  {
    var (c1, p1) := AddColumn([], map[], Codigo, f.codigo);
    var (c2, p2) := AddColumn(c1, p1, Categoria, f.categoria);
    var (c3, p3) := AddColumn(c2, p2, Linea, f.linea);
    AddColumn(c3, p3, Fabrica, f.fabrica)
  }

  /** The conditions and parameters of the final filters: the column
      filters, then correccion, then the exclusion. */
  function FinalConditions(f: Filters): (r: (seq<string>, Params))
  {
    var (c4, p4) := ColumnFilters(f);
    AddExclusion(if f.correccion then c4 + [CorreccionCondition] else c4, p4, f.excluir)
  }

  /** The codes the exclusion text names. */
  function ExcludedCodes(text: Option<string>): seq<string> {
    if text.Some? then ExclusionCodes(text.value) else []
  }

  /** Every condition the filters may call for, in a fixed order, each with
      whether it applies. */
  function Catalogue(f: Filters): seq<(bool, string)> {
    var codes := ExcludedCodes(f.excluir);
    [(Given(f.codigo), Condition(Codigo)), (Given(f.categoria), Condition(Categoria)),
     (Given(f.linea), Condition(Linea)), (Given(f.fabrica), Condition(Fabrica)),
     (f.correccion, CorreccionCondition), (codes != [], ExclusionClause(|codes|))]
  }

  /** The entries of a catalogue that apply, in order. */
  function Selected(cat: seq<(bool, string)>): seq<string> {
    if |cat| == 0 then [] else Selected(cat[..|cat| - 1]) + Pick(cat[|cat| - 1])
  }

  // ---------------------------------------------------------------------
  // The final text.

  /** `sql + " AND " + " AND ".join(conditions)` when there are conditions. */
  function Filtered(sql: string, conds: seq<string>): string {
    if |conds| > 0 then sql + " AND " + Join(conds, " AND ") else sql
  }

  /** The ordering appended when the query has none. */
  const DefaultOrder := " ORDER BY" + (" " + FinalAlias + ".FechaLlegada ASC")

  /** The default ordering is appended unless `\bORDER\s+BY\b` matches. */
  function Ordered(sql: string): string {
    if HasOrderBy(sql) then sql else sql + DefaultOrder
  }

  /** `_build_full_sql_and_params(fecha_option, ...)` over the given
      template text: the final query and its parameters, the reference
      parameters merged last. */
  function BuildFullSqlAndParams(template: string, option: int, f: Filters): (r: (string, Params))
  {
    var (guarded, refParams) := Prepared(template, option, f.referencia);
    var (conds, params) := FinalConditions(f);
    (Ordered(Filtered(guarded, conds)), params + refParams)
  }

  // ---------------------------------------------------------------------
  // The conditions.

  /** The conditions are exactly the catalogue entries that apply, in the
      catalogue's order: each given filter adds one condition, correccion
      adds its own, and the exclusion adds one when it names a code. */
  lemma {:induction false} ConditionsInOrder(f: Filters)
    ensures FinalConditions(f).0 == Selected(Catalogue(f))
  {
    var cat := Catalogue(f);
    var (c4, p4) := ColumnFilters(f);
    assert Selected(cat) == [] + Pick(cat[0]) + Pick(cat[1]) + Pick(cat[2]) + Pick(cat[3]) + Pick(cat[4]) + Pick(cat[5]) by {
      SelectedSix(cat);
    }
    assert c4 == [] + Pick(cat[0]) + Pick(cat[1]) + Pick(cat[2]) + Pick(cat[3]) by {
      ColumnConds(f);
    }
    var c5 := if f.correccion then c4 + [CorreccionCondition] else c4;
    assert c5 == c4 + Pick(cat[4]);
    assert AddExclusion(c5, p4, f.excluir).0 == c5 + Pick(cat[5]);
  }

  function Pick(e: (bool, string)): seq<string> {
    if e.0 then [e.1] else []
  }

  lemma {:induction false} SelectedSix(cat: seq<(bool, string)>)
    requires |cat| == 6
    ensures Selected(cat) == [] + Pick(cat[0]) + Pick(cat[1]) + Pick(cat[2]) + Pick(cat[3]) + Pick(cat[4]) + Pick(cat[5])
  {
    var t5 := cat[..5];
    var t4 := t5[..4];
    var t3 := t4[..3];
    var t2 := t3[..2];
    var t1 := t2[..1];
    assert t1[0] == cat[0] && t2[1] == cat[1] && t3[2] == cat[2] && t4[3] == cat[3] && t5[4] == cat[4];
    assert Selected(t1) == [] + Pick(cat[0]) by {
      assert t1[..0] == [];
    }
    assert Selected(t2) == Selected(t1) + Pick(cat[1]);
    assert Selected(t3) == Selected(t2) + Pick(cat[2]);
    assert Selected(t4) == Selected(t3) + Pick(cat[3]);
    assert Selected(t5) == Selected(t4) + Pick(cat[4]);
    assert Selected(cat) == Selected(t5) + Pick(cat[5]);
  }

  lemma {:induction false} ColumnConds(f: Filters)
    ensures ColumnFilters(f).0 == [] + Pick((Given(f.codigo), Condition(Codigo)))
      + Pick((Given(f.categoria), Condition(Categoria))) + Pick((Given(f.linea), Condition(Linea)))
      + Pick((Given(f.fabrica), Condition(Fabrica)))
  {
    var (c1, p1) := AddColumn([], map[], Codigo, f.codigo);
    var (c2, p2) := AddColumn(c1, p1, Categoria, f.categoria);
    var (c3, p3) := AddColumn(c2, p2, Linea, f.linea);
    AddColumnConds([], map[], Codigo, f.codigo);
    AddColumnConds(c1, p1, Categoria, f.categoria);
    AddColumnConds(c2, p2, Linea, f.linea);
    AddColumnConds(c3, p3, Fabrica, f.fabrica);
  }

  /** A column step appends its condition exactly when the filter is given. */
  lemma {:induction false} AddColumnConds(conds: seq<string>, params: Params, c: Column, v: Option<string>)
    ensures AddColumn(conds, params, c, v).0 == conds + (if Given(v) then [Condition(c)] else [])
  {
    if !Given(v) {
      assert conds + [] == conds;
    }
  }

  /** A column step binds its parameter to the stripped text exactly when
      the filter is given, and leaves the other parameters alone. */
  lemma {:induction false} AddColumnParams(conds: seq<string>, params: Params, c: Column, v: Option<string>)
    ensures var r := AddColumn(conds, params, c, v);
      && r.1.Keys == params.Keys + (if Given(v) then {c.key} else {})
      && (Given(v) ==> r.1[c.key] == Strip(v.value))
      && (forall k :: k in params && k != c.key ==> r.1[k] == params[k])
  {
  }

  /** The parameters are those of the given column filters, each bound to the
      stripped filter text, and those of the excluded codes; the correction
      flag binds nothing. */
  lemma {:induction false} ConditionParams(f: Filters)
    ensures var r := FinalConditions(f);
      var codes := ExcludedCodes(f.excluir);
      && (forall k :: k in r.1 <==> k in ColumnKeys(f) || k in ExcKeys(|codes|))
      && (Given(f.codigo) ==> r.1[Codigo.key] == Strip(f.codigo.value))
      && (Given(f.categoria) ==> r.1[Categoria.key] == Strip(f.categoria.value))
      && (Given(f.linea) ==> r.1[Linea.key] == Strip(f.linea.value))
      && (Given(f.fabrica) ==> r.1[Fabrica.key] == Strip(f.fabrica.value))
      && (forall i :: 0 <= i < |codes| ==> r.1[ExcKey(i)] == codes[i])
      && r.1 == FinalConditions(f.(correccion := !f.correccion)).1
  {
    var codes := ExcludedCodes(f.excluir);
    var (c4, p4) := ColumnFilters(f);
    assert FinalConditions(f).1 == AddExclusion(c4, p4, f.excluir).1
        == FinalConditions(f.(correccion := !f.correccion)).1 by {
      AddExclusionParams(c4, c4 + [CorreccionCondition], p4, f.excluir);
    }
    ExcKeysApart(f, |codes|);
    ColumnParamsFacts(f);
  }

  lemma {:induction false} ColumnParamsFacts(f: Filters)
    ensures var p4 := ColumnFilters(f).1;
      && p4.Keys == ColumnKeys(f)
      && (Given(f.codigo) ==> p4[Codigo.key] == Strip(f.codigo.value))
      && (Given(f.categoria) ==> p4[Categoria.key] == Strip(f.categoria.value))
      && (Given(f.linea) ==> p4[Linea.key] == Strip(f.linea.value))
      && (Given(f.fabrica) ==> p4[Fabrica.key] == Strip(f.fabrica.value))
  {
    var (c1, p1) := AddColumn([], map[], Codigo, f.codigo);
    var (c2, p2) := AddColumn(c1, p1, Categoria, f.categoria);
    var (c3, p3) := AddColumn(c2, p2, Linea, f.linea);
    AddColumnParams([], map[], Codigo, f.codigo);
    AddColumnParams(c1, p1, Categoria, f.categoria);
    AddColumnParams(c2, p2, Linea, f.linea);
    AddColumnParams(c3, p3, Fabrica, f.fabrica);
  }

  /** The parameters the exclusion adds do not depend on the conditions
      before it. */
  lemma {:induction false} AddExclusionParams(c: seq<string>, c': seq<string>, params: Params, text: Option<string>)
    ensures AddExclusion(c, params, text).1 == AddExclusion(c', params, text).1
  {
  }

  /** The parameter names of the given column filters. */
  function ColumnKeys(f: Filters): set<string> {
    (if Given(f.codigo) then {Codigo.key} else {})
    + (if Given(f.categoria) then {Categoria.key} else {})
    + (if Given(f.linea) then {Linea.key} else {})
    + (if Given(f.fabrica) then {Fabrica.key} else {})
  }

  lemma {:induction false} ExcKeysApart(f: Filters, n: nat)
    ensures forall k :: k in ExcKeys(n) ==> k !in ColumnKeys(f) && k != RefKey
  {
    forall i | 0 <= i < n
      ensures ExcKey(i) !in ColumnKeys(f) && ExcKey(i) != RefKey
    {
      ExcKeyNotColumn(i);
    }
  }

  /** An exclusion parameter is never a column filter's parameter, nor the
      reference filter's. */
  lemma {:induction false} ExcKeyNotColumn(i: nat)
    ensures ExcKey(i) !in {Codigo.key, Categoria.key, Linea.key, Fabrica.key, RefKey}
  {
    var k := ExcKey(i);
    assert k[0] == 'c' && k[1] == 'r';
  }

  // ---------------------------------------------------------------------
  // Placeholders and parameters.

  /** The names the placeholders of the joined conditions refer to. */
  function CondNames(conds: seq<string>): set<string> {
    set n | n in Names(Join(conds, " AND "))
  }

  /** Appending a condition adds its placeholders. */
  lemma {:induction false} CondNamesSnoc(conds: seq<string>, x: string)
    ensures CondNames(conds + [x]) == CondNames(conds) + set n | n in Names(x)
  {
    if |conds| == 0 {
      assert conds + [x] == [x];
      assert Names(Join(conds, " AND ")) == [] by {
        NamesSkip("", "", "");
      }
    } else {
      var j := Join(conds, " AND ");
      JoinSnoc(conds, x, " AND ");
      Assoc(j, " AND ", x);
      NamesConcat(j, " AND " + x);
      NamesSkip(" AND ", x, " AND " + x);
    }
  }

  lemma {:induction false} ConditionNames(c: Column)
    requires ':' !in c.name && Ident(c.key)
    ensures Names(Condition(c)) == [c.key]
  {
    var a := FinalAlias + "." + c.name + " = ";
    assert ':' !in a;
    NamesSkip(a, Placeholder(c.key), Condition(c));
    NamesPlaceholder(c.key);
  }

  /** A column step keeps the placeholders and the parameters in step. */
  lemma {:induction false} AddColumnBound(conds: seq<string>, params: Params, c: Column, v: Option<string>)
    requires CondNames(conds) == params.Keys
    requires ':' !in c.name && Ident(c.key)
    ensures var r := AddColumn(conds, params, c, v); CondNames(r.0) == r.1.Keys
  {
    if Given(v) {
      CondNamesSnoc(conds, Condition(c));
      ConditionNames(c);
    }
  }

  lemma {:induction false} ColumnsPlain()
    ensures ':' !in Codigo.name && Ident(Codigo.key)
    ensures ':' !in Categoria.name && Ident(Categoria.key)
    ensures ':' !in Linea.name && Ident(Linea.key)
    ensures ':' !in Fabrica.name && Ident(Fabrica.key)
  {
    LettersIdent(Codigo.key);
    LettersIdent(Categoria.key);
    LettersIdent(Linea.key);
    LettersIdent(Fabrica.key);
  }

  lemma {:induction false} LettersIdent(k: string)
    requires |k| > 0 && forall i :: 0 <= i < |k| ==> 'a' <= k[i] <= 'z' || 'A' <= k[i] <= 'Z'
    ensures Ident(k)
  {
  }

  /** The column filters' placeholders match their parameters. */
  lemma {:induction false} ColumnsBound(f: Filters)
    ensures var r := ColumnFilters(f); CondNames(r.0) == r.1.Keys
  {
    ColumnsPlain();
    var (c1, p1) := AddColumn([], map[], Codigo, f.codigo);
    assert CondNames([]) == {} by {
      NamesSkip("", "", "");
    }
    AddColumnBound([], map[], Codigo, f.codigo);
    var (c2, p2) := AddColumn(c1, p1, Categoria, f.categoria);
    AddColumnBound(c1, p1, Categoria, f.categoria);
    var (c3, p3) := AddColumn(c2, p2, Linea, f.linea);
    AddColumnBound(c2, p2, Linea, f.linea);
    AddColumnBound(c3, p3, Fabrica, f.fabrica);
  }

  /** The correction condition binds nothing. */
  lemma {:induction false} CorreccionBound(c4: seq<string>, p4: Params)
    requires CondNames(c4) == p4.Keys
    ensures CondNames(c4 + [CorreccionCondition]) == p4.Keys
  {
    CondNamesSnoc(c4, CorreccionCondition);
    assert ':' !in CorreccionCondition;
    NamesSkip(CorreccionCondition, "", CorreccionCondition + "");
    assert CorreccionCondition + "" == CorreccionCondition;
  }

  /** The exclusion condition refers to exactly the parameters it adds. */
  lemma {:induction false} ExclusionBound(c5: seq<string>, p4: Params, text: Option<string>)
    requires CondNames(c5) == p4.Keys
    ensures var r := AddExclusion(c5, p4, text); CondNames(r.0) == r.1.Keys
  {
    var codes := ExcludedCodes(text);
    if codes != [] {
      CondNamesSnoc(c5, ExclusionClause(|codes|));
      ClauseNames(|codes|);
    }
  }

  /** Every placeholder of the conditions names one of their parameters, and
      every parameter is referred to. */
  lemma {:induction false} ConditionsBound(f: Filters)
    ensures var r := FinalConditions(f); CondNames(r.0) == r.1.Keys
  {
    var (c4, p4) := ColumnFilters(f);
    ColumnsBound(f);
    if f.correccion {
      CorreccionBound(c4, p4);
    }
    ExclusionBound(if f.correccion then c4 + [CorreccionCondition] else c4, p4, f.excluir);
  }

  /** The reference parameter is never a condition parameter. */
  lemma {:induction false} RefKeyApart(f: Filters)
    ensures RefKey !in FinalConditions(f).1
  {
    var codes := ExcludedCodes(f.excluir);
    var (c4, p4) := ColumnFilters(f);
    ColumnParamsFacts(f);
    ExcKeysApart(f, |codes|);
    var c5 := if f.correccion then c4 + [CorreccionCondition] else c4;
    assert FinalConditions(f) == AddExclusion(c5, p4, f.excluir);
  }

  /** So the merge adds the reference parameter without overriding any
      condition parameter. */
  lemma {:induction false} ParamsMerge(f: Filters, refParams: Params)
    requires refParams.Keys <= {RefKey}
    ensures var params := FinalConditions(f).1;
      && (params + refParams).Keys == params.Keys + refParams.Keys
      && (forall k :: k in params ==> (params + refParams)[k] == params[k])
      && (forall k :: k in refParams ==> (params + refParams)[k] == refParams[k])
  {
    RefKeyApart(f);
  }

  // ---------------------------------------------------------------------
  // The appended text.

  /** The conditions are appended after the guarded query, which is kept
      verbatim, and their placeholders follow the query's. */
  lemma {:induction false} FilteredNames(sql: string, conds: seq<string>)
    ensures |Filtered(sql, conds)| >= |sql| && Filtered(sql, conds)[..|sql|] == sql
    ensures conds == [] <==> Filtered(sql, conds) == sql
    ensures Names(Filtered(sql, conds)) == Names(sql) + Names(Join(conds, " AND "))
  {
    var j := Join(conds, " AND ");
    if |conds| > 0 {
      Assoc(sql, " AND ", j);
      NamesConcat(sql, " AND " + j);
      NamesSkip(" AND ", j, " AND " + j);
      assert (sql + " AND " + j)[..|sql|] == sql;
    } else {
      NamesSkip("", "", "");
      assert sql + [] == sql;
    }
  }

  /** The default ordering is a match of `\bORDER\s+BY\b` wherever it is
      appended. */
  lemma {:induction false} OrderLead(rest: string)
    requires |rest| > 0 && !IsWordChar(rest[0])
    ensures OrderByAt(" ORDER BY" + rest, 1)
  {
    var s := " ORDER BY" + rest;
    assert s[0] == ' ' && s[6] == ' ' && s[7] == 'B' && s[8] == 'Y' && s[9] == rest[0];
    CiAtChars(s, 1, "ORDER");
    CiAtChars(s, 7, "BY");
    SkipSpaceUnique(s, 6, 7);
  }

  lemma {:induction false} DefaultOrderFacts()
    ensures OrderByAt(DefaultOrder, 1)
    ensures ':' !in DefaultOrder && DefaultOrder[0] == ' '
  {
    OrderLead(" " + FinalAlias + ".FechaLlegada ASC");
  }

  /** After `Ordered` the query always has an ORDER BY; the default is
      appended exactly when it had none, so a second pass changes nothing,
      and no placeholder is added. */
  lemma {:induction false} OrderedFacts(sql: string)
    ensures HasOrderBy(Ordered(sql))
    ensures !HasOrderBy(sql) <==> Ordered(sql) == sql + DefaultOrder
    ensures Ordered(Ordered(sql)) == Ordered(sql)
    ensures Names(Ordered(sql)) == Names(sql)
  {
    DefaultOrderFacts();
    if !HasOrderBy(sql) {
      var s := sql + DefaultOrder;
      OrderByShift(sql, DefaultOrder, 1);
      OrderByFoundFrom(s, 0, |sql| + 1);
      NamesConcat(sql, DefaultOrder);
      NamesSkip(DefaultOrder, "", DefaultOrder + "");
      assert DefaultOrder + "" == DefaultOrder;
      assert |DefaultOrder| > 0;
    }
  }

  // ---------------------------------------------------------------------
  // The assembled query.

  /** Once the prepared template refers to exactly its reference parameters,
      the assembled query refers to exactly the parameters returned: no
      placeholder is left unbound (in particular `:refLike` appears only
      when it is bound) and no parameter is unused. */
  lemma {:induction false} BuildBound(template: string, option: int, f: Filters)
    requires var p := Prepared(template, option, f.referencia);
      (set n | n in Names(p.0)) == p.1.Keys
    ensures var r := BuildFullSqlAndParams(template, option, f); Bound(r.0, r.1)
  {
    var (guarded, refParams) := Prepared(template, option, f.referencia);
    var (conds, params) := FinalConditions(f);
    FilteredNames(guarded, conds);
    OrderedFacts(Filtered(guarded, conds));
    ConditionsBound(f);
    assert refParams.Keys <= {RefKey};
    ParamsMerge(f, refParams);
  }
}
