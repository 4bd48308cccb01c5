# Inventory rotation: query assembly, recompute and export, in Dafny

This project models the pure core of a desktop tool that queries a SQL
Server for the inventory-rotation cross report ("cruce"), shows it in a
table, filters it and exports it. Strings are `seq<char>`, tables are
sequences of rows, and dictionaries are Dafny maps. Every operation is a
pure function with lemmas about it.

The modules follow the application's files:

- `Text` (text.dfy): the Python `str`, `list` and `dict` primitives the
  application relies on. These are `strip`, `rstrip`, `lower`, `upper`,
  `split`, `join`, `replace`, integer text, list comprehensions and
  `dict(zip(...))`. It also holds the lemmas about them.
- `Keywords` (keywords.dfy) and `Binds` (binds.dfy): the few regular
  expressions the assembly uses, written as matchers over characters:
  - `FROM\s+Final2\b`;
  - `\b(GROUP|ORDER)\s+BY\b` and `\bHAVING\b`;
  - `\bWHERE\b`;
  - `\bORDER\s+BY\b`.

  `Binds` reads placeholders as a `:` followed by a run of word characters.
- `FinalWhere` (final_where.dfy): `ensure_final_where`.
- `Exclusion` (exclusion.dfy): `_add_excluir_codigorecibe_condition`.
- `RefFilter` (ref_filter.dfy): `_inject_ref_filter` and `_strip_unbound_ref_like`.
- `Assembly` (assembly.dfy): `_build_full_sql_and_params`.
- `Template` (template.dfy): the template of `get_query_cruce`, and what
  the assembly makes of it. The SQL between the template's points of
  interest is kept abstract: six stretches of text. The two reference
  markers, the two `:fechaStart` placeholders, the final-filters comment and
  the closing `FROM Final2;` are placed exactly where the template has them.
- `Recompute` (recompute.dfy): `_recompute_with_pivot`.
- `Export` (export.dfy): the export helpers:
  - code normalisation (`zfill`);
  - the Excel `="..."` text cells;
  - the format question and the writer dispatch of `export_data_interactive`;
  - `obtener_datos_treeview`.
- `Client` (client.dfy): the pure parts of the main window:
  - the column check and projection of `import_cruce`;
  - the filters and the client-side `CodigoRecibe` exclusion of `buscar_datos`;
  - the text conversion and writer choice of `export_data`.
- `Discovery` (discovery.dfy): the loop of `get_available_sql_servers` that
  turns SQL Server Browser replies into the server list.

Three things the proofs bring out about the application as written:

- **Guard on a query without `FROM Final2`.** There, `ensure_final_where`
  appends ` WHERE 1=1 ` again on every call. It is idempotent only when the
  anchor exists (`FinalWhere.EnsureFinalWhereNoScope`).
- **Two exports, two choices of writer.**
  - For paths with a dot, the main window's export and the interactive
    export agree on when CSV is written (`Export.ViewAgrees`).
  - A bare `csv` without a dot is CSV for the interactive export and Excel
    for the main window (`Export.ViewDiffers`).
- **A missing code through the main window's export.** The window first
  turns the missing code into the text `None`, so the writers keep `None`
  where `0000` was meant (`Client.NullThroughWindow`).

## Model

| member | source | states |
|---|---|---|
| FinalWhere.EnsureFinalWhereKeeps | db/connection.py:54-70 | Without a `FROM Final2` match the result is the right-stripped query plus ` WHERE 1=1 `. With one, the text before the match and the trailing GROUP BY/ORDER BY/HAVING part are kept verbatim |
| FinalWhere.EnsureFinalWhereScope | db/connection.py:59-70 | After the call the final scope starts at the same place, its head contains a `WHERE` word, and its trailing clauses are unchanged |
| FinalWhere.EnsureFinalWhereIdempotent | db/connection.py:49-70 | With the anchor present, applying the guard twice equals applying it once |
| FinalWhere.EnsureFinalWhereNoScope | db/connection.py:54-57 | Without the anchor the result still has none, and a second call appends a second ` WHERE 1=1` guard: the function is not idempotent there |
| FinalWhere.WhereFromGuard | db/connection.py:65-68 | A head that receives the guard then has a `WHERE` word and ends in exactly one space |
| FinalWhere.WhereKept | db/connection.py:65-66 | A head that already had a `WHERE` keeps it after being right-stripped and given one space |
| FinalWhere.SplitAfterGuard | db/connection.py:60-63 | In the guarded scope, the first GROUP BY/ORDER BY/HAVING is found right after the inserted text, exactly where the original trailing part begins |
| FinalWhere.GuardedAnchor | db/connection.py:54-55 | The guarded query's first `FROM Final2` match is where the original's was |
| FinalWhere.ClauseNotInAnchor | db/connection.py:60-61 | No GROUP BY/ORDER BY/HAVING match can start inside the `FROM Final2` match that opens the scope |
| Keywords.HasWhereIff | db/connection.py:65 | The `\bWHERE\b` search succeeds exactly when a case-insensitive `WHERE` word starts somewhere in the text |
| Keywords.HasOrderByIff | db/connection.py:166 | The `\bORDER\s+BY\b` search succeeds exactly when an ORDER BY match starts somewhere in the text |
| Keywords.FindClauseSound | db/connection.py:60-61 | A found split point is a GROUP BY, ORDER BY or HAVING match |
| Keywords.FindClauseFirst | db/connection.py:60-61 | No such match starts before the split point found, so the split is at the first one |
| Keywords.FindAnchorSound | db/connection.py:54-55 | A found anchor is a case-insensitive `FROM`, whitespace, the alias and a word boundary |
| Keywords.FindAnchorFirst | db/connection.py:54-55 | No anchor starts before the one found (the leftmost match) |
| Exclusion.ExclusionCodes | db/connection.py:76 | Every code read from the text is non-empty, has no surrounding whitespace, no comma and no lower-case letter, and a blank text yields no code |
| Exclusion.ExclusionCodesIdempotent | db/connection.py:76 | Joining the codes with commas and reading them again gives the same codes |
| Exclusion.ExcKeyInjective | db/connection.py:81 | Different code positions get different `cr_exc_<i>` parameter names |
| Exclusion.ExcParamsKeys | db/connection.py:80-83 | The parameters bound are exactly `cr_exc_0` to `cr_exc_{n-1}` |
| Exclusion.ExcParamsValues | db/connection.py:80-83 | `cr_exc_<i>` holds the i-th code |
| Exclusion.ClauseNames | db/connection.py:84 | For one or more codes, the NOT IN condition refers to exactly `cr_exc_0..cr_exc_{n-1}`, in order |
| Exclusion.AddExclusion | db/connection.py:72-85 | Without codes, conditions and parameters are unchanged. With n codes, one NOT IN condition is appended, the keys `cr_exc_i` are added with the codes, and the other parameters are kept |
| RefFilter.NormalizeRef | db/connection.py:95-97 | The normalised reference is empty exactly when none was given or it is blank, and it has no upper-case letter |
| RefFilter.LikeValue | db/connection.py:99-100 | `%` is appended exactly when the value has neither `%` nor `_`, so the pattern always holds a wildcard |
| RefFilter.InjectRefFilter | db/connection.py:87-103 | The parameters are `{refLike: value}` exactly when the reference is non-blank, else empty. The value is the trimmed, lower-cased reference, with `%` added exactly when it has no wildcard. Every marker becomes the clause, or nothing |
| RefFilter.InjectAtMarkers | db/connection.py:98-103 | Text between markers is kept verbatim, and every marker becomes the same clause, or nothing |
| RefFilter.StripUnboundRefLike | db/connection.py:105-115 | With `refLike` bound the text is returned as is, and text without a colon is never changed |
| RefFilter.StripUndoesInject | db/connection.py:111-115 | Text built from pattern-free pieces with the injected clause between them is stripped back to the pieces alone: the removal undoes the injection |
| RefFilter.RemoveRendered | db/connection.py:111-115 | Wherever the left-to-right scan meets the pattern laid out as it accepts it, the whole match is dropped |
| RefFilter.RemoveSkip | db/connection.py:115 | Text in which no match can start passes through the removal untouched |
| RefFilter.RefClauseLaid | db/connection.py:101-112 | The injected clause is a layout the removal pattern accepts |
| RefFilter.RefClauseNames | db/connection.py:101-102 | The injected clause refers to the `refLike` parameter once |
| Assembly.Prepared | db/connection.py:129-140 | The only parameter is `refLike`, bound exactly when a non-blank reference is given, to the LIKE value of its trimmed, lower-cased text. The prepared text is guarded: its final scope's head has a `WHERE`, or, without a final scope, it ends with the guard |
| FinalWhere.EnsureFinalWhereGuarded | db/connection.py:49-70 | Whatever the query, the result's final scope has a `WHERE` in its head, or the result has no final scope and ends with ` WHERE 1=1 ` |
| Assembly.ConditionsInOrder | db/connection.py:143-161 | The conditions are exactly the applying entries of the fixed catalogue: codigo, categoria, linea, fabrica, correccion, exclusion, in that order |
| Assembly.AddColumnConds | db/connection.py:146-157 | A column filter appends its condition exactly when it is given |
| Assembly.AddColumnParams | db/connection.py:146-157 | A given column filter binds its parameter to the stripped text and leaves the other parameters alone |
| Assembly.ConditionParams | db/connection.py:143-161 | The parameters are the given column filters' stripped values plus the exclusion codes, and the correccion flag binds nothing |
| Assembly.ExcKeyNotColumn | db/connection.py:81-157 | An exclusion parameter never shares its name with a column filter's parameter or with `refLike` |
| Assembly.ConditionsBound | db/connection.py:143-161 | The placeholders of the conditions name exactly their parameters |
| Assembly.ParamsMerge | db/connection.py:169 | Merging the reference parameters overrides no condition parameter |
| Assembly.FilteredNames | db/connection.py:163-164 | The guarded query is kept verbatim as a prefix. Text is appended exactly when there are conditions, and the placeholders are the query's followed by the conditions' |
| Assembly.OrderedFacts | db/connection.py:166-167 | The default `ORDER BY` is appended exactly when none matches, after which one always does. A second pass changes nothing, and no placeholder is added |
| Assembly.BuildBound | db/connection.py:117-170 | When the prepared template refers to exactly its reference parameters, the assembled query refers to exactly the returned parameters: `:refLike` only when bound, and no parameter unused |
| Template.CleanedTemplate | db/connection.py:130 | `strip().rstrip(';')` of the template leaves exactly its layout: markers, dates and the closing `FROM Final2` |
| Template.DatedTemplate | queries/query_cruce.py:72-104 | Writing the date in replaces the two `:fechaStart` occurrences, the comment one and the date-range one, and touches nothing else |
| Template.MarkedTemplate | queries/query_cruce.py:29-106 | Replacing the marker text replaces the two `/*__REF_FILTER__*/` markers and nothing else |
| Template.InjectedTemplate | queries/query_cruce.py:29-106 | The reference clause goes in at both markers exactly when a reference is given, and nothing unbound is left to strip |
| Template.GuardedTemplate | queries/query_cruce.py:207 | The only `FROM Final2` ends the template, so the guard lands at the very end with an empty trailing part |
| Template.LayoutNames | queries/query_cruce.py:1-209 | The prepared layout's placeholders are `:refLike` twice when the clause is in, and none otherwise |
| Template.PreparedText | queries/query_cruce.py:1-209 | The prepared template is the layout with the date literal, the clause at both markers exactly when a reference is given, and the guard at the end |
| Template.PreparedTemplate | queries/query_cruce.py:1-209 | The prepared template refers to `:refLike`, twice, exactly when that parameter is bound, and to nothing else |
| Template.LayoutFree | queries/query_cruce.py:1-209 | No `ORDER BY` can match anywhere in the prepared layout |
| Template.FilteredUnordered | db/connection.py:163-167 | Neither the guarded template nor the conditions after it carry an `ORDER BY` |
| Template.ClosingMarkerFree | queries/query_cruce.py:140 | The `/*__FINAL_FILTERS__*/` comment cannot start a reference marker, so it stays untouched |
| Template.QueryCruceBuild | db/connection.py:117-170 | Over the template, the assembly gives: the guarded layout, then ` AND ` and the conditions when there are any, then the default ordering. Every placeholder is bound and every parameter used |
| Recompute.NumericFacts | db/connection.py:186-188 | Coercion keeps integers and reads integer text back to its value, also when ASCII whitespace surrounds it (` 12 ` is 12). Missing cells, and text that is not integer text once that whitespace is skipped, become 0 |
| Recompute.PivotIsGroupSum | db/connection.py:192-198 | The pivot holds exactly the non-missing codes present, each with the independently defined sum over all given rows carrying it |
| Recompute.GroupSumAbsent | db/connection.py:192-198 | A code no row carries sums to nothing |
| Recompute.PivotSame | db/connection.py:192-198 | Rows that agree on codes and initial quantities pivot alike, whatever their other columns |
| Recompute.RecomputeWithPivot | db/connection.py:173-217 | A missing table stays missing, and the row count is preserved |
| Recompute.RecomputeRows | db/connection.py:183-215 | Row i keeps its code, other columns and place. Its group total is the sum over same-code rows, and missing for a missing code. `Queda` is stock·100/total, or 0 when the total is 0 or missing. `Vendido` is 100 − `Queda` |
| Recompute.RecomputeEmpty | db/connection.py:180-181 | An empty or missing table is returned unchanged |
| Recompute.RecomputePercentsSum | db/connection.py:205-215 | The two printed percentages of every row read back to numbers that add up to exactly 100,00 |
| Recompute.RecomputeIdempotent | db/connection.py:173-217 | Recomputing a recomputed table changes nothing |
| Recompute.ZeroTotalPercents | db/connection.py:206-208 | A zero or missing total prints `0,00%` and `100,00%` |
| Recompute.RoundNearest | db/connection.py:212 | Rounding to hundredths is within half a hundredth, with ties to even |
| Recompute.RoundUnique | db/connection.py:212 | Only one integer satisfies the rounding condition |
| Recompute.PrintedShape | db/connection.py:212 | A printed percentage has exactly two decimals after a comma, ends in `%`, and starts with `-` exactly when negative |
| Recompute.FormatPctRoundTrip | db/connection.py:210-212 | Reading back a printed percentage gives its rounded value |
| Recompute.RoundedComplement | db/connection.py:207-208 | A share and the rest of 100, rounded, add up to 10000 hundredths |
| Export.ZFill | utils/helpers.py:40 | `zfill` pads to the width and keeps longer text as long. It keeps the last character of anything but a lone sign, and the result starts with a zero or with the text's own first character |
| Export.ZFillValue | utils/helpers.py:40 | Zero-padding integer text keeps its value, sign included |
| Export.NullCode | utils/helpers.py:40 | A missing code is written as `0000` |
| Export.IntCode | utils/helpers.py:56 | An integer code is written as text at least four wide that reads back as the same integer |
| Export.WideCode | utils/helpers.py:40 | Text already four wide is only stripped |
| Export.ExcelRoundTrip | utils/helpers.py:68-71 | Unwrapping a written Excel code cell and un-doubling its quotes gives back the stripped code |
| Export.ReadCellExact | utils/helpers.py:70-71 | A cell reads as `v` exactly when it is the quoting of `v`, so quoting is one-to-one |
| Export.UndoubledDoubled | utils/helpers.py:70 | Un-doubling doubled quotes gives the text back |
| Export.DoubledUndoubled | utils/helpers.py:70 | Only the doubling of `v` un-doubles to `v` |
| Export.ChooseFormat | utils/helpers.py:88-91 | The export is cancelled exactly when no answer, or an empty one, was given |
| Export.ChooseFormatExact | utils/helpers.py:92-95 | An answer picks a format exactly when its trimmed, lower-cased form is `csv` or `xlsx` |
| Export.ChooseFormatNormal | utils/helpers.py:92 | Surrounding whitespace and letter case do not change a non-blank answer's reading |
| Export.ExportOutcome | utils/helpers.py:87-118 | Something is written exactly when a format was accepted, a path given and its extension names a writer. The writer is the extension's, whichever format was accepted |
| Export.ExtensionOf | utils/helpers.py:110 | The extension is the lower-cased text after the last dot |
| Export.SplitLast | utils/helpers.py:110 | `split('.')[-1]` is what follows the last dot |
| Export.ViewWriter | views/main_view.py:188-191 | The main window's export never refuses a path: CSV or Excel |
| Export.ViewAgrees | views/main_view.py:188-191 | For a path with a dot, the main window writes CSV exactly when the interactive export would |
| Export.ViewDiffers | utils/helpers.py:110-115 | A bare `csv` without a dot is CSV for the interactive export and Excel for the main window |
| Export.TreeRecords | utils/helpers.py:79-85 | One record per row |
| Export.RecordRoundTrip | utils/helpers.py:83 | With distinct columns, reading a record back in column order gives the row |
| Text.ZipDictKeys | utils/helpers.py:83 | The keys of `dict(zip(keys, vals))` are the keys that got a value, pairing up to the shorter list |
| Text.ZipDictLast | utils/my_sql_detector.py:36 | A key's value is the one paired with its last occurrence |
| Text.ZipDictAgree | utils/my_sql_detector.py:36 | Values paired with other keys do not affect key k's presence or value |
| Client.MissingExactly | views/main_view.py:154 | The missing columns are exactly the wanted ones the result lacks |
| Client.ImportFacts | views/main_view.py:149-159 | The import fails exactly when a non-empty result lacks a wanted column. Otherwise the table has exactly the wanted columns in order. An empty result gives no rows, and each cell is the one held under the same name in the same row |
| Client.ImportTwice | views/main_view.py:149-159 | Importing an imported table again changes nothing |
| Client.FilterValueFacts | views/main_view.py:242-258 | A box gives no filter exactly when it is blank. The filter it gives is one the query builder applies, and reading it again gives the same filter |
| Client.SearchFiltersFacts | views/main_view.py:251-259 | The server is asked for every non-blank box and nothing else, with no exclusion and no correccion filter |
| Client.KeepRowsExact | views/main_view.py:266-268 | The exclusion keeps exactly the rows whose trimmed, upper-cased code is not among the codes, in order, each changed only by its trimmed code |
| Client.KeepAll | views/main_view.py:266-268 | Without codes every row stays, only its code trimmed |
| Client.KeepTwice | views/main_view.py:266-268 | Excluding already-excluded rows changes nothing |
| Client.ExcludeClient | views/main_view.py:264-270 | The table stays well formed and keeps its columns |
| Client.ExcludeTwice | views/main_view.py:264-270 | Applying the exclusion box twice is applying it once |
| Client.BlankPieces | views/main_view.py:266 | A box of nothing but blank pieces, such as `,`, names no code, so every row stays |
| Client.SearchIsImportThenExclude | views/main_view.py:261-272 | A search fails exactly when the import would, and otherwise shows the imported table with the exclusion applied. An empty answer stays as it is |
| Client.TextColumnsCells | views/main_view.py:181-186 | Only the named columns change, each cell to its trimmed text, and the shape is kept |
| Client.TextColumnsTwice | views/main_view.py:184-186 | Converting the same columns again changes nothing |
| Client.ExportDataFacts | views/main_view.py:170-191 | Something is written exactly when the shown (or else imported) table has rows and a path was chosen. What is written is that table with only its code columns converted |
| Client.NullThroughWindow | views/main_view.py:186 | A missing code becomes the text `None`, which the writers keep, whereas written straight it would be `0000` |
| Discovery.Entry | utils/my_sql_detector.py:38-42 | The entry starts with the address. It is the bare address exactly when the instance is not named, and otherwise it continues with `\` and the instance |
| Discovery.Instances | utils/my_sql_detector.py:33-43 | One entry per reply, in order, each starting with the reply's address, and the bare address exactly when no named instance was announced |
| Discovery.ReplyKeys | utils/my_sql_detector.py:35-36 | A key is present exactly when it sits at an even field with a value after it, so an unpaired last field is dropped |
| Discovery.ReplyValue | utils/my_sql_detector.py:36 | A key's value is the field after its last occurrence in a key position |
| Discovery.ReplyOfEncode | utils/my_sql_detector.py:35-36 | A reply built from separator-free pairs parses to the dictionary of those pairs |
| Discovery.EncodeRoundTrip | utils/my_sql_detector.py:35-36 | With distinct keys every pair is read back and nothing else |
| Discovery.EntryOfEncoded | utils/my_sql_detector.py:37-42 | A reply announcing instance v yields `ip\v`, unless v is empty or `MSSQLSERVER` in any case, which yields the bare address |
| Discovery.EntryWithoutInstance | utils/my_sql_detector.py:38-42 | A reply without an `InstanceName` yields the bare address |
| Discovery.EntryIgnoresOthers | utils/my_sql_detector.py:37 | Replies that agree on every `InstanceName` value yield the same entry, whatever `ServerName` and the other values are |
| Text.SplitJoin | utils/my_sql_detector.py:35 | Splitting joined separator-free pieces gives the pieces back |
| Text.NatTextRoundTrip | db/connection.py:188 | The decimal text of a natural number parses back to it |
| Text.FilterMapExact | views/main_view.py:266-268 | A filtering comprehension keeps `f` of exactly the accepted elements, in order |

## Left out

- InjectRefFilter: `str.lower()` is modelled for ASCII letters only. Python lower-cases every Unicode letter, so a reference such as `ÑANDÚ` is bound as typed here. The regex `\b`, `\w` and `re.IGNORECASE` are likewise the ASCII ones (also in `StripUnboundRefLike`).
- AddExclusion: `str.upper()` is ASCII-only, so `ñ1` stays `ñ1` where Python gives `Ñ1`. Unicode case mappings that change length, such as `ß` to `SS`, are not modelled.
- EnsureFinalWhere: the `FROM`, `WHERE`, `GROUP BY`, `ORDER BY` and `HAVING` matches ignore ASCII case only. Python's `re.IGNORECASE` also equates a few non-ASCII letters with ASCII ones (`ı`, `İ`, the Kelvin sign), and its `\b` uses Unicode word characters.
- ChooseFormat: `lower()` on the answer is ASCII-only.
- Dispatch: `lower()` on the path's extension is ASCII-only.
- ExcludeClient: the code comparison uses ASCII-only `upper()`, as `AddExclusion` does.
- Entry: `MSSQLSERVER` is compared after an ASCII-only `upper()`.
- ImportTwice: requires at least one wanted column. Projecting a table onto no columns makes pandas report it empty and lose its rows, which the model's table does not.
- ImportFacts: assumes distinct column names in the result. pandas can hold repeated names, and selecting one then yields several columns.
- Search: a non-empty answer that lacks a shown column fails with the message of pandas' `KeyError`, whose exact wording is not modelled.
- Binds: SQLAlchemy's `text()` recognises a placeholder only when the colon is not preceded by another colon, a word character or a backslash, and the name is not followed by a colon (`(?<![:\w\\]):(\w+)(?!:)`). The model reads `:b` in `a:b` and `:int` in `x::int`. Every colon in the text the assembly builds is a placeholder after a space or after `(` (the first code of the `NOT IN (...)` list). SQLAlchemy's look-behind rejects neither, so there the two readings agree.
- Recompute: after the merge, pandas moves the grouped-total column to the end. The model keeps columns as named fields, so column order is not modelled. The case where `CodigoBarra`, `CantidadInicial` or `ExistenciaActual` is absent (which raises in pandas or skips the percentages) is not modelled either: the row type always has those fields.
- Recompute: floating point is not modelled. Quantities are integers (or integer text), and percentages are exact rationals rounded half-to-even to hundredths, rather than binary doubles. `NaN` cells and float text such as `3.5` or `1e3` count as non-numeric (0). Integer text is read after skipping the ASCII whitespace around it, as pandas' number parser does. Signed zero is not modelled either: with a stock of 0 and a negative group total, Python computes `-0.0` and prints `-0,00%`, where the model prints `0,00%`.
- Template: the SQL text between the markers and placeholders is abstract. Six stretches are required to be free of colons, markers, `FROM Final2` and `ORDER BY`, which the template's text satisfies. The template's own server-side `Queda`/`Vendido` (`'0%'` for a zero total) belongs to the SQL and is not modelled.
- Discovery: replies are given as decoded strings with their addresses. The UDP broadcast, the timeout loop, and `decode(errors='ignore')` of the reply bytes are I/O. The SSRP header bytes that precede the first key in a real reply are part of the reply text here.
- Engine creation, connection strings, `set_default_instance`, query execution and chunked reading are foreign I/O. The query's result is a parameter.
- All GUI code (widgets, message boxes, dialogs, clipboard, context menu), `get_save_path`'s dialog (its answer is a parameter), and the actual writing of CSV and Excel files by pandas and openpyxl are left out. A writer's exception is not modelled.
- `limpiar_filtros` (views/main_view.py:278-294) clears the boxes and queries again without filters. Its table is the one `ImportTable` gives, except that a missing column fails with pandas' `KeyError` message. It has no member of its own.
