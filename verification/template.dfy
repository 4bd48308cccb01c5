/** The query template of `get_query_cruce` and what the assembly makes of
    it. The template's SQL between its points of interest is left abstract:
    a `Segments` value holds the six stretches of text, and the template is
    those stretches with the two reference-filter markers, the two
    `:fechaStart` placeholders, the final-filters comment and the closing
    `FROM Final2;` between them, in the order the template has them.
    `Shaped` states what the stretches of the real template satisfy: no
    colon, no marker, no `FROM Final2` and no `ORDER BY` can start in them,
    and the ones after a marker or placeholder start with whitespace. */
module Template {
  import opened Wrappers
  import opened Text
  import opened Keywords
  import opened Binds
  import opened FinalWhere
  import opened Exclusion
  import opened RefFilter
  import opened Assembly

  /** The comment the template carries in its filtered CTE; nothing ever
      replaces it. */
  const FinalMarker := "/*__FINAL_FILTERS__*" + "/"

  /** The template's last clause, selecting from the final CTE. */
  const FinalFrom := "FROM " + FinalAlias

  /** The template's text between its points of interest:
      `s0` up to the first reference marker (in BodegaCTE),
      `s1` up to the first `:fechaStart` (in a comment),
      `s2` up to the second `:fechaStart` (in CreacionCTE's date range),
      `s3` up to the second reference marker (in CreacionCTE),
      `s4` up to the final-filters comment (in FilteredFinal),
      `s5` up to the closing `FROM Final2`. */
  datatype Segments = Segments(s0: string, s1: string, s2: string, s3: string, s4: string, s5: string)

  /** The final-filters comment and the text after it. */
  function Closing(g: Segments): string {
    FinalMarker + g.s5
  }

  /** The template's text with `m` at each reference marker, `d` at each
      date placeholder and `z` after the last stretch. */
  function Layout(g: Segments, m: string, d: string, z: string): string {
    g.s0 + (m + (g.s1 + (d + (g.s2 + (d + Rest(g, m, z))))))
  }

  /** The layout from the end of the second date on. */
  function Rest(g: Segments, m: string, z: string): string {
    g.s3 + (m + (g.s4 + (Closing(g) + z)))
  }

  /** `get_query_cruce()`: the template opens with a newline and ends with
      `FROM Final2;` and a newline. */
  function QueryCruce(g: Segments): string {
    "\n" + Layout(g, RefMarker, FechaPattern, FinalFrom) + ";\n"
  }

  /** Text in which nothing the assembly looks for can start, whatever
      follows it: no placeholder colon, no reference marker, no
      `FROM Final2` anchor, no `ORDER BY`. */
  ghost predicate Inert(s: string) {
    ':' !in s && PatFree(s, RefMarker) && AnchorFree(s, FinalAlias) && OrderByFree(s)
  }

  /** What the stretches of the template satisfy. */
  ghost predicate Shaped(g: Segments) {
    && Inert(g.s0) && Inert(g.s1) && Inert(g.s2) && Inert(g.s3) && Inert(g.s4) && Inert(g.s5)
    && |g.s0| > 0 && !IsSpace(g.s0[0])
    && |g.s1| > 0 && IsSpace(g.s1[0])
    && |g.s2| > 0 && IsSpace(g.s2[0])
    && |g.s3| > 0 && IsSpace(g.s3[0])
    && |g.s4| > 0 && IsSpace(g.s4[0])
    && |g.s5| > 0 && IsSpace(g.s5[0])
  }

  // ---------------------------------------------------------------------
  // Facts about the fixed words.

  lemma {:induction false} FinalMarkerPlain()
    ensures ':' !in FinalMarker && NoTri(FinalMarker, "FROM")
  {
  }

  lemma {:induction false} FinalMarkerUnordered()
    ensures NoTri(FinalMarker, "ORDER")
  {
  }

  lemma {:induction false} FinalFromPlain()
    ensures ':' !in FinalFrom && '/' !in FinalFrom && NoTri(FinalFrom, "ORDER")
  {
  }

  lemma {:induction false} FinalFromUngrouped()
    ensures NoTri(FinalFrom, "GROUP") && NoTri(FinalFrom, "HAVING")
  {
  }

  lemma {:induction false} MarkerPlain()
    ensures ':' !in RefMarker && RefMarker != FechaPattern
  {
  }

  /** The date literal is digits, dashes and quotes. */
  lemma {:induction false} LiteralPlain(option: int)
    ensures var lit := FechaLiteral(option);
      ':' !in lit && '/' !in lit && lit != RefMarker
  {
  }

  lemma {:induction false} LiteralNoFrom(option: int)
    ensures NoTri(FechaLiteral(option), "FROM")
  {
    if option == 1 {
      assert FechaLiteral(option) == "'2023-01-01'";
    } else {
      assert FechaLiteral(option) == "'2024-01-01'";
    }
  }

  lemma {:induction false} LiteralNoOrder(option: int)
    ensures NoTri(FechaLiteral(option), "ORDER")
  {
    if option == 1 {
      assert FechaLiteral(option) == "'2023-01-01'";
    } else {
      assert FechaLiteral(option) == "'2024-01-01'";
    }
  }

  // ---------------------------------------------------------------------
  // Replacing the markers or the dates of the layout.

  /** Text in which the pattern cannot start passes through unchanged,
      whatever follows it. */
  lemma {:induction false} PieceSkip(x: string, rest: string, pat: string, rep: string)
    requires |pat| > 0 && PatFree(x, pat)
    ensures Replace(x + rest, pat, rep) == x + Replace(rest, pat, rep)
  {
    assert forall p :: 0 <= p < |x| ==> !StartsAt(x + rest, p, pat);
    ReplaceSkip(x, rest, pat, rep);
  }

  lemma {:induction false} PieceLast(z: string, pat: string, rep: string)
    requires |pat| > 0 && PatFree(z, pat)
    ensures Replace(z, pat, rep) == z
  {
    assert z + "" == z;
    assert forall p :: 0 <= p < |z| ==> !StartsAt(z + "", p, pat);
    ReplaceNone(z, pat, rep);
  }

  /** The pieces of the layout that are neither a marker nor a date. */
  ghost predicate FixedFree(g: Segments, z: string, pat: string) {
    PatFree(g.s0, pat) && PatFree(g.s1, pat) && PatFree(g.s2, pat) && PatFree(g.s3, pat)
    && PatFree(g.s4, pat) && PatFree(Closing(g), pat) && PatFree(z, pat)
  }

  /** Replacing the marker text replaces the two markers and nothing else. */
  lemma {:induction false} ReplaceAtMarkers(g: Segments, m: string, d: string, z: string, rep: string)
    requires |m| > 0 && FixedFree(g, z, m) && PatFree(d, m)
    ensures Replace(Layout(g, m, d, z), m, rep) == Layout(g, rep, d, z)
  {
    var t5 := Rest(g, m, z);
    var t4 := d + t5;
    var t3 := g.s2 + t4;
    var t2 := d + t3;
    var t1 := g.s1 + t2;
    var t0 := m + t1;
    RestAtMarker(g, m, z, rep);
    PieceSkip(d, t5, m, rep);
    PieceSkip(g.s2, t4, m, rep);
    PieceSkip(d, t3, m, rep);
    PieceSkip(g.s1, t2, m, rep);
    ReplaceFront(t1, m, rep);
    PieceSkip(g.s0, t0, m, rep);
  }

  lemma {:induction false} RestAtMarker(g: Segments, m: string, z: string, rep: string)
    requires |m| > 0 && FixedFree(g, z, m)
    ensures Replace(Rest(g, m, z), m, rep) == Rest(g, rep, z)
  {
    var t3 := Closing(g) + z;
    var t2 := g.s4 + t3;
    var t1 := m + t2;
    PieceLast(z, m, rep);
    PieceSkip(Closing(g), z, m, rep);
    PieceSkip(g.s4, t3, m, rep);
    ReplaceFront(t2, m, rep);
    PieceSkip(g.s3, t1, m, rep);
  }

  /** Replacing the date text replaces the two dates and nothing else. */
  lemma {:induction false} ReplaceAtDates(g: Segments, m: string, d: string, z: string, rep: string)
    requires |d| > 0 && FixedFree(g, z, d) && PatFree(m, d)
    ensures Replace(Layout(g, m, d, z), d, rep) == Layout(g, m, rep, z)
  {
    var t5 := Rest(g, m, z);
    var t4 := d + t5;
    var t3 := g.s2 + t4;
    var t2 := d + t3;
    var t1 := g.s1 + t2;
    var t0 := m + t1;
    RestAtDate(g, m, z, d, rep);
    ReplaceFront(t5, d, rep);
    PieceSkip(g.s2, t4, d, rep);
    ReplaceFront(t3, d, rep);
    PieceSkip(g.s1, t2, d, rep);
    PieceSkip(m, t1, d, rep);
    PieceSkip(g.s0, t0, d, rep);
  }

  lemma {:induction false} RestAtDate(g: Segments, m: string, z: string, d: string, rep: string)
    requires |d| > 0 && FixedFree(g, z, d) && PatFree(m, d)
    ensures Replace(Rest(g, m, z), d, rep) == Rest(g, m, z)
  {
    var t3 := Closing(g) + z;
    var t2 := g.s4 + t3;
    var t1 := m + t2;
    PieceLast(z, d, rep);
    PieceSkip(Closing(g), z, d, rep);
    PieceSkip(g.s4, t3, d, rep);
    PieceSkip(m, t2, d, rep);
    PieceSkip(g.s3, t1, d, rep);
  }

  /** The final-filters comment cannot start a reference marker: the two
      differ in their fifth character, and the comment's closing slash is
      followed by whitespace. */
  lemma {:induction false} ClosingMarkerFree(g: Segments)
    requires PatFree(g.s5, RefMarker) && |g.s5| > 0 && IsSpace(g.s5[0])
    ensures PatFree(Closing(g), RefMarker)
  {
    var a := "/*__FINAL_FILTERS__*";
    var b := "/" + g.s5;
    assert Closing(g) == a + b;
    assert PatFree(a, RefMarker) by {
      forall x: string, p: nat | p < |a|
        ensures !StartsAt(a + x, p, RefMarker)
      {
        if p == 0 {
          StartsAtChar(a + x, 0, RefMarker, 4);
          assert (a + x)[4] == 'F';
        } else {
          StartsAtChar(a + x, p, RefMarker, 0);
          assert (a + x)[p] == a[p];
        }
      }
    }
    assert PatFree(b, RefMarker) by {
      forall x: string, p: nat | p < |b|
        ensures !StartsAt(b + x, p, RefMarker)
      {
        assert b + x == "/" + (g.s5 + x);
        if p == 0 {
          StartsAtChar(b + x, 0, RefMarker, 1);
          assert (b + x)[1] == g.s5[0];
        } else {
          StartsAtTail(b + x, p - 1, RefMarker);
          assert (b + x)[1..] == g.s5 + x;
        }
      }
    }
    PatFreeConcat(a, b, RefMarker);
  }

  // ---------------------------------------------------------------------
  // The final scope: the closing `FROM Final2` is the first anchor.

  /** `t` ends with `FROM Final2`, and that is the first anchor in it. */
  predicate FinalAtEnd(t: string) {
    |FinalFrom| <= |t| && t[|t| - |FinalFrom|..] == FinalFrom
    && FindAnchor(t, FinalAlias, 0) == Some(|t| - |FinalFrom|)
  }

  lemma {:induction false} FinalFromAnchor()
    ensures FinalAtEnd(FinalFrom)
  {
    var f := FinalFrom;
    assert f[4] == ' ' && f[5..11] == FinalAlias;
    CiAtChars(f, 0, "FROM");
    CiAtChars(f, 5, FinalAlias);
    assert CiAt(f, 5, FinalAlias) && Boundary(f, 11);
    assert AliasAfter(f, 4, FinalAlias);
    assert AnchorAt(f, 0, FinalAlias);
    FindAnchorIs(f, FinalAlias, 0);
    assert f[0..] == f;
  }

  /** Text in which no anchor can start keeps the last one first. */
  lemma {:induction false} FinalAtEndCons(a: string, t: string)
    requires AnchorFree(a, FinalAlias) && FinalAtEnd(t)
    ensures FinalAtEnd(a + t)
  {
    var k := |t| - |FinalFrom|;
    FirstAnchorCons(a, t, FinalAlias, k);
    assert (a + t)[|a + t| - |FinalFrom|..] == t[k..];
  }

  lemma {:induction false} FirstAnchorCons(a: string, t: string, alias: string, k: nat)
    requires AnchorFree(a, alias) && FindAnchor(t, alias, 0) == Some(k)
    ensures FindAnchor(a + t, alias, 0) == Some(|a| + k)
  {
    var s := a + t;
    FindAnchorSound(t, alias, 0);
    FindAnchorFirst(t, alias, 0);
    AnchorShift(a, t, k, alias);
    forall p' | 0 <= p' < |a| + k ensures !AnchorAt(s, p', alias) {
      if p' < |a| {
        assert !AnchorAt(a + t, p', alias);
      } else {
        AnchorShift(a, t, p' - |a|, alias);
      }
    }
    FindAnchorIs(s, alias, |a| + k);
  }

  lemma {:induction false} FinalFromNoWhere()
    ensures !HasWhere(FinalFrom)
  {
    var f := FinalFrom;
    forall p: nat | p <= |f| ensures !WhereAt(f, p) {
      CiAtChars(f, p, "WHERE");
      if p < |f| {
        assert !CiEq(f[p], 'W');
      }
    }
    HasWhereIff(f);
  }

  lemma {:induction false} FinalFromNoClause()
    ensures FindClause(FinalFrom, 0).None?
  {
    FinalFromPlain();
    FinalFromUngrouped();
    ClauseFreeByLetters(FinalFrom);
    ClauseFreeNone(FinalFrom);
  }

  /** The closing clause is its own stripped head and takes the guard. */
  lemma {:induction false} FinalFromHead()
    ensures RStrip(FinalFrom) == FinalFrom && Insert(FinalFrom) == WhereGuard
  {
    RStripUnique(FinalFrom, |FinalFrom|);
    assert FinalFrom[..|FinalFrom|] == FinalFrom;
    FinalFromNoWhere();
  }

  lemma {:induction false} ScopeAtEnd(q: string)
    requires FinalAtEnd(q)
    ensures FinalScope(q, FinalAlias) == Some(Scope(|q| - |FinalFrom|, |FinalFrom|))
  {
    FinalFromNoClause();
  }

  /** When the query ends with its first anchor, the guard goes at the very
      end: the final scope is `FROM Final2` alone, which has no WHERE and
      nothing after it. */
  lemma {:induction false} GuardAtEnd(q: string)
    requires FinalAtEnd(q)
    ensures EnsureFinalWhere(q, FinalAlias) == q + WhereGuard
  {
    ScopeAtEnd(q);
    FinalFromHead();
    GuardAfterTail(q, FinalAlias, |q| - |FinalFrom|, FinalFrom, WhereGuard);
  }

  /** A final scope that runs to the end of the query and is its own
      stripped head takes what `Insert` gives it at the very end. */
  lemma {:induction false} GuardAfterTail(q: string, alias: string, p: nat, f: string, w: string)
    requires p + |f| == |q| && q[p..] == f
    requires FinalScope(q, alias) == Some(Scope(p, |f|))
    requires RStrip(f) == f && Insert(f) == w
    ensures EnsureFinalWhere(q, alias) == q + w
  {
    var e := EnsureFinalWhere(q, alias);
    var head := q[p..p + |f|];
    assert e == q[..p] + RStrip(head) + Insert(head) + q[p + |f|..];
    TailRewrite(q, p, f, w);
  }

  /** Rewriting a suffix that is its own stripped head appends its insert. */
  lemma {:induction false} TailRewrite(q: string, p: nat, f: string, w: string)
    requires p + |f| == |q| && q[p..] == f
    requires RStrip(f) == f && Insert(f) == w
    ensures q[..p] + RStrip(q[p..p + |f|]) + Insert(q[p..p + |f|]) + q[p + |f|..] == q + w
  {
    assert q[p..p + |f|] == f;
    assert q[p + |f|..] == [];
    assert q[..p] + f == q;
  }

  // ---------------------------------------------------------------------
  // What holds of the layout because it holds of its pieces.

  /** No anchor can start in any piece before the closing clause. */
  ghost predicate PiecesAnchorFree(g: Segments, m: string, d: string) {
    AnchorFree(g.s0, FinalAlias) && AnchorFree(g.s1, FinalAlias) && AnchorFree(g.s2, FinalAlias)
    && AnchorFree(g.s3, FinalAlias) && AnchorFree(g.s4, FinalAlias) && AnchorFree(Closing(g), FinalAlias)
    && AnchorFree(m, FinalAlias) && AnchorFree(d, FinalAlias)
  }

  lemma {:induction false} LayoutFinalAtEnd(g: Segments, m: string, d: string)
    requires PiecesAnchorFree(g, m, d)
    ensures FinalAtEnd(Layout(g, m, d, FinalFrom))
  {
    var t5 := Rest(g, m, FinalFrom);
    RestFinalAtEnd(g, m, d);
    FinalAtEndCons(d, t5);
    FinalAtEndCons(g.s2, d + t5);
    FinalAtEndCons(d, g.s2 + (d + t5));
    FinalAtEndCons(g.s1, d + (g.s2 + (d + t5)));
    FinalAtEndCons(m, g.s1 + (d + (g.s2 + (d + t5))));
    FinalAtEndCons(g.s0, m + (g.s1 + (d + (g.s2 + (d + t5)))));
  }

  lemma {:induction false} RestFinalAtEnd(g: Segments, m: string, d: string)
    requires PiecesAnchorFree(g, m, d)
    ensures FinalAtEnd(Rest(g, m, FinalFrom))
  {
    FinalFromAnchor();
    FinalAtEndCons(Closing(g), FinalFrom);
    FinalAtEndCons(g.s4, Closing(g) + FinalFrom);
    FinalAtEndCons(m, g.s4 + (Closing(g) + FinalFrom));
    FinalAtEndCons(g.s3, m + (g.s4 + (Closing(g) + FinalFrom)));
  }

  /** No `ORDER BY` can start in any piece. */
  ghost predicate PiecesUnordered(g: Segments, m: string, d: string, z: string) {
    OrderByFree(g.s0) && OrderByFree(g.s1) && OrderByFree(g.s2) && OrderByFree(g.s3)
    && OrderByFree(g.s4) && OrderByFree(Closing(g)) && OrderByFree(m) && OrderByFree(d)
    && OrderByFree(z)
  }

  lemma {:induction false} LayoutUnordered(g: Segments, m: string, d: string, z: string)
    requires PiecesUnordered(g, m, d, z)
    ensures OrderByFree(Layout(g, m, d, z))
  {
    var t5 := Rest(g, m, z);
    RestUnordered(g, m, d, z);
    OrderByFreeConcat(d, t5);
    OrderByFreeConcat(g.s2, d + t5);
    OrderByFreeConcat(d, g.s2 + (d + t5));
    OrderByFreeConcat(g.s1, d + (g.s2 + (d + t5)));
    OrderByFreeConcat(m, g.s1 + (d + (g.s2 + (d + t5))));
    OrderByFreeConcat(g.s0, m + (g.s1 + (d + (g.s2 + (d + t5)))));
  }

  lemma {:induction false} RestUnordered(g: Segments, m: string, d: string, z: string)
    requires PiecesUnordered(g, m, d, z)
    ensures OrderByFree(Rest(g, m, z))
  {
    OrderByFreeConcat(Closing(g), z);
    OrderByFreeConcat(g.s4, Closing(g) + z);
    OrderByFreeConcat(m, g.s4 + (Closing(g) + z));
    OrderByFreeConcat(g.s3, m + (g.s4 + (Closing(g) + z)));
  }

  /** The layout holds a colon only where its pieces do. */
  lemma {:induction false} LayoutWithout(g: Segments, m: string, d: string, z: string, c: char)
    requires c !in g.s0 && c !in g.s1 && c !in g.s2 && c !in g.s3 && c !in g.s4
    requires c !in Closing(g) && c !in m && c !in d && c !in z
    ensures c !in Layout(g, m, d, z)
  {
  }

  // ---------------------------------------------------------------------
  // Cleaning the template.

  /** Text wrapped in one newline at each end strips back to itself. */
  lemma {:induction false} StripNewlines(t: string)
    requires |t| > 0 && !IsSpace(t[0]) && !IsSpace(t[|t| - 1])
    ensures Strip("\n" + t + "\n") == t
  {
    var s := "\n" + t + "\n";
    var n := |s|;
    assert s[0] == '\n' && s[1] == t[0] && s[n - 1] == '\n' && s[n - 2] == t[|t| - 1];
    assert Trim(s, 1, n - 1) == s[1..n - 1];
    assert Trim(s, 1, n) == Trim(s, 1, n - 1);
    assert s[1..n - 1] == t;
  }

  /** `query.strip().rstrip(';')` leaves exactly the layout with the
      template's own markers, dates and closing clause. */
  lemma {:induction false} CleanedTemplate(g: Segments)
    requires |g.s0| > 0 && !IsSpace(g.s0[0])
    ensures Cleaned(QueryCruce(g)) == Layout(g, RefMarker, FechaPattern, FinalFrom)
  {
    var l := Layout(g, RefMarker, FechaPattern, FinalFrom);
    LayoutLast(g, RefMarker, FechaPattern, FinalFrom);
    assert l[0] == g.s0[0];
    var t := l + ";";
    assert t[0] == l[0] && t[|t| - 1] == ';';
    assert QueryCruce(g) == "\n" + t + "\n";
    StripNewlines(t);
    assert t[..|t| - 1] == l;
  }

  /** The layout ends with its last piece. */
  lemma {:induction false} LayoutLast(g: Segments, m: string, d: string, z: string)
    requires |z| > 0
    ensures var l := Layout(g, m, d, z); |l| > 0 && l[|l| - 1] == z[|z| - 1]
  {
  }

  // ---------------------------------------------------------------------
  // The placeholders of the layout.

  /** Text without a colon holds no placeholder. */
  lemma {:induction false} NamesNone(x: string)
    requires ':' !in x
    ensures Names(x) == []
  {
    NamesSkip(x, [], x + []);
    assert x + [] == x;
  }

  /** With the reference clause at both markers and no colon anywhere else,
      the layout refers to `:refLike` twice and to nothing else. */
  lemma {:induction false} LayoutRefNames(g: Segments, d: string, z: string)
    requires ':' !in g.s0 && ':' !in g.s1 && ':' !in g.s2 && ':' !in g.s3 && ':' !in g.s4
    requires ':' !in Closing(g) && ':' !in d && ':' !in z
    requires |g.s1| > 0 && IsSpace(g.s1[0]) && |g.s4| > 0 && IsSpace(g.s4[0])
    ensures Names(Layout(g, RefClause, d, z)) == [RefKey, RefKey]
  {
    var t4 := g.s4 + (Closing(g) + z);
    var r := Rest(g, RefClause, z);
    var t1 := g.s1 + (d + (g.s2 + (d + r)));
    LayoutWithout(g, "", "", z, ':');
    assert ':' !in t4;
    NamesNone(t4);
    RefClauseNames(t4);
    NamesSkip(g.s3, RefClause + t4, r);
    NamesSkip(d, r, d + r);
    NamesSkip(g.s2, d + r, g.s2 + (d + r));
    NamesSkip(d, g.s2 + (d + r), d + (g.s2 + (d + r)));
    NamesSkip(g.s1, d + (g.s2 + (d + r)), t1);
    RefClauseNames(t1);
    NamesSkip(g.s0, RefClause + t1, Layout(g, RefClause, d, z));
  }

  /** The guard appended at the end adds no placeholder. */
  lemma {:induction false} GuardNames(l: string)
    ensures Names(l + WhereGuard) == Names(l)
  {
    assert WhereGuard[0] == ' ' && ':' !in WhereGuard;
    NamesConcat(l, WhereGuard);
    NamesNone(WhereGuard);
    assert Names(l) + [] == Names(l);
  }

  // ---------------------------------------------------------------------
  // No condition carries an ORDER BY.

  /** Every part of `xs` is free of `ORDER BY`. */
  ghost predicate AllUnordered(xs: seq<string>) {
    forall i :: 0 <= i < |xs| ==> OrderByFree(xs[i])
  }

  /** Joining parts free of `ORDER BY` with a separator free of it. */
  lemma {:induction false} JoinUnordered(parts: seq<string>, sep: string)
    requires OrderByFree(sep) && AllUnordered(parts)
    ensures OrderByFree(Join(parts, sep))
    decreases |parts|
  {
    if |parts| == 0 {
      assert Join(parts, sep) == "";
    } else if |parts| > 1 {
      JoinUnordered(parts[1..], sep);
      OrderByFreeConcat(parts[0], sep);
      OrderByFreeConcat(parts[0] + sep, Join(parts[1..], sep));
    }
  }

  /** Digits cannot start a keyword. */
  lemma {:induction false} DigitsUnordered(d: string)
    requires forall i :: 0 <= i < |d| ==> IsDigit(d[i])
    ensures OrderByFree(d)
  {
    forall p | 0 <= p < |d| ensures !TriAt(d, p, "ORDER") {
      assert !CiEq(d[p], 'O');
    }
    OrderByFreeByLetters(d);
  }

  lemma {:induction false} MarksUnordered(w: string)
    requires w in [".", ")", ":"]
    ensures OrderByFree(w)
  {
    OrderByFreeByLetters(w);
  }

  lemma {:induction false} SeparatorUnordered(w: string)
    requires w in [" = ", " AND ", ", "]
    ensures OrderByFree(w)
  {
    OrderByFreeByLetters(w);
  }

  lemma {:induction false} WordsUnordered()
    ensures OrderByFree(FinalAlias) && OrderByFree("cr_exc_")
  {
    OrderByFreeByLetters(FinalAlias);
    OrderByFreeByLetters("cr_exc_");
  }

  lemma {:induction false} GuardUnordered()
    ensures OrderByFree(WhereGuard)
  {
    OrderByFreeByLetters(WhereGuard);
  }

  lemma {:induction false} CodigoUnordered()
    ensures OrderByFree(Codigo.name) && OrderByFree(Codigo.key)
  {
    OrderByFreeByLetters(Codigo.name);
    OrderByFreeByLetters(Codigo.key);
  }

  lemma {:induction false} CategoriaUnordered()
    ensures OrderByFree(Categoria.name) && OrderByFree(Categoria.key)
  {
    OrderByFreeByLetters(Categoria.name);
    OrderByFreeByLetters(Categoria.key);
  }

  lemma {:induction false} LineaUnordered()
    ensures OrderByFree(Linea.name) && OrderByFree(Linea.key)
  {
    OrderByFreeByLetters(Linea.name);
    OrderByFreeByLetters(Linea.key);
  }

  lemma {:induction false} FabricaUnordered()
    ensures OrderByFree(Fabrica.name) && OrderByFree(Fabrica.key)
  {
    OrderByFreeByLetters(Fabrica.name);
    OrderByFreeByLetters(Fabrica.key);
  }

  /** A column filter's condition is free of `ORDER BY` when its column and
      parameter names are. */
  lemma {:induction false} ConditionUnordered(c: Column)
    requires OrderByFree(c.name) && OrderByFree(c.key)
    ensures OrderByFree(Condition(c))
  {
    WordsUnordered();
    MarksUnordered(".");
    SeparatorUnordered(" = ");
    MarksUnordered(":");
    OrderByFreeConcat(FinalAlias, ".");
    OrderByFreeConcat(FinalAlias + ".", c.name);
    OrderByFreeConcat(FinalAlias + "." + c.name, " = ");
    OrderByFreeConcat(":", c.key);
    OrderByFreeConcat(FinalAlias + "." + c.name + " = ", Placeholder(c.key));
  }

  lemma {:induction false} CorreccionUnordered()
    ensures OrderByFree(CorreccionCondition)
  {
    WordsUnordered();
    OrderByFreeByLetters(".correccion = 0");
    OrderByFreeConcat(FinalAlias, ".correccion = 0");
  }

  lemma {:induction false} ExclusionHeadUnordered()
    ensures OrderByFree(ExclusionHead)
  {
    WordsUnordered();
    OrderByFreeByLetters("UPPER(LTRIM(RTRIM(");
    OrderByFreeByLetters(".CodigoRecibe))) NOT IN (");
    OrderByFreeConcat("UPPER(LTRIM(RTRIM(", FinalAlias);
    OrderByFreeConcat("UPPER(LTRIM(RTRIM(" + FinalAlias, ".CodigoRecibe))) NOT IN (");
  }

  /** `:cr_exc_<i>` is free of `ORDER BY`. */
  lemma {:induction false} ExcPlaceholderUnordered(i: nat)
    ensures OrderByFree(Placeholder(ExcKey(i)))
  {
    WordsUnordered();
    MarksUnordered(":");
    DigitsUnordered(NatText(i));
    OrderByFreeConcat("cr_exc_", NatText(i));
    OrderByFreeConcat(":", ExcKey(i));
  }

  lemma {:induction false} PlaceholdersAt(ks: seq<string>, i: nat)
    requires i < |ks|
    ensures Placeholders(ks)[i] == Placeholder(ks[i])
    decreases i
  {
    if i > 0 {
      PlaceholdersAt(ks[1..], i - 1);
    }
  }

  /** The exclusion condition is free of `ORDER BY`, however many codes
      it lists. */
  lemma {:induction false} ExclusionUnordered(n: nat)
    ensures OrderByFree(ExclusionClause(n))
  {
    var ps := Placeholders(ExcKeys(n));
    forall i | 0 <= i < |ps| ensures OrderByFree(ps[i]) {
      PlaceholdersAt(ExcKeys(n), i);
      ExcPlaceholderUnordered(i);
    }
    SeparatorUnordered(", ");
    MarksUnordered(")");
    JoinUnordered(ps, ", ");
    ExclusionHeadUnordered();
    OrderByFreeConcat(ExclusionHead, Join(ps, ", "));
    OrderByFreeConcat(ExclusionHead + Join(ps, ", "), ")");
  }

  /** What a catalogue selects is free of `ORDER BY` when all its entries are. */
  lemma {:induction false} SelectedUnordered(cat: seq<(bool, string)>)
    requires forall j :: 0 <= j < |cat| ==> OrderByFree(cat[j].1)
    ensures AllUnordered(Selected(cat))
    decreases |cat|
  {
    if |cat| > 0 {
      var n := |cat| - 1;
      SelectedUnordered(cat[..n]);
      assert OrderByFree(cat[n].1);
    }
  }

  /** No condition the filters produce carries an `ORDER BY`. */
  lemma {:induction false} ConditionsUnordered(f: Filters)
    ensures AllUnordered(FinalConditions(f).0)
  {
    var cat := Catalogue(f);
    ConditionsInOrder(f);
    CodigoUnordered();
    CategoriaUnordered();
    LineaUnordered();
    FabricaUnordered();
    ConditionUnordered(Codigo);
    ConditionUnordered(Categoria);
    ConditionUnordered(Linea);
    ConditionUnordered(Fabrica);
    CorreccionUnordered();
    ExclusionUnordered(|ExcludedCodes(f.excluir)|);
    SelectedUnordered(cat);
  }

  // ---------------------------------------------------------------------
  // The assembled query of the template.

  /** What the markers become: the reference clause when `:refLike` is
      bound, nothing otherwise. */
  function RefText(withRef: bool): string {
    if withRef then RefClause else ""
  }

  /** The colon-free pieces of a shaped template. */
  lemma {:induction false} ShapedColonFree(g: Segments)
    requires Shaped(g)
    ensures ':' !in g.s0 && ':' !in g.s1 && ':' !in g.s2 && ':' !in g.s3 && ':' !in g.s4
    ensures ':' !in Closing(g) && ':' !in FinalFrom
  {
    FinalMarkerPlain();
    FinalFromPlain();
  }

  /** Writing the date in touches nothing but the two placeholders. */
  lemma {:induction false} DatedTemplate(g: Segments, option: int)
    requires Shaped(g)
    ensures Replace(Cleaned(QueryCruce(g)), FechaPattern, FechaLiteral(option))
      == Layout(g, RefMarker, FechaLiteral(option), FinalFrom)
  {
    var d := FechaPattern;
    CleanedTemplate(g);
    ShapedColonFree(g);
    MarkerPlain();
    assert d[0] == ':';
    PatFreeByFirst(g.s0, d);
    PatFreeByFirst(g.s1, d);
    PatFreeByFirst(g.s2, d);
    PatFreeByFirst(g.s3, d);
    PatFreeByFirst(g.s4, d);
    PatFreeByFirst(Closing(g), d);
    PatFreeByFirst(FinalFrom, d);
    PatFreeByFirst(RefMarker, d);
    ReplaceAtDates(g, RefMarker, d, FinalFrom, FechaLiteral(option));
  }

  /** Replacing the markers touches nothing but the two markers. */
  lemma {:induction false} MarkedTemplate(g: Segments, option: int, c: string)
    requires Shaped(g)
    ensures Replace(Layout(g, RefMarker, FechaLiteral(option), FinalFrom), RefMarker, c)
      == Layout(g, c, FechaLiteral(option), FinalFrom)
  {
    var m := RefMarker;
    var lit := FechaLiteral(option);
    assert m[0] == '/';
    FinalFromPlain();
    LiteralPlain(option);
    ClosingMarkerFree(g);
    PatFreeByFirst(FinalFrom, m);
    PatFreeByFirst(lit, m);
    ReplaceAtMarkers(g, m, lit, FinalFrom, c);
  }

  /** Either text the markers become is free of anchors and `ORDER BY`. */
  lemma {:induction false} RefTextFree(withRef: bool)
    ensures AnchorFree(RefText(withRef), FinalAlias) && OrderByFree(RefText(withRef))
  {
    if withRef {
      FinalAliasPlain();
      RefClauseFree(FinalAlias);
    }
  }

  lemma {:induction false} ClosingFree(g: Segments)
    requires Shaped(g)
    ensures AnchorFree(Closing(g), FinalAlias) && OrderByFree(Closing(g))
  {
    FinalAliasPlain();
    FinalMarkerPlain();
    FinalMarkerUnordered();
    AnchorFreeByLetters(FinalMarker, FinalAlias);
    OrderByFreeByLetters(FinalMarker);
    AnchorFreeConcat(FinalMarker, g.s5, FinalAlias);
    OrderByFreeConcat(FinalMarker, g.s5);
  }

  lemma {:induction false} LiteralFree(option: int)
    ensures AnchorFree(FechaLiteral(option), FinalAlias) && OrderByFree(FechaLiteral(option))
  {
    LiteralNoFrom(option);
    LiteralNoOrder(option);
    AnchorFreeByLetters(FechaLiteral(option), FinalAlias);
    OrderByFreeByLetters(FechaLiteral(option));
  }

  /** The guard goes right after the closing `FROM Final2`. */
  lemma {:induction false} GuardedTemplate(g: Segments, option: int, withRef: bool)
    requires Shaped(g)
    ensures var l := Layout(g, RefText(withRef), FechaLiteral(option), FinalFrom);
      EnsureFinalWhere(l, FinalAlias) == l + WhereGuard
  {
    RefTextFree(withRef);
    ClosingFree(g);
    LiteralFree(option);
    LayoutFinalAtEnd(g, RefText(withRef), FechaLiteral(option));
    GuardAtEnd(Layout(g, RefText(withRef), FechaLiteral(option), FinalFrom));
  }

  /** The reference step: the markers become the clause exactly when a
      reference is given, and nothing unbound is left to strip. */
  lemma {:induction false} InjectedTemplate(g: Segments, option: int, ref: Option<string>)
    requires Shaped(g)
    ensures var w := ref.Some? && !Blank(ref.value);
      var r := InjectRefFilter(Replace(Cleaned(QueryCruce(g)), FechaPattern, FechaLiteral(option)), ref);
      && r.0 == Layout(g, RefText(w), FechaLiteral(option), FinalFrom)
      && StripUnboundRefLike(r.0, r.1) == r.0
  {
    var w := ref.Some? && !Blank(ref.value);
    DatedTemplate(g, option);
    MarkedTemplate(g, option, RefText(w));
    if !w {
      ShapedColonFree(g);
      LiteralPlain(option);
      LayoutWithout(g, "", FechaLiteral(option), FinalFrom, ':');
    }
  }

  /** The placeholders of the layout: `:refLike` twice with the clause,
      none without it. */
  lemma {:induction false} LayoutNames(g: Segments, option: int, withRef: bool)
    requires Shaped(g)
    ensures Names(Layout(g, RefText(withRef), FechaLiteral(option), FinalFrom))
      == (if withRef then [RefKey, RefKey] else [])
  {
    var lit := FechaLiteral(option);
    ShapedColonFree(g);
    LiteralPlain(option);
    if withRef {
      LayoutRefNames(g, lit, FinalFrom);
    } else {
      LayoutWithout(g, "", lit, FinalFrom, ':');
      NamesNone(Layout(g, "", lit, FinalFrom));
    }
  }

  /** The prepared template: the date written in, the reference clause at
      both markers exactly when a reference is given (and the markers
      dropped otherwise), the guard after the closing clause. */
  lemma {:induction false} PreparedText(g: Segments, option: int, ref: Option<string>)
    requires Shaped(g)
    ensures var w := ref.Some? && !Blank(ref.value);
      Prepared(QueryCruce(g), option, ref).0
        == Layout(g, RefText(w), FechaLiteral(option), FinalFrom) + WhereGuard
  {
    var w := ref.Some? && !Blank(ref.value);
    InjectedTemplate(g, option, ref);
    GuardedTemplate(g, option, w);
  }

  /** The prepared template refers to `:refLike`, twice, exactly when that
      parameter is bound, and to nothing else. */
  lemma {:induction false} PreparedTemplate(g: Segments, option: int, ref: Option<string>)
    requires Shaped(g)
    ensures var w := ref.Some? && !Blank(ref.value);
      var p := Prepared(QueryCruce(g), option, ref);
      && Names(p.0) == (if w then [RefKey, RefKey] else [])
      && (set n | n in Names(p.0)) == p.1.Keys
  {
    var w := ref.Some? && !Blank(ref.value);
    var p := Prepared(QueryCruce(g), option, ref);
    PreparedText(g, option, ref);
    LayoutNames(g, option, w);
    GuardNames(Layout(g, RefText(w), FechaLiteral(option), FinalFrom));
    RefKeys(Names(p.0), p.1, w);
  }

  /** Names that are `:refLike` twice or nothing match parameters that are
      `refLike` or nothing. */
  lemma {:induction false} RefKeys(ns: seq<string>, params: Params, w: bool)
    requires ns == (if w then [RefKey, RefKey] else [])
    requires params.Keys <= {RefKey} && (RefKey in params <==> w)
    ensures (set n | n in ns) == params.Keys
  {
    if w {
      assert forall n :: n in ns <==> n == RefKey;
    }
  }

  /** The layout is free of `ORDER BY`. */
  lemma {:induction false} LayoutFree(g: Segments, option: int, withRef: bool)
    requires Shaped(g)
    ensures OrderByFree(Layout(g, RefText(withRef), FechaLiteral(option), FinalFrom))
  {
    RefTextFree(withRef);
    ClosingFree(g);
    LiteralFree(option);
    FinalFromPlain();
    OrderByFreeByLetters(FinalFrom);
    LayoutUnordered(g, RefText(withRef), FechaLiteral(option), FinalFrom);
  }

  /** Neither the guarded template nor the conditions after it carry an
      `ORDER BY`, so the default ordering is the one appended. */
  lemma {:induction false} FilteredUnordered(l: string, conds: seq<string>)
    requires OrderByFree(l) && AllUnordered(conds)
    ensures !HasOrderBy(Filtered(l + WhereGuard, conds))
  {
    var guarded := l + WhereGuard;
    GuardUnordered();
    OrderByFreeConcat(l, WhereGuard);
    if |conds| > 0 {
      SeparatorUnordered(" AND ");
      JoinUnordered(conds, " AND ");
      OrderByFreeConcat(guarded, " AND ");
      OrderByFreeConcat(guarded + " AND ", Join(conds, " AND "));
    }
    OrderByFreeNone(Filtered(guarded, conds));
  }

  /** `_build_full_sql_and_params` over the template: the guarded template
      (date written in, reference clause at both markers exactly when a
      reference is given), then `AND` and the filter conditions when there
      are any, then the default ordering; and every placeholder of the
      query is bound and every parameter used. */
  lemma {:induction false} QueryCruceBuild(g: Segments, option: int, f: Filters)
    requires Shaped(g)
    ensures var w := f.referencia.Some? && !Blank(f.referencia.value);
      var r := BuildFullSqlAndParams(QueryCruce(g), option, f);
      && r.0 == Filtered(Layout(g, RefText(w), FechaLiteral(option), FinalFrom) + WhereGuard,
                         FinalConditions(f).0) + DefaultOrder
      && Bound(r.0, r.1)
  {
    var w := f.referencia.Some? && !Blank(f.referencia.value);
    var l := Layout(g, RefText(w), FechaLiteral(option), FinalFrom);
    var conds := FinalConditions(f).0;
    PreparedText(g, option, f.referencia);
    PreparedTemplate(g, option, f.referencia);
    BuildBound(QueryCruce(g), option, f);
    LayoutFree(g, option, w);
    ConditionsUnordered(f);
    FilteredUnordered(l, conds);
    OrderedFacts(Filtered(l + WhereGuard, conds));
  }
}
