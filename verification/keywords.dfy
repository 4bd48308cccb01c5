/** The case-insensitive regular expressions the query assembly searches
    with, written out as matchers over positions of a string:

    - `FROM\s+<alias>\b`                           (`AnchorAt`)
    - `\b(GROUP\s+BY|ORDER\s+BY|HAVING)\b`          (`ClauseAt`)
    - `\bWHERE\b`                                  (`WhereAt`)
    - `\bORDER\s+BY\b`                             (`OrderByAt`)

    Every keyword starts with a non-space character, so the greedy `\s+`
    before it always stops at the end of the whitespace run; the matchers
    use that run (`SkipSpace`) instead of backtracking. */
module Keywords {
  import opened Wrappers
  import opened Text

  /** `IGNORECASE` comparison of two characters. */
  predicate CiEq(a: char, b: char) {
    LowerChar(a) == LowerChar(b)
  }

  /** The literal `w` matches `s` at `i`, ignoring case. */
  predicate CiAt(s: string, i: nat, w: string) {
    i + |w| <= |s| && CiFrom(s, i, w, 0)
  }

  /** The characters of `w` from the `k`-th on match those of `s` from
      `i + k` on, ignoring case. */
  predicate CiFrom(s: string, i: nat, w: string, k: nat)
    requires k <= |w| && i + |w| <= |s|
    decreases |w| - k
  {
    k == |w| || (CiEq(s[i + k], w[k]) && CiFrom(s, i, w, k + 1))
  }

  lemma {:induction false} CiFromChars(s: string, i: nat, w: string, k: nat)
    requires k <= |w| && i + |w| <= |s|
    ensures CiFrom(s, i, w, k) <==> forall j :: k <= j < |w| ==> CiEq(s[i + j], w[j])
    decreases |w| - k
  {
    if k < |w| {
      CiFromChars(s, i, w, k + 1);
    }
  }

  /** `CiAt` character by character. */
  lemma {:induction false} CiAtChars(s: string, i: nat, w: string)
    ensures CiAt(s, i, w) <==> i + |w| <= |s| && forall j :: 0 <= j < |w| ==> CiEq(s[i + j], w[j])
  {
    if i + |w| <= |s| {
      CiFromChars(s, i, w, 0);
    }
  }

  predicate WordBefore(s: string, i: nat) {
    0 < i <= |s| && IsWordChar(s[i - 1])
  }

  predicate WordAt(s: string, i: nat) {
    i < |s| && IsWordChar(s[i])
  }

  /** The regex assertion `\b` at position `i`. */
  predicate Boundary(s: string, i: nat) {
    WordBefore(s, i) != WordAt(s, i)
  }

  /** `w1\s+w2` matches at `i`. */
  predicate PairAt(s: string, i: nat, w1: string, w2: string) {
    i + |w1| <= |s| && CiAt(s, i, w1)
    && SkipSpace(s, i + |w1|) > i + |w1| && CiAt(s, SkipSpace(s, i + |w1|), w2)
  }

  function PairEnd(s: string, i: nat, w1: string, w2: string): nat
    requires i + |w1| <= |s|
  {
    SkipSpace(s, i + |w1|) + |w2|
  }

  /** `\bWHERE\b` matches at `p`. */
  predicate WhereAt(s: string, p: nat) {
    Boundary(s, p) && CiAt(s, p, "WHERE") && Boundary(s, p + 5)
  }

  /** The leftmost position at or after `i` where `\bWHERE\b` matches. */
  function FindWhere(s: string, i: nat): (r: Option<nat>)
    requires i <= |s|
    ensures r.Some? ==> i <= r.value <= |s|
    decreases |s| - i
  {
    if WhereAt(s, i) then Some(i)
    else if i == |s| then None
    else FindWhere(s, i + 1)
  }

  /** The match found is a match. */
  lemma {:induction false} FindWhereSound(s: string, i: nat)
    requires i <= |s|
    ensures var r := FindWhere(s, i); r.Some? ==> WhereAt(s, r.value)
    decreases |s| - i
  {
    if !WhereAt(s, i) && i < |s| {
      FindWhereSound(s, i + 1);
    }
  }

  /** `re.search(r"\bWHERE\b", s, re.IGNORECASE)` succeeds. */
  predicate HasWhere(s: string) {
    FindWhere(s, 0).Some?
  }

  /** The search succeeds exactly when some position matches. */
  lemma {:induction false} HasWhereIff(s: string)
    ensures HasWhere(s) <==> exists p: nat :: p <= |s| && WhereAt(s, p)
  {
    FindWhereSound(s, 0);
    if exists p: nat :: p <= |s| && WhereAt(s, p) {
      var p: nat :| p <= |s| && WhereAt(s, p);
      WhereFoundFrom(s, 0, p);
    }
  }

  lemma {:induction false} WhereFoundFrom(s: string, i: nat, p: nat)
    requires i <= p <= |s| && WhereAt(s, p)
    ensures FindWhere(s, i).Some?
    decreases p - i
  {
    if i < p && !WhereAt(s, i) {
      WhereFoundFrom(s, i + 1, p);
    }
  }

  /** `\bORDER\s+BY\b` matches at `p`. */
  predicate OrderByAt(s: string, p: nat) {
    Boundary(s, p) && PairAt(s, p, "ORDER", "BY") && Boundary(s, PairEnd(s, p, "ORDER", "BY"))
  }

  /** The leftmost position at or after `i` where `\bORDER\s+BY\b` matches. */
  function FindOrderBy(s: string, i: nat): (r: Option<nat>)
    requires i <= |s|
    ensures r.Some? ==> i <= r.value <= |s|
    decreases |s| - i
  {
    if OrderByAt(s, i) then Some(i)
    else if i == |s| then None
    else FindOrderBy(s, i + 1)
  }

  /** The match found is a match. */
  lemma {:induction false} FindOrderBySound(s: string, i: nat)
    requires i <= |s|
    ensures var r := FindOrderBy(s, i); r.Some? ==> OrderByAt(s, r.value)
    decreases |s| - i
  {
    if !OrderByAt(s, i) && i < |s| {
      FindOrderBySound(s, i + 1);
    }
  }

  /** `re.search(r"\bORDER\s+BY\b", s, re.IGNORECASE)` succeeds. */
  predicate HasOrderBy(s: string) {
    FindOrderBy(s, 0).Some?
  }

  /** The search succeeds exactly when some position matches. */
  lemma {:induction false} HasOrderByIff(s: string)
    ensures HasOrderBy(s) <==> exists p: nat :: p <= |s| && OrderByAt(s, p)
  {
    FindOrderBySound(s, 0);
    if exists p: nat :: p <= |s| && OrderByAt(s, p) {
      var p: nat :| p <= |s| && OrderByAt(s, p);
      OrderByFoundFrom(s, 0, p);
    }
  }

  lemma {:induction false} OrderByFoundFrom(s: string, i: nat, p: nat)
    requires i <= p <= |s| && OrderByAt(s, p)
    ensures FindOrderBy(s, i).Some?
    decreases p - i
  {
    if i < p && !OrderByAt(s, i) {
      OrderByFoundFrom(s, i + 1, p);
    }
  }

  /** Where the alternation `GROUP\s+BY|ORDER\s+BY|HAVING` ends when it
      matches at `p`; the three branches start with different letters, so
      at most one of them applies. */
  function KeywordEnd(s: string, p: nat): (r: Option<nat>)
    ensures r.Some? ==> p < r.value <= |s|
  {
    if PairAt(s, p, "GROUP", "BY") then Some(PairEnd(s, p, "GROUP", "BY"))
    else if PairAt(s, p, "ORDER", "BY") then Some(PairEnd(s, p, "ORDER", "BY"))
    else if CiAt(s, p, "HAVING") then Some(p + 6)
    else None
  }

  /** `\b(GROUP\s+BY|ORDER\s+BY|HAVING)\b` matches at `p`. */
  predicate ClauseAt(s: string, p: nat) {
    Boundary(s, p) && KeywordEnd(s, p).Some? && Boundary(s, KeywordEnd(s, p).value)
  }

  /** The leftmost position at or after `i` where a trailing clause keyword
      matches (the split point of `re.split(..., maxsplit=1)`). */
  function FindClause(s: string, i: nat): (r: Option<nat>)
    requires i <= |s|
    ensures r.Some? ==> i <= r.value <= |s|
    decreases |s| - i
  {
    if ClauseAt(s, i) then Some(i)
    else if i == |s| then None
    else FindClause(s, i + 1)
  }

  /** The match found is a match. */
  lemma {:induction false} FindClauseSound(s: string, i: nat)
    requires i <= |s|
    ensures var r := FindClause(s, i); r.Some? ==> ClauseAt(s, r.value)
    decreases |s| - i
  {
    if !ClauseAt(s, i) && i < |s| {
      FindClauseSound(s, i + 1);
    }
  }

  /** The match found is the first. */
  lemma {:induction false} FindClauseFirst(s: string, i: nat)
    requires i <= |s|
    ensures var r := FindClause(s, i);
      forall p :: i <= p <= |s| && (r.None? || p < r.value) ==> !ClauseAt(s, p)
    decreases |s| - i
  {
    if !ClauseAt(s, i) && i < |s| {
      FindClauseFirst(s, i + 1);
    }
  }

  /** No trailing clause keyword starts in `[a, b)`. */
  ghost predicate NoClauseIn(s: string, a: nat, b: nat) {
    forall i :: a <= i < b ==> !ClauseAt(s, i)
  }

  lemma {:induction false} NoClauseInJoin(s: string, a: nat, b: nat, c: nat)
    requires NoClauseIn(s, a, b) && NoClauseIn(s, b, c)
    ensures NoClauseIn(s, a, c)
  {
  }

  /** The first clause keyword is the one with none before it. */
  lemma {:induction false} FindClauseIs(s: string, k: nat)
    requires k <= |s| && NoClauseIn(s, 0, k)
    ensures k < |s| && ClauseAt(s, k) ==> FindClause(s, 0) == Some(k)
    ensures k == |s| ==> FindClause(s, 0).None?
  {
    FindClauseFrom(s, 0, k);
  }

  lemma {:induction false} FindClauseFrom(s: string, i: nat, k: nat)
    requires i <= k <= |s| && NoClauseIn(s, i, k)
    ensures k < |s| && ClauseAt(s, k) ==> FindClause(s, i) == Some(k)
    ensures k == |s| ==> FindClause(s, i).None?
    decreases k - i
  {
    if i < k {
      assert !ClauseAt(s, i);
      FindClauseFrom(s, i + 1, k);
    } else if k == |s| {
      assert !ClauseAt(s, |s|);
    }
  }

  /** `\s+<alias>\b` matches from `i`: one or more whitespace characters,
      then the alias, then a word boundary. */
  predicate AliasAfter(s: string, i: nat, alias: string)
    decreases |s| - i
  {
    i < |s| && IsSpace(s[i])
    && ((CiAt(s, i + 1, alias) && Boundary(s, i + 1 + |alias|)) || AliasAfter(s, i + 1, alias))
  }

  /** `FROM\s+<alias>\b` matches at `p`. */
  predicate AnchorAt(s: string, p: nat, alias: string) {
    CiAt(s, p, "FROM") && AliasAfter(s, p + 4, alias)
  }

  /** The leftmost position at or after `i` where the anchor matches. */
  function FindAnchor(s: string, alias: string, i: nat): (r: Option<nat>)
    requires i <= |s|
    ensures r.Some? ==> i <= r.value <= |s|
    decreases |s| - i
  {
    if AnchorAt(s, i, alias) then Some(i)
    else if i == |s| then None
    else FindAnchor(s, alias, i + 1)
  }

  /** The match found is a match. */
  lemma {:induction false} FindAnchorSound(s: string, alias: string, i: nat)
    requires i <= |s|
    ensures var r := FindAnchor(s, alias, i); r.Some? ==> AnchorAt(s, r.value, alias)
    decreases |s| - i
  {
    if !AnchorAt(s, i, alias) && i < |s| {
      FindAnchorSound(s, alias, i + 1);
    }
  }

  /** The match found is the first. */
  lemma {:induction false} FindAnchorFirst(s: string, alias: string, i: nat)
    requires i <= |s|
    ensures var r := FindAnchor(s, alias, i);
      forall p :: i <= p <= |s| && (r.None? || p < r.value) ==> !AnchorAt(s, p, alias)
    decreases |s| - i
  {
    if !AnchorAt(s, i, alias) && i < |s| {
      FindAnchorFirst(s, alias, i + 1);
    }
  }

  /** The first match is the one with none before it. */
  lemma {:induction false} FindAnchorIs(s: string, alias: string, p: nat)
    requires p <= |s| && AnchorAt(s, p, alias)
    requires forall p' :: 0 <= p' < p ==> !AnchorAt(s, p', alias)
    ensures FindAnchor(s, alias, 0) == Some(p)
  {
    FindAnchorFrom(s, alias, 0, p);
  }

  lemma {:induction false} FindAnchorFrom(s: string, alias: string, i: nat, p: nat)
    requires i <= p <= |s| && AnchorAt(s, p, alias)
    requires forall p' :: i <= p' < p ==> !AnchorAt(s, p', alias)
    ensures FindAnchor(s, alias, i) == Some(p)
    decreases p - i
  {
    if i < p {
      assert !AnchorAt(s, i, alias);
      FindAnchorFrom(s, alias, i + 1, p);
    }
  }

  lemma {:induction false} FindAnchorNone(s: string, alias: string)
    requires forall p :: 0 <= p <= |s| ==> !AnchorAt(s, p, alias)
    ensures FindAnchor(s, alias, 0).None?
  {
    FindAnchorNoneFrom(s, alias, 0);
  }

  lemma {:induction false} FindAnchorNoneFrom(s: string, alias: string, i: nat)
    requires i <= |s| && forall p :: i <= p <= |s| ==> !AnchorAt(s, p, alias)
    ensures FindAnchor(s, alias, i).None?
    decreases |s| - i
  {
    assert !AnchorAt(s, i, alias);
    if i < |s| {
      FindAnchorNoneFrom(s, alias, i + 1);
    }
  }

  /** An alias whose first character is not whitespace (as `Final2`). */
  predicate PlainAlias(alias: string) {
    |alias| > 0 && !IsSpace(alias[0])
  }

  lemma {:induction false} CiEqSpace(a: char, b: char)
    ensures IsSpace(a) && !IsSpace(b) ==> !CiEq(a, b)
  {
  }

  /** For a plain alias the whitespace run before it is the whole run. */
  lemma {:induction false} AliasAfterForm(s: string, i: nat, alias: string)
    requires i <= |s| && PlainAlias(alias)
    ensures AliasAfter(s, i, alias) <==>
      (i < |s| && IsSpace(s[i]) && CiAt(s, SkipSpace(s, i), alias)
       && Boundary(s, SkipSpace(s, i) + |alias|))
    decreases |s| - i
  {
    if i < |s| && IsSpace(s[i]) {
      if i + 1 < |s| && IsSpace(s[i + 1]) {
        assert !CiAt(s, i + 1, alias) by { CiEqSpace(s[i + 1], alias[0]); }
        AliasAfterForm(s, i + 1, alias);
        assert SkipSpace(s, i) == SkipSpace(s, i + 1);
      } else {
        assert SkipSpace(s, i) == i + 1 by { SkipSpaceUnique(s, i, i + 1); }
        assert !AliasAfter(s, i + 1, alias);
      }
    }
  }

  /** Where the anchor's match ends. */
  function AnchorEnd(s: string, p: nat, alias: string): nat
    requires p + 4 <= |s|
  {
    SkipSpace(s, p + 4) + |alias|
  }

  /** The anchor in its deterministic form: `FROM`, a non-empty whitespace
      run, the alias, a word boundary. */
  lemma {:induction false} AnchorForm(s: string, p: nat, alias: string)
    requires PlainAlias(alias)
    ensures AnchorAt(s, p, alias) <==>
      (CiAt(s, p, "FROM") && SkipSpace(s, p + 4) > p + 4
       && CiAt(s, SkipSpace(s, p + 4), alias) && Boundary(s, AnchorEnd(s, p, alias)))
  {
    if CiAt(s, p, "FROM") {
      AliasAfterForm(s, p + 4, alias);
    }
  }

  // ---------------------------------------------------------------------
  // Matches are local: text in front of a position changes nothing but the
  // word boundary at that very position.

  lemma {:induction false} SkipSpaceShift(a: string, y: string, k: nat)
    requires k <= |y|
    ensures SkipSpace(a + y, |a| + k) == |a| + SkipSpace(y, k)
  {
    var j := SkipSpace(y, k);
    var s := a + y;
    assert forall m :: |a| + k <= m < |a| + j ==> s[m] == y[m - |a|];
    SkipSpaceUnique(s, |a| + k, |a| + j);
  }

  lemma {:induction false} CiAtShift(a: string, y: string, k: nat, w: string)
    ensures CiAt(a + y, |a| + k, w) <==> CiAt(y, k, w)
  {
    CiAtChars(a + y, |a| + k, w);
    CiAtChars(y, k, w);
    if k + |w| <= |y| {
      forall j | 0 <= j < |w|
        ensures CiEq((a + y)[|a| + k + j], w[j]) == CiEq(y[k + j], w[j])
      {
      }
    }
  }

  lemma {:induction false} BoundaryShift(a: string, y: string, k: nat)
    requires k <= |y|
    requires k > 0 || a == [] || !IsWordChar(a[|a| - 1])
    ensures Boundary(a + y, |a| + k) <==> Boundary(y, k)
  {
    if k < |y| {
      assert (a + y)[|a| + k] == y[k];
    }
    if k > 0 {
      assert (a + y)[|a| + k - 1] == y[k - 1];
    }
  }

  lemma {:induction false} PairShift(a: string, y: string, k: nat, w1: string, w2: string)
    requires k <= |y|
    ensures PairAt(a + y, |a| + k, w1, w2) <==> PairAt(y, k, w1, w2)
    ensures PairAt(y, k, w1, w2) ==> PairEnd(a + y, |a| + k, w1, w2) == |a| + PairEnd(y, k, w1, w2)
  {
    CiAtShift(a, y, k, w1);
    if k + |w1| <= |y| {
      SkipSpaceShift(a, y, k + |w1|);
      CiAtShift(a, y, SkipSpace(y, k + |w1|), w2);
    }
  }

  lemma {:induction false} AliasAfterShift(a: string, y: string, i: nat, alias: string)
    requires i <= |y|
    ensures AliasAfter(a + y, |a| + i, alias) <==> AliasAfter(y, i, alias)
    decreases |y| - i
  {
    if i < |y| {
      var s := a + y;
      assert s[|a| + i] == y[i];
      assert CiAt(s, |a| + i + 1, alias) <==> CiAt(y, i + 1, alias) by {
        CiAtShift(a, y, i + 1, alias);
      }
      if i + 1 + |alias| <= |y| {
        assert Boundary(s, |a| + i + 1 + |alias|) <==> Boundary(y, i + 1 + |alias|) by {
          BoundaryShift(a, y, i + 1 + |alias|);
        }
      }
      AliasAfterShift(a, y, i + 1, alias);
    }
  }

  lemma {:induction false} AnchorShift(a: string, y: string, k: nat, alias: string)
    requires k <= |y|
    ensures AnchorAt(a + y, |a| + k, alias) <==> AnchorAt(y, k, alias)
    ensures AnchorAt(y, k, alias) ==> AnchorEnd(a + y, |a| + k, alias) == |a| + AnchorEnd(y, k, alias)
  {
    assert CiAt(a + y, |a| + k, "FROM") <==> CiAt(y, k, "FROM") by {
      CiAtShift(a, y, k, "FROM");
    }
    if k + 4 <= |y| {
      AliasAfterShift(a, y, k + 4, alias);
      SkipSpaceShift(a, y, k + 4);
    }
  }

  lemma {:induction false} KeywordEndShift(a: string, y: string, k: nat)
    requires k <= |y|
    ensures KeywordEnd(a + y, |a| + k).Some? <==> KeywordEnd(y, k).Some?
    ensures KeywordEnd(y, k).Some? ==> KeywordEnd(a + y, |a| + k).value == |a| + KeywordEnd(y, k).value
  {
    PairShift(a, y, k, "GROUP", "BY");
    PairShift(a, y, k, "ORDER", "BY");
    CiAtShift(a, y, k, "HAVING");
  }

  /** A clause keyword found after a prefix is found in the text that follows
      it; the converse holds when nothing word-like precedes it. */
  lemma {:induction false} ClauseShift(a: string, y: string, k: nat)
    requires k <= |y|
    ensures ClauseAt(a + y, |a| + k) ==> ClauseAt(y, k)
    ensures ClauseAt(y, k) && (k > 0 || a == [] || !IsWordChar(a[|a| - 1])) ==> ClauseAt(a + y, |a| + k)
  {
    KeywordEndShift(a, y, k);
    if KeywordEnd(y, k).Some? {
      var e := KeywordEnd(y, k).value;
      BoundaryShift(a, y, e);
      assert WordAt(y, k) by { KeywordStartsWord(y, k); }
      assert (a + y)[|a| + k] == y[k];
      if k > 0 || a == [] || !IsWordChar(a[|a| - 1]) {
        BoundaryShift(a, y, k);
      }
    }
  }

  lemma {:induction false} OrderByShift(a: string, y: string, k: nat)
    requires k <= |y|
    ensures OrderByAt(a + y, |a| + k) ==> OrderByAt(y, k)
    ensures OrderByAt(y, k) && (k > 0 || a == [] || !IsWordChar(a[|a| - 1])) ==> OrderByAt(a + y, |a| + k)
  {
    PairShift(a, y, k, "ORDER", "BY");
    if PairAt(y, k, "ORDER", "BY") {
      BoundaryShift(a, y, PairEnd(y, k, "ORDER", "BY"));
      assert CiEq(y[k + 0], "ORDER"[0]);
      assert WordAt(y, k) && (a + y)[|a| + k] == y[k];
      if k > 0 || a == [] || !IsWordChar(a[|a| - 1]) {
        BoundaryShift(a, y, k);
      }
    }
  }

  lemma {:induction false} WhereShift(a: string, y: string, k: nat)
    requires k <= |y|
    requires k > 0 || a == [] || !IsWordChar(a[|a| - 1])
    ensures WhereAt(a + y, |a| + k) <==> WhereAt(y, k)
  {
    CiAtShift(a, y, k, "WHERE");
    BoundaryShift(a, y, k);
    if k + 5 <= |y| {
      BoundaryShift(a, y, k + 5);
    }
  }

  /** A clause keyword starts with one of its three letters and ends with a
      letter. */
  lemma {:induction false} KeywordStartsWord(s: string, p: nat)
    ensures KeywordEnd(s, p).Some? ==>
      WordAt(s, p) && IsAsciiLetter(s[p]) && WordBefore(s, KeywordEnd(s, p).value)
      && (CiEq(s[p], 'G') || CiEq(s[p], 'O') || CiEq(s[p], 'H'))
  {
    if PairAt(s, p, "GROUP", "BY") || PairAt(s, p, "ORDER", "BY") {
      var w := if PairAt(s, p, "GROUP", "BY") then "GROUP" else "ORDER";
      var g := SkipSpace(s, p + 5);
      assert CiEq(s[p + 0], w[0]);
      assert CiEq(s[g + 1], "BY"[1]);
    } else if CiAt(s, p, "HAVING") {
      assert CiEq(s[p + 0], "HAVING"[0]);
      assert CiEq(s[p + 5], "HAVING"[5]);
    }
  }

  /** What each character of a clause keyword's match is. */
  lemma {:induction false} ClauseChar(s: string, i: nat, m: nat)
    ensures KeywordEnd(s, i).Some? && i <= m < KeywordEnd(s, i).value ==>
      (m < i + 5 ==> !IsSpace(s[m]))
      && (IsSpace(s[m]) ==>
            i + 5 < |s| && i + 5 <= m < SkipSpace(s, i + 5)
            && KeywordEnd(s, i).value == SkipSpace(s, i + 5) + 2
            && SkipSpace(s, i + 5) < |s| && CiEq(s[SkipSpace(s, i + 5)], 'B'))
  {
    if KeywordEnd(s, i).Some? && i <= m < KeywordEnd(s, i).value {
      if PairAt(s, i, "GROUP", "BY") {
        PairChar(s, i, m, "GROUP", "BY");
      } else if PairAt(s, i, "ORDER", "BY") {
        PairChar(s, i, m, "ORDER", "BY");
      } else {
        WordChar(s, i, m, "HAVING");
      }
    }
  }

  /** Inside a `w1\s+w2` match with a five-letter `w1`, whitespace lies only
      in the run between the two words. */
  lemma {:induction false} PairChar(s: string, i: nat, m: nat, w1: string, w2: string)
    requires |w1| == 5 && |w2| == 2 && PairAt(s, i, w1, w2) && i <= m < PairEnd(s, i, w1, w2)
    requires forall k :: 0 <= k < 5 ==> !IsSpace(w1[k])
    requires !IsSpace(w2[0]) && !IsSpace(w2[1])
    ensures m < i + 5 ==> !IsSpace(s[m])
    ensures IsSpace(s[m]) ==>
      i + 5 < |s| && i + 5 <= m < SkipSpace(s, i + 5)
      && SkipSpace(s, i + 5) < |s| && CiEq(s[SkipSpace(s, i + 5)], w2[0])
  {
    var g := SkipSpace(s, i + 5);
    CiAtChars(s, i, w1);
    CiAtChars(s, g, w2);
    assert CiEq(s[g + 0], w2[0]);
    if m < i + 5 {
      assert CiEq(s[i + (m - i)], w1[m - i]);
      CiEqSpace(s[m], w1[m - i]);
    } else if m >= g {
      assert CiEq(s[g + (m - g)], w2[m - g]);
      CiEqSpace(s[m], w2[m - g]);
    }
  }

  /** A match of a word without whitespace holds no whitespace. */
  lemma {:induction false} WordChar(s: string, i: nat, m: nat, w: string)
    requires CiAt(s, i, w) && i <= m < i + |w|
    requires forall k :: 0 <= k < |w| ==> !IsSpace(w[k])
    ensures !IsSpace(s[m])
  {
    CiAtChars(s, i, w);
    assert CiEq(s[i + (m - i)], w[m - i]);
    CiEqSpace(s[m], w[m - i]);
  }

  // ---------------------------------------------------------------------
  // Matches only read the text they span and the character after it.

  lemma {:induction false} SkipSpaceTransfer(s: string, t: string, i: nat, m: nat)
    requires i <= m <= |s| && m <= |t| && s[..m] == t[..m]
    requires SkipSpace(s, i) < m
    ensures SkipSpace(t, i) == SkipSpace(s, i)
  {
    var j := SkipSpace(s, i);
    assert forall k :: i <= k <= j ==> s[k] == s[..m][k] == t[..m][k] == t[k];
    SkipSpaceUnique(t, i, j);
  }

  lemma {:induction false} CiAtTransfer(s: string, t: string, i: nat, w: string, m: nat)
    requires m <= |s| && m <= |t| && s[..m] == t[..m] && i + |w| <= m
    ensures CiAt(s, i, w) <==> CiAt(t, i, w)
  {
    CiAtChars(s, i, w);
    CiAtChars(t, i, w);
    forall j | 0 <= j < |w|
      ensures CiEq(s[i + j], w[j]) == CiEq(t[i + j], w[j])
    {
      assert s[i + j] == s[..m][i + j] == t[..m][i + j] == t[i + j];
    }
  }

  /** An anchor match carries over to a text that agrees up to its end and
      has the same kind of character right after it. */
  lemma {:induction false} AnchorTransfer(s: string, t: string, p: nat, alias: string, m: nat)
    requires PlainAlias(alias) && AnchorAt(s, p, alias)
    requires m <= |s| && m <= |t| && s[..m] == t[..m]
    requires p + 4 <= |s| && AnchorEnd(s, p, alias) <= m
    requires WordAt(s, AnchorEnd(s, p, alias)) == WordAt(t, AnchorEnd(s, p, alias))
    ensures AnchorAt(t, p, alias) && p + 4 <= |t| && AnchorEnd(t, p, alias) == AnchorEnd(s, p, alias)
  {
    AnchorForm(s, p, alias);
    AnchorForm(t, p, alias);
    var j := SkipSpace(s, p + 4);
    CiAtTransfer(s, t, p, "FROM", m);
    SkipSpaceTransfer(s, t, p + 4, m);
    CiAtTransfer(s, t, j, alias, m);
    var e := j + |alias|;
    assert s[e - 1] == s[..m][e - 1] == t[..m][e - 1] == t[e - 1];
  }

  lemma {:induction false} PairTransfer(s: string, t: string, p: nat, w1: string, w2: string, m: nat)
    requires PairAt(s, p, w1, w2)
    requires m <= |s| && m <= |t| && s[..m] == t[..m] && PairEnd(s, p, w1, w2) <= m
    requires |w2| > 0
    ensures PairAt(t, p, w1, w2) && PairEnd(t, p, w1, w2) == PairEnd(s, p, w1, w2)
  {
    CiAtTransfer(s, t, p, w1, m);
    SkipSpaceTransfer(s, t, p + |w1|, m);
    CiAtTransfer(s, t, SkipSpace(s, p + |w1|), w2, m);
  }

  lemma {:induction false} KeywordEndTransfer(s: string, t: string, p: nat, m: nat)
    requires KeywordEnd(s, p).Some?
    requires m <= |s| && m <= |t| && s[..m] == t[..m] && KeywordEnd(s, p).value <= m
    ensures KeywordEnd(t, p) == KeywordEnd(s, p)
  {
    if PairAt(s, p, "GROUP", "BY") {
      PairTransfer(s, t, p, "GROUP", "BY", m);
    } else if PairAt(s, p, "ORDER", "BY") {
      assert CiEq(s[p + 0], "ORDER"[0]);
      assert !CiEq(s[p + 0], "GROUP"[0]);
      CiAtTransfer(s, t, p, "GROUP", m);
      PairTransfer(s, t, p, "ORDER", "BY", m);
    } else {
      assert CiEq(s[p + 0], "HAVING"[0]);
      assert !CiEq(s[p + 0], "GROUP"[0]) && !CiEq(s[p + 0], "ORDER"[0]);
      CiAtTransfer(s, t, p, "GROUP", m);
      CiAtTransfer(s, t, p, "ORDER", m);
      CiAtTransfer(s, t, p, "HAVING", m);
    }
  }

  lemma {:induction false} ClauseTransfer(s: string, t: string, p: nat, m: nat)
    requires ClauseAt(s, p)
    requires m <= |s| && m <= |t| && s[..m] == t[..m] && KeywordEnd(s, p).value <= m
    requires WordAt(s, KeywordEnd(s, p).value) == WordAt(t, KeywordEnd(s, p).value)
    ensures ClauseAt(t, p)
  {
    KeywordEndTransfer(s, t, p, m);
    var e := KeywordEnd(s, p).value;
    assert s[e - 1] == s[..m][e - 1] == t[..m][e - 1] == t[e - 1];
    assert s[p] == s[..m][p] == t[..m][p] == t[p];
    if p > 0 {
      assert s[p - 1] == s[..m][p - 1] == t[..m][p - 1] == t[p - 1];
    }
  }

  lemma {:induction false} WhereTransfer(s: string, t: string, p: nat, m: nat)
    requires WhereAt(s, p)
    requires m <= |s| && m <= |t| && s[..m] == t[..m] && p + 5 <= m
    requires WordAt(s, p + 5) == WordAt(t, p + 5)
    ensures WhereAt(t, p)
  {
    CiAtTransfer(s, t, p, "WHERE", m);
    assert s[p + 4] == s[..m][p + 4] == t[..m][p + 4] == t[p + 4];
    assert s[p] == s[..m][p] == t[..m][p] == t[p];
    if p > 0 {
      assert s[p - 1] == s[..m][p - 1] == t[..m][p - 1] == t[p - 1];
    }
  }

  // ---------------------------------------------------------------------
  // Text in which no match can start, whatever follows it.

  ghost predicate AnchorFree(s: string, alias: string) {
    forall x: string, p: nat :: p < |s| ==> !AnchorAt(s + x, p, alias)
  }

  ghost predicate ClauseFree(s: string) {
    forall x: string, p: nat :: p < |s| ==> !ClauseAt(s + x, p)
  }

  ghost predicate OrderByFree(s: string) {
    forall x: string, p: nat :: p < |s| ==> !OrderByAt(s + x, p)
  }

  lemma {:induction false} AnchorFreeConcat(a: string, b: string, alias: string)
    requires PlainAlias(alias) && AnchorFree(a, alias) && AnchorFree(b, alias)
    ensures AnchorFree(a + b, alias)
  {
    forall x: string, p: nat | p < |a + b|
      ensures !AnchorAt(a + b + x, p, alias)
    {
      assert a + b + x == a + (b + x);
      if p < |a| {
        assert !AnchorAt(a + (b + x), p, alias);
      } else {
        AnchorShift(a, b + x, p - |a|, alias);
        assert !AnchorAt(b + x, p - |a|, alias);
      }
    }
  }

  lemma {:induction false} ClauseFreeConcat(a: string, b: string)
    requires ClauseFree(a) && ClauseFree(b)
    ensures ClauseFree(a + b)
  {
    forall x: string, p: nat | p < |a + b|
      ensures !ClauseAt(a + b + x, p)
    {
      ClauseFreeSplit(a, b, x, p);
    }
  }

  lemma {:induction false} ClauseFreeSplit(a: string, b: string, x: string, p: nat)
    requires ClauseFree(a) && ClauseFree(b) && p < |a + b|
    ensures !ClauseAt(a + b + x, p)
  {
    Assoc(a, b, x);
    if p < |a| {
      ClauseFreeAt(a, b + x, p);
    } else {
      ClauseFreeAfter(a, b, x, p - |a|);
    }
  }

  lemma {:induction false} ClauseFreeAt(a: string, y: string, p: nat)
    requires ClauseFree(a) && p < |a|
    ensures !ClauseAt(a + y, p)
  {
  }

  lemma {:induction false} ClauseFreeAfter(a: string, b: string, x: string, k: nat)
    requires ClauseFree(b) && k < |b|
    ensures !ClauseAt(a + (b + x), |a| + k)
  {
    ClauseShift(a, b + x, k);
    assert !ClauseAt(b + x, k);
  }

  lemma {:induction false} OrderByFreeConcat(a: string, b: string)
    requires OrderByFree(a) && OrderByFree(b)
    ensures OrderByFree(a + b)
  {
    forall x: string, p: nat | p < |a + b|
      ensures !OrderByAt(a + b + x, p)
    {
      assert a + b + x == a + (b + x);
      if p < |a| {
        assert !OrderByAt(a + (b + x), p);
      } else {
        OrderByShift(a, b + x, p - |a|);
        assert !OrderByAt(b + x, p - |a|);
      }
    }
  }

  /** Text where no match can start has no match at all. */
  lemma {:induction false} AnchorFreeNone(s: string, alias: string)
    requires AnchorFree(s, alias)
    ensures FindAnchor(s, alias, 0).None?
  {
    forall p: nat | p <= |s|
      ensures !AnchorAt(s, p, alias)
    {
      assert s + "" == s;
      if p < |s| {
        assert !AnchorAt(s + "", p, alias);
      }
    }
    FindAnchorNone(s, alias);
  }

  lemma {:induction false} OrderByFreeNone(s: string)
    requires OrderByFree(s)
    ensures !HasOrderBy(s)
  {
    forall p: nat | p <= |s|
      ensures !OrderByAt(s, p)
    {
      assert s + "" == s;
      if p < |s| {
        assert !OrderByAt(s + "", p);
      }
    }
    OrderByNoneFrom(s, 0);
  }

  lemma {:induction false} OrderByNoneFrom(s: string, i: nat)
    requires i <= |s| && forall p :: i <= p <= |s| ==> !OrderByAt(s, p)
    ensures FindOrderBy(s, i).None?
    decreases |s| - i
  {
    assert !OrderByAt(s, i);
    if i < |s| {
      OrderByNoneFrom(s, i + 1);
    }
  }

  lemma {:induction false} ClauseFreeNone(s: string)
    requires ClauseFree(s)
    ensures FindClause(s, 0).None?
  {
    forall p: nat | p <= |s|
      ensures !ClauseAt(s, p)
    {
      assert s + "" == s;
      if p < |s| {
        assert !ClauseAt(s + "", p);
      }
    }
    FindClauseIs(s, |s|);
  }

  /** The first three letters of `w` (ignoring case) start at `p`, as far
      as `s` goes. */
  predicate TriAt(s: string, p: nat, w: string)
    requires p < |s| && |w| >= 3
  {
    CiEq(s[p], w[0])
    && (p + 1 < |s| ==> CiEq(s[p + 1], w[1]) && (p + 2 < |s| ==> CiEq(s[p + 2], w[2])))
  }

  predicate NoTri(s: string, w: string)
    requires |w| >= 3
  {
    forall p :: 0 <= p < |s| ==> !TriAt(s, p, w)
  }

  lemma {:induction false} TriOfCiAt(s: string, x: string, p: nat, w: string)
    requires p < |s| && |w| >= 3 && CiAt(s + x, p, w)
    ensures TriAt(s, p, w)
  {
    CiAtChars(s + x, p, w);
    assert (s + x)[p] == s[p];
    if p + 1 < |s| {
      assert (s + x)[p + 1] == s[p + 1];
    }
    if p + 2 < |s| {
      assert (s + x)[p + 2] == s[p + 2];
    }
  }

  /** Sufficient conditions read off a text's letters. */
  lemma {:induction false} AnchorFreeByLetters(s: string, alias: string)
    requires NoTri(s, "FROM")
    ensures AnchorFree(s, alias)
  {
    forall x: string, p: nat | p < |s| && AnchorAt(s + x, p, alias)
      ensures false
    {
      TriOfCiAt(s, x, p, "FROM");
    }
  }

  lemma {:induction false} OrderByFreeByLetters(s: string)
    requires NoTri(s, "ORDER")
    ensures OrderByFree(s)
  {
    forall x: string, p: nat | p < |s| && OrderByAt(s + x, p)
      ensures false
    {
      TriOfCiAt(s, x, p, "ORDER");
    }
  }

  lemma {:induction false} ClauseFreeByLetters(s: string)
    requires NoTri(s, "GROUP") && NoTri(s, "ORDER") && NoTri(s, "HAVING")
    ensures ClauseFree(s)
  {
    forall x: string, p: nat | p < |s| && ClauseAt(s + x, p)
      ensures false
    {
      if PairAt(s + x, p, "GROUP", "BY") {
        TriOfCiAt(s, x, p, "GROUP");
      } else if PairAt(s + x, p, "ORDER", "BY") {
        TriOfCiAt(s, x, p, "ORDER");
      } else {
        TriOfCiAt(s, x, p, "HAVING");
      }
    }
  }
}
