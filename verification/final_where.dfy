/** Guaranteeing a WHERE clause in the final SELECT of a composed query
    (`ensure_final_where`): the final scope starts at the first
    `FROM <alias>` and runs up to its first GROUP BY / ORDER BY / HAVING;
    if that stretch has no WHERE, the guard ` WHERE 1=1 ` is put after it,
    so that filters can always be appended with ` AND ...`. */
module FinalWhere {
  import opened Wrappers
  import opened Text
  import opened Keywords

  /** The guard the application puts after the head of the final scope. */
  const WhereGuard := " WHERE 1=1 "

  /** The alias of the final CTE the application filters. */
  const FinalAlias := "Final2"

  /** The final scope of a query: `start` is where `FROM <alias>` matches,
      `split` (relative to `start`) is where its trailing GROUP BY / ORDER BY /
      HAVING part begins, or the length of the scope if it has none. */
  datatype Scope = Scope(start: nat, split: nat)

  function FinalScope(q: string, alias: string): (r: Option<Scope>)
    ensures r.Some? ==> r.value.start + r.value.split <= |q|
  {
    match FindAnchor(q, alias, 0)
    case None => None
    case Some(p) =>
      var tail := q[p..];
      Some(Scope(p, match FindClause(tail, 0) case Some(k) => k case None => |tail|))
  }

  /** `ensure_final_where(query, alias)`. */
  function EnsureFinalWhere(q: string, alias: string): string {
    match FinalScope(q, alias)
    case None => RStrip(q) + WhereGuard
    case Some(Scope(p, k)) =>
      var head := q[p..p + k];
      q[..p] + RStrip(head) + Insert(head) + q[p + k..]
  }

  /** Without the anchor the guard goes at the end of the stripped query;
      with it, the text before the final scope and its trailing clauses are
      kept. */
  lemma {:induction false} EnsureFinalWhereKeeps(q: string, alias: string)
    ensures var r := EnsureFinalWhere(q, alias);
      && (FinalScope(q, alias).None? ==> r == RStrip(q) + WhereGuard)
      && (FinalScope(q, alias).Some? ==>
          var sc := FinalScope(q, alias).value;
          |r| >= sc.start && r[..sc.start] == q[..sc.start]
          && EndsWith(r, q[sc.start + sc.split..]))
  {
    if FinalScope(q, alias).Some? {
      var sc := FinalScope(q, alias).value;
      var p, k := sc.start, sc.split;
      var head := q[p..p + k];
      Around(q[..p], RStrip(head) + Insert(head), q[p + k..]);
    }
  }

  lemma {:induction false} Around(x: string, m: string, y: string)
    ensures var r := x + m + y; |r| >= |x| && r[..|x|] == x && EndsWith(r, y)
  {
    var r := x + m + y;
    assert r[..|x|] == x;
    assert r[|r| - |y|..] == y;
  }

  // ---------------------------------------------------------------------
  // Facts about matches of `FROM\s+Final2\b`.

  lemma {:induction false} FinalAliasPlain()
    ensures PlainAlias(FinalAlias)
  {
  }

  /** What each character of an anchor match is. */
  lemma {:induction false} AnchorChar(s: string, p: nat, i: nat)
    ensures AnchorAt(s, p, FinalAlias) ==>
      p + 4 <= |s| && SkipSpace(s, p + 4) > p + 4 && AnchorEnd(s, p, FinalAlias) <= |s|
      && (p <= i < AnchorEnd(s, p, FinalAlias) ==>
            (i < p + 4 && CiEq(s[i], "FROM"[i - p]))
            || (p + 4 <= i < SkipSpace(s, p + 4) && IsSpace(s[i]))
            || (SkipSpace(s, p + 4) <= i && CiEq(s[i], FinalAlias[i - SkipSpace(s, p + 4)])))
  {
    AnchorForm(s, p, FinalAlias);
    if AnchorAt(s, p, FinalAlias) && p <= i < AnchorEnd(s, p, FinalAlias) {
      var j := SkipSpace(s, p + 4);
      if i < p + 4 {
        assert CiEq(s[p + (i - p)], "FROM"[i - p]);
      } else if j <= i {
        assert CiEq(s[j + (i - j)], FinalAlias[i - j]);
      }
    }
  }

  /** The alias ends in a word character, so the anchor's end is preceded by one. */
  lemma {:induction false} AnchorEndsWord(s: string, p: nat)
    ensures AnchorAt(s, p, FinalAlias) ==>
      p + 4 <= |s| && AnchorEnd(s, p, FinalAlias) <= |s|
      && WordBefore(s, AnchorEnd(s, p, FinalAlias)) && !WordAt(s, AnchorEnd(s, p, FinalAlias))
      && CiEq(s[p], 'F') && CiEq(s[p + 1], 'R')
  {
    AnchorForm(s, p, FinalAlias);
    if AnchorAt(s, p, FinalAlias) {
      var j := SkipSpace(s, p + 4);
      assert CiEq(s[j + 5], FinalAlias[5]);
      assert CiEq(s[p + 0], "FROM"[0]) && CiEq(s[p + 1], "FROM"[1]);
    }
  }

  /** A match cannot run over a later `FR` (the start of another `FROM`). */
  lemma {:induction false} AnchorNoOverlap(s: string, p': nat, p: nat)
    requires AnchorAt(s, p', FinalAlias) && p' < p && p + 1 < |s|
    requires CiEq(s[p], 'F') && CiEq(s[p + 1], 'R')
    ensures AnchorEnd(s, p', FinalAlias) <= p
  {
    AnchorChar(s, p', p);
    AnchorChar(s, p', p + 1);
  }

  /** A match that runs from a non-space into whitespace has the whitespace
      right after `FROM`, so the alias starts where that run ends. */
  lemma {:induction false} AnchorCrossing(s: string, p': nat, m: nat)
    ensures AnchorAt(s, p', FinalAlias) && p' < m < AnchorEnd(s, p', FinalAlias)
            && m < |s| && !IsSpace(s[m - 1]) && IsSpace(s[m]) ==>
      SkipSpace(s, m) < |s| && CiEq(s[SkipSpace(s, m)], 'F')
  {
    AnchorChar(s, p', m);
    if m > 0 {
      AnchorChar(s, p', m - 1);
    }
    AnchorEndsWord(s, p');
    if AnchorAt(s, p', FinalAlias) {
      AnchorChar(s, p', SkipSpace(s, p' + 4));
    }
    if m < |s| {
      CiEqSpace(s[m], "FROM"[0]);
      CiEqSpace(s[m], "FROM"[1]);
      CiEqSpace(s[m], "FROM"[2]);
      CiEqSpace(s[m], "FROM"[3]);
      CiEqSpace(s[m], FinalAlias[0]);
      CiEqSpace(s[m], FinalAlias[1]);
      CiEqSpace(s[m], FinalAlias[2]);
      CiEqSpace(s[m], FinalAlias[3]);
      CiEqSpace(s[m], FinalAlias[4]);
      CiEqSpace(s[m], FinalAlias[5]);
    }
  }

  /** No GROUP BY / ORDER BY / HAVING can start inside the anchor. */
  lemma {:induction false} ClauseNotInAnchor(s: string, i: nat)
    requires AnchorAt(s, 0, FinalAlias) && 4 <= |s| && i < AnchorEnd(s, 0, FinalAlias)
    ensures !ClauseAt(s, i)
  {
    if i < 4 {
      ClauseNotInFrom(s, i);
    } else if SkipSpace(s, 4) <= i {
      ClauseNotInAlias(s, i);
    } else {
      KeywordStartsWord(s, i);
      AnchorChar(s, 0, i);
    }
  }

  /** No clause keyword starts inside the `FROM` itself. */
  lemma {:induction false} ClauseNotInFrom(s: string, i: nat)
    requires AnchorAt(s, 0, FinalAlias) && 4 <= |s| && i < 4
    ensures !ClauseAt(s, i)
  {
    KeywordStartsWord(s, i);
    AnchorChar(s, 0, i);
    AnchorChar(s, 0, 1);
    assert i == 0 || i == 1 || i == 2 || i == 3;
  }

  /** No clause keyword starts inside the alias after `FROM`. */
  lemma {:induction false} ClauseNotInAlias(s: string, i: nat)
    requires AnchorAt(s, 0, FinalAlias) && 4 <= |s| && i < AnchorEnd(s, 0, FinalAlias)
    requires SkipSpace(s, 4) <= i
    ensures !ClauseAt(s, i)
  {
    KeywordStartsWord(s, i);
    AnchorChar(s, 0, i);
    var j := SkipSpace(s, 4);
    assert i - j < 6;
    assert i - j == 0 || i - j == 1 || i - j == 2 || i - j == 3 || i - j == 4 || i - j == 5;
  }

  /** A clause keyword that runs from a non-space into whitespace has that
      whitespace between its two words, so `BY` starts where the run ends. */
  lemma {:induction false} ClauseCrossing(s: string, i: nat, m: nat)
    ensures ClauseAt(s, i) && i < m < KeywordEnd(s, i).value && m < |s|
            && !IsSpace(s[m - 1]) && IsSpace(s[m]) ==>
      SkipSpace(s, m) < |s| && CiEq(s[SkipSpace(s, m)], 'B')
  {
    ClauseChar(s, i, m);
    if m > 0 {
      ClauseChar(s, i, m - 1);
    }
  }

  // ---------------------------------------------------------------------
  // The guard text itself.

  lemma {:induction false} GuardFacts()
    ensures AnchorFree(WhereGuard, FinalAlias) && ClauseFree(WhereGuard)
    ensures ClauseFree(" ") && AnchorFree(" ", FinalAlias)
    ensures WhereAt(WhereGuard, 1)
  {
    GuardAnchorFree();
    GuardClauseFree();
    SpaceFree();
    assert CiAt(WhereGuard, 1, "WHERE");
  }

  lemma {:induction false} GuardAnchorFree()
    ensures AnchorFree(WhereGuard, FinalAlias)
  {
    assert NoTri(WhereGuard, "FROM");
    AnchorFreeByLetters(WhereGuard, FinalAlias);
  }

  lemma {:induction false} GuardClauseFree()
    ensures ClauseFree(WhereGuard)
  {
    assert NoTri(WhereGuard, "GROUP");
    assert NoTri(WhereGuard, "ORDER");
    assert NoTri(WhereGuard, "HAVING");
    ClauseFreeByLetters(WhereGuard);
  }

  lemma {:induction false} SpaceFree()
    ensures ClauseFree(" ") && AnchorFree(" ", FinalAlias)
  {
    AnchorFreeByLetters(" ", FinalAlias);
    ClauseFreeByLetters(" ");
  }
  // ---------------------------------------------------------------------
  // The guarded query, when the anchor is found.

  /** What the guarded query puts after the stripped head of the final
      scope `head`. */
  function Insert(head: string): string {
    if HasWhere(head) then " " else WhereGuard
  }

  /** Either way, what is put after the head starts with a space. */
  lemma {:induction false} InsertSpace(head: string)
    ensures 0 < |Insert(head)| && Insert(head)[0] == ' '
  {
  }

  /** The anchor and the split point that define the final scope. */
  lemma {:induction false} ScopeFound(q: string, p: nat, k: nat)
    requires FinalScope(q, FinalAlias) == Some(Scope(p, k))
    ensures FindAnchor(q, FinalAlias, 0) == Some(p) && AnchorAt(q, p, FinalAlias)
    ensures FindClause(q[p..], 0) == (if k < |q[p..]| then Some(k) else None)
    ensures k < |q[p..]| ==> ClauseAt(q[p..], k)
  {
    var tail := q[p..];
    FindAnchorSound(q, FinalAlias, 0);
    FindClauseSound(tail, 0);
    if FindClause(tail, 0).Some? {
      assert FindClause(tail, 0).value < |tail|;
    }
  }

  lemma {:induction false} ScopeClause(q: string, p: nat, k: nat)
    requires FinalScope(q, FinalAlias) == Some(Scope(p, k))
    ensures FindClause(q[p..], 0) == (if k < |q[p..]| then Some(k) else None)
  {
    ScopeFound(q, p, k);
  }

  lemma {:induction false} EnsureFinalWhereAt(q: string, p: nat, k: nat)
    requires FinalScope(q, FinalAlias) == Some(Scope(p, k))
    ensures EnsureFinalWhere(q, FinalAlias)
      == q[..p] + RStrip(q[p..p + k]) + Insert(q[p..p + k]) + q[p + k..]
  {
  }

  lemma {:induction false} SliceOfSuffix(q: string, p: nat, k: nat)
    requires p + k <= |q|
    ensures q[p..][..k] == q[p..p + k] && q[p..][k..] == q[p + k..]
  {
  }

  /** The stripped head is a prefix of the scope. */
  lemma {:induction false} HeadPrefix(q: string, p: nat, k: nat)
    requires p + k <= |q|
    ensures var h := RStrip(q[p..p + k]);
      p + |h| <= |q| && q[p..p + |h|] == h
  {
    var h := RStrip(q[p..p + k]);
    assert h == q[p..p + k][..|h|];
  }

  /** An anchor match seen from its own start. */
  lemma {:induction false} AnchorSuffix(q: string, p: nat)
    requires p <= |q| && AnchorAt(q, p, FinalAlias)
    ensures 4 <= |q[p..]| && AnchorAt(q[p..], 0, FinalAlias)
    ensures AnchorEnd(q, p, FinalAlias) == p + AnchorEnd(q[p..], 0, FinalAlias)
  {
    FinalAliasPlain();
    AnchorEndsWord(q, p);
    AnchorShift(q[..p], q[p..], 0, FinalAlias);
    assert q == q[..p] + q[p..];
  }

  /** The split point of a scope lies past its anchor. */
  lemma {:induction false} SplitAfterAnchor(tail: string, k: nat)
    requires 4 <= |tail| && AnchorAt(tail, 0, FinalAlias) && k <= |tail|
    requires k < |tail| ==> ClauseAt(tail, k)
    ensures 11 <= AnchorEnd(tail, 0, FinalAlias) <= k
  {
    FinalAliasPlain();
    AnchorEndsWord(tail, 0);
    AnchorForm(tail, 0, FinalAlias);
    if k < AnchorEnd(tail, 0, FinalAlias) {
      ClauseNotInAnchor(tail, k);
    }
  }

  /** Stripping the whitespace off the end of a scope's head keeps the anchor. */
  lemma {:induction false} AnchorKeptByStrip(tail: string, k: nat)
    requires 4 <= |tail| && AnchorAt(tail, 0, FinalAlias) && AnchorEnd(tail, 0, FinalAlias) <= k <= |tail|
    ensures AnchorEnd(tail, 0, FinalAlias) <= |RStrip(tail[..k])|
  {
    AnchorEndsWord(tail, 0);
    RStripFacts(tail[..k]);
    var e := AnchorEnd(tail, 0, FinalAlias);
    assert tail[..k][e - 1] == tail[e - 1];
    assert !IsSpace(tail[..k][e - 1]);
  }

  lemma {:induction false} HeadNonEmpty(q: string, p: nat, k: nat)
    requires FinalScope(q, FinalAlias) == Some(Scope(p, k))
    ensures 0 < |RStrip(q[p..p + k])|
  {
    ScopeFacts(q, p, k);
  }

  /** The anchor opens the scope, and its match lies within the stripped head. */
  lemma {:induction false} ScopeFacts(q: string, p: nat, k: nat)
    requires FinalScope(q, FinalAlias) == Some(Scope(p, k))
    ensures p + 4 <= |q| && 4 <= |q[p..]| && AnchorAt(q[p..], 0, FinalAlias)
    ensures AnchorEnd(q, p, FinalAlias) == p + AnchorEnd(q[p..], 0, FinalAlias)
    ensures 11 <= AnchorEnd(q[p..], 0, FinalAlias) <= |RStrip(q[p..p + k])|
  {
    ScopeFound(q, p, k);
    AnchorSuffix(q, p);
    SplitAfterAnchor(q[p..], k);
    AnchorKeptByStrip(q[p..], k);
    SliceOfSuffix(q, p, k);
  }

  /** An anchor before `p` in `r` would be an anchor before `p` in `q`. */
  lemma {:induction false} EarlierAnchor(r: string, q: string, p': nat, p: nat)
    requires p' < p && p + 1 < |r| && p + 1 <= |q| && r[..p + 1] == q[..p + 1]
    requires CiEq(r[p], 'F') && CiEq(r[p + 1], 'R')
    ensures AnchorAt(r, p', FinalAlias) ==> AnchorAt(q, p', FinalAlias)
  {
    if AnchorAt(r, p', FinalAlias) {
      FinalAliasPlain();
      AnchorNoOverlap(r, p', p);
      var e' := AnchorEnd(r, p', FinalAlias);
      assert r[e'] == r[..p + 1][e'] == q[..p + 1][e'] == q[e'];
      AnchorTransfer(r, q, p', FinalAlias, p + 1);
    }
  }

  /** Changing text after the first anchor's match keeps it the first. */
  lemma {:induction false} AnchorStaysFirst(q: string, r: string, p: nat, m: nat)
    requires FindAnchor(q, FinalAlias, 0) == Some(p)
    requires m <= |q| && m <= |r| && q[..m] == r[..m]
    requires p + 4 <= |q| && AnchorEnd(q, p, FinalAlias) <= m
    requires !WordAt(r, AnchorEnd(q, p, FinalAlias))
    ensures FindAnchor(r, FinalAlias, 0) == Some(p)
  {
    FindAnchorSound(q, FinalAlias, 0);
    FinalAliasPlain();
    AnchorEndsWord(q, p);
    AnchorTransfer(q, r, p, FinalAlias, m);
    assert r[p] == r[..m][p] == q[..m][p] == q[p];
    assert r[p + 1] == r[..m][p + 1] == q[..m][p + 1] == q[p + 1];
    assert r[..m][..p + 1] == r[..p + 1] && q[..m][..p + 1] == q[..p + 1];
    FindAnchorFirst(q, FinalAlias, 0);
    forall p' | 0 <= p' < p
      ensures !AnchorAt(r, p', FinalAlias)
    {
      EarlierAnchor(r, q, p', p);
    }
    FindAnchorIs(r, FinalAlias, p);
  }

  /** Replacing what follows a stretch `h` after the first anchor by text
      starting with a space keeps that anchor the first, as long as the
      anchor's match lies within `h`. */
  lemma {:induction false} AnchorBeforeSpace(q: string, p: nat, h: string, x: string, rest: string)
    requires FindAnchor(q, FinalAlias, 0) == Some(p)
    requires p + |h| <= |q| && q[p..p + |h|] == h
    requires p + 4 <= |q| && AnchorEnd(q, p, FinalAlias) <= p + |h|
    requires |x| > 0 && x[0] == ' '
    ensures FindAnchor(q[..p] + h + x + rest, FinalAlias, 0) == Some(p)
  {
    FindAnchorSound(q, FinalAlias, 0);
    var r := q[..p] + h + x + rest;
    var m := p + |h|;
    var hh := q[..p] + h;
    assert |hh| == m && r == hh + (x + rest);
    assert q[..m] == q[..p] + q[p..m];
    assert r[..m] == hh;
    var e := AnchorEnd(q, p, FinalAlias);
    if e < m {
      assert r[e] == r[..m][e] == q[..m][e] == q[e];
    } else {
      assert e == m;
      assert (hh + (x + rest))[m] == x[0];
    }
    AnchorEndsWord(q, p);
    AnchorStaysFirst(q, r, p, m);
  }

  /** The guarded query's final scope starts where the original's did. */
  lemma {:induction false} GuardedAnchor(q: string, p: nat, k: nat)
    requires FinalScope(q, FinalAlias) == Some(Scope(p, k))
    ensures FindAnchor(EnsureFinalWhere(q, FinalAlias), FinalAlias, 0) == Some(p)
  {
    var head := q[p..p + k];
    var h, x, rest := RStrip(head), Insert(head), q[p + k..];
    assert EnsureFinalWhere(q, FinalAlias) == q[..p] + h + x + rest by {
      EnsureFinalWhereAt(q, p, k);
    }
    assert FindAnchor(q[..p] + h + x + rest, FinalAlias, 0) == Some(p) by {
      AnchorInHead(q, p, k, h);
      InsertSpace(head);
      AnchorBeforeSpace(q, p, h, x, rest);
    }
  }

  /** The anchor opening the scope ends within the stripped head. */
  lemma {:induction false} AnchorInHead(q: string, p: nat, k: nat, h: string)
    requires FinalScope(q, FinalAlias) == Some(Scope(p, k)) && h == RStrip(q[p..p + k])
    ensures FindAnchor(q, FinalAlias, 0) == Some(p)
    ensures p + |h| <= |q| && q[p..p + |h|] == h
    ensures p + 4 <= |q| && AnchorEnd(q, p, FinalAlias) <= p + |h|
  {
    ScopeFound(q, p, k);
    ScopeFacts(q, p, k);
    HeadPrefix(q, p, k);
  }

  /** A clause keyword before the end `hl` of the stripped head in the
      guarded scope `tail2` is one in the original scope `tail`, unless it
      ends exactly where the original's split point starts. */
  lemma {:induction false} EarlyClause(tail: string, tail2: string, hl: nat, i: nat)
    requires i < hl <= |tail| && hl < |tail2| && tail[..hl] == tail2[..hl]
    requires !IsSpace(tail2[hl - 1]) && tail2[hl] == ' '
    requires SkipSpace(tail2, hl) == |tail2| || !CiEq(tail2[SkipSpace(tail2, hl)], 'B')
    ensures ClauseAt(tail2, i) ==> ClauseAt(tail, i) || (WordAt(tail, hl) && WordBefore(tail, hl))
  {
    if ClauseAt(tail2, i) {
      ClauseCrossing(tail2, i, hl);
      KeywordStartsWord(tail2, i);
      var ce := KeywordEnd(tail2, i).value;
      assert tail[hl - 1] == tail[..hl][hl - 1] == tail2[..hl][hl - 1] == tail2[hl - 1];
      if ce < hl {
        assert tail[ce] == tail[..hl][ce] == tail2[..hl][ce] == tail2[ce];
        ClauseTransfer(tail2, tail, i, hl);
      } else if !WordAt(tail, hl) {
        ClauseTransfer(tail2, tail, i, hl);
      }
    }
  }

  /** The stripped head is followed in its scope only by whitespace up to
      the split point. */
  lemma {:induction false} HeadInScope(tail: string, k: nat)
    requires k <= |tail|
    ensures var h := RStrip(tail[..k]);
      |h| <= k && tail[..|h|] == h && (forall i :: |h| <= i < k ==> IsSpace(tail[i]))
      && (h == [] || !IsSpace(tail[|h| - 1]))
  {
    var h := RStrip(tail[..k]);
    RStripFacts(tail[..k]);
    assert tail[..|h|] == tail[..k][..|h|];
    forall i | |h| <= i < k
      ensures IsSpace(tail[i])
    {
      assert tail[i] == tail[..k][i];
    }
  }

  /** In the guarded scope a single space follows the stripped head, and
      what comes after it cannot continue a `GROUP`/`ORDER` into `BY`. */
  lemma {:induction false} GapAfterHead(tail: string, k: nat, h: string, x: string, rest: string, t2: string)
    requires k <= |tail| && rest == tail[k..] && 0 < |h|
    requires x == " " || x == WhereGuard
    requires t2 == h + x + rest
    requires k < |tail| ==> ClauseAt(tail, k)
    ensures |h| < |t2| && t2[|h|] == ' ' && t2[|h| - 1] == h[|h| - 1]
    ensures SkipSpace(t2, |h|) == |h| + 1
    ensures |h| + 1 == |t2| || !CiEq(t2[|h| + 1], 'B')
  {
    var hl := |h|;
    assert t2[hl] == x[0] && t2[hl - 1] == h[hl - 1];
    if x == WhereGuard {
      assert t2[hl + 1] == 'W';
    } else if |rest| > 0 {
      KeywordStartsWord(tail, k);
      assert t2[hl + 1] == rest[0] == tail[k];
    }
    SkipSpaceUnique(t2, hl, hl + 1);
  }

  /** No clause keyword starts inside the stripped head of the guarded scope. */
  lemma {:induction false} NoClauseInHead(tail: string, k: nat, h: string, x: string, rest: string, t2: string, i: nat)
    requires k <= |tail| && rest == tail[k..] && h == RStrip(tail[..k]) && i < |h|
    requires x == " " || x == WhereGuard
    requires t2 == h + x + rest
    requires k < |tail| ==> ClauseAt(tail, k)
    requires NoClauseIn(tail, 0, k)
    ensures !ClauseAt(t2, i)
  {
    var hl := |h|;
    assert hl <= k && tail[..hl] == t2[..hl] && (hl < k ==> IsSpace(tail[hl]))
      && !IsSpace(t2[hl - 1]) by {
      HeadInScope(tail, k);
      assert t2[..hl] == h;
      assert t2[hl - 1] == h[hl - 1];
    }
    assert ClauseAt(t2, i) ==> ClauseAt(tail, i) || (WordAt(tail, hl) && WordBefore(tail, hl)) by {
      GapAfterHead(tail, k, h, x, rest, t2);
      EarlyClause(tail, t2, hl, i);
    }
    assert !ClauseAt(tail, i);
    if hl == k && k < |tail| {
      assert Boundary(tail, k);
    }
  }

  lemma {:induction false} HeadClauses(tail: string, k: nat, h: string, x: string, rest: string, t2: string)
    requires k <= |tail| && rest == tail[k..] && h == RStrip(tail[..k])
    requires x == " " || x == WhereGuard
    requires t2 == h + x + rest
    requires k < |tail| ==> ClauseAt(tail, k)
    requires NoClauseIn(tail, 0, k)
    ensures NoClauseIn(t2, 0, |h|)
  {
    forall i | 0 <= i < |h|
      ensures !ClauseAt(t2, i)
    {
      NoClauseInHead(tail, k, h, x, rest, t2, i);
    }
  }

  /** No clause keyword starts inside what is put after the head. */
  lemma {:induction false} GuardClauses(h: string, x: string, rest: string, t2: string)
    requires x == " " || x == WhereGuard
    requires t2 == h + x + rest
    ensures NoClauseIn(t2, |h|, |h| + |x|)
  {
    GuardFacts();
    assert t2 == h + (x + rest);
    forall i | |h| <= i < |h| + |x|
      ensures !ClauseAt(t2, i)
    {
      ClauseShift(h, x + rest, i - |h|);
      ClauseFreeAt(x, rest, i - |h|);
    }
  }

  /** The trailing clauses still start with their keyword after the guard. */
  lemma {:induction false} ClauseAfterGuard(tail: string, k: nat, h: string, x: string, rest: string, t2: string)
    requires k < |tail| && rest == tail[k..] && ClauseAt(tail, k)
    requires x == " " || x == WhereGuard
    requires t2 == (h + x) + rest
    ensures ClauseAt(t2, |h| + |x|)
  {
    var a := h + x;
    assert ClauseAt(rest, 0) by {
      ClauseSuffix(tail, k);
    }
    assert !IsWordChar(a[|a| - 1]) by {
      assert a[|a| - 1] == x[|x| - 1] == ' ';
    }
    ClauseShift(a, rest, 0);
  }

  lemma {:induction false} ClauseSuffix(s: string, k: nat)
    requires k <= |s|
    ensures ClauseAt(s, k) ==> ClauseAt(s[k..], 0)
  {
    assert s[..k] + s[k..] == s;
    ClauseShift(s[..k], s[k..], 0);
  }

  /** The guarded scope `h + x + rest` splits where the original scope
      `tail` did: right after the inserted text. */
  lemma {:induction false} SplitAfterGuard(tail: string, k: nat, h: string, x: string, rest: string, t2: string)
    requires k <= |tail| && rest == tail[k..] && h == RStrip(tail[..k]) && 0 < |h|
    requires x == " " || x == WhereGuard
    requires t2 == h + x + rest
    requires FindClause(tail, 0) == (if k < |tail| then Some(k) else None)
    ensures FindClause(t2, 0) == (if 0 < |rest| then Some(|h| + |x|) else None)
  {
    var n := |h| + |x|;
    FindClauseSound(tail, 0);
    assert NoClauseIn(t2, 0, n) by {
      assert k < |tail| ==> ClauseAt(tail, k);
      FindClauseFirst(tail, 0);
      HeadClauses(tail, k, h, x, rest, t2);
      GuardClauses(h, x, rest, t2);
      NoClauseInJoin(t2, 0, |h|, n);
    }
    assert 0 < |rest| ==> ClauseAt(t2, n) by {
      if k < |tail| {
        ClauseAfterGuard(tail, k, h, x, rest, t2);
      }
    }
    FindClauseIs(t2, n);
  }

  lemma {:induction false} DropFront(a: string, b: string, c: string, e: string)
    ensures |a| <= |a + b + c + e| && (a + b + c + e)[|a|..] == b + c + e
  {
    assert a + b + c + e == a + (b + c + e);
  }

  /** The guarded query, cut where the original's final scope starts. */
  lemma {:induction false} GuardedSlices(q: string, p: nat, k: nat)
    requires FinalScope(q, FinalAlias) == Some(Scope(p, k))
    ensures var head := q[p..p + k];
      var hx := RStrip(head) + Insert(head);
      var r := EnsureFinalWhere(q, FinalAlias);
      r == q[..p] + hx + q[p + k..] && p + |hx| <= |r|
      && r[p..] == hx + q[p + k..] && r[p..p + |hx|] == hx && r[p + |hx|..] == q[p + k..]
  {
    var head := q[p..p + k];
    var hx := RStrip(head) + Insert(head);
    EnsureFinalWhereAt(q, p, k);
    Regroup(q[..p], RStrip(head), Insert(head), q[p + k..]);
    Slices3(q[..p], hx, q[p + k..]);
    DropFront(q[..p], RStrip(head), Insert(head), q[p + k..]);
  }

  /** The guarded scope splits where the original's trailing clauses begin. */
  lemma {:induction false} GuardedSplit(q: string, p: nat, k: nat, t2: string)
    requires FinalScope(q, FinalAlias) == Some(Scope(p, k))
    requires t2 == RStrip(q[p..p + k]) + Insert(q[p..p + k]) + q[p + k..]
    ensures var head := q[p..p + k];
      FindClause(t2, 0) == (if 0 < |q[p + k..]| then Some(|RStrip(head)| + |Insert(head)|) else None)
  {
    var tail := q[p..];
    var head := q[p..p + k];
    var h := RStrip(head);
    var rest := q[p + k..];
    assert FindClause(tail, 0) == (if k < |tail| then Some(k) else None) by {
      ScopeClause(q, p, k);
    }
    assert 0 < |h| by {
      HeadNonEmpty(q, p, k);
    }
    assert rest == tail[k..] && h == RStrip(tail[..k]) by {
      SliceOfSuffix(q, p, k);
    }
    SplitAfterGuard(tail, k, h, Insert(head), rest, t2);
  }

  /** A head followed by the guard has a WHERE and ends in exactly one space. */
  lemma {:induction false} WhereFromGuard(h: string)
    ensures HasWhere(h + WhereGuard) && RStrip(h + WhereGuard) + " " == h + WhereGuard
  {
    var t := h + WhereGuard;
    var hl := |h|;
    GuardFacts();
    WhereShift(h, WhereGuard, 1);
    assert WhereAt(t, hl + 1);
    WhereFoundFrom(t, 0, hl + 1);
    assert t[hl + 9] == '1' && t[hl + 10] == ' ';
    RStripUnique(t, hl + 10);
    assert t[..hl + 10] + " " == t;
  }

  /** A head that had a WHERE keeps it once stripped and followed by a space. */
  lemma {:induction false} WhereKept(head: string, h: string)
    requires h == RStrip(head) && HasWhere(head)
    ensures HasWhere(h + " ") && RStrip(h + " ") + " " == h + " "
  {
    var hl := |h|;
    var w := FindWhere(head, 0).value;
    FindWhereSound(head, 0);
    RStripFacts(head);
    assert CiEq(head[w + 4], "WHERE"[4]);
    assert !IsSpace(head[w + 4]);
    assert w + 4 < hl;
    var t := h + " ";
    assert head[..hl] == h == t[..hl];
    if w + 5 < hl {
      assert head[w + 5] == t[w + 5];
    } else {
      assert t[w + 5] == ' ';
    }
    WhereTransfer(head, t, w, hl);
    WhereFoundFrom(t, 0, w);
    assert h[hl - 1] == head[hl - 1];
    RStripUnique(t, hl);
  }

  /** The guarded head has a WHERE and is kept as it is by a second pass. */
  lemma {:induction false} GuardedWhere(head: string)
    ensures var hx := RStrip(head) + Insert(head);
      HasWhere(hx) && RStrip(hx) + " " == hx
  {
    if HasWhere(head) {
      WhereKept(head, RStrip(head));
    } else {
      WhereFromGuard(RStrip(head));
    }
  }

  lemma {:induction false} Regroup(a: string, b: string, c: string, e: string)
    ensures a + b + c + e == a + (b + c) + e
  {
  }

  /** The final scope read off from its anchor and split point. */
  lemma {:induction false} FinalScopeIs(r: string, p: nat, k: nat)
    requires FindAnchor(r, FinalAlias, 0) == Some(p) && p + k <= |r|
    requires FindClause(r[p..], 0) == (if p + k < |r| then Some(k) else None)
    ensures FinalScope(r, FinalAlias) == Some(Scope(p, k))
  {
    var tail := r[p..];
    assert |tail| == |r| - p;
    var k' := match FindClause(tail, 0) case Some(k) => k case None => |tail|;
    assert k' == k;
    assert FinalScope(r, FinalAlias) == Some(Scope(p, k'));
  }

  /** A query whose final scope already has a WHERE and whose head ends in
      a single space is left as it is. */
  lemma {:induction false} SecondPass(r: string, p: nat, n: nat, hx: string)
    requires FinalScope(r, FinalAlias) == Some(Scope(p, n))
    requires p + n <= |r| && r[p..p + n] == hx
    requires HasWhere(hx) && RStrip(hx) + " " == hx
    ensures EnsureFinalWhere(r, FinalAlias) == r
  {
    var e := EnsureFinalWhere(r, FinalAlias);
    assert e == r[..p] + RStrip(hx) + Insert(hx) + r[p + n..] by {
      EnsureFinalWhereAt(r, p, n);
    }
    assert e == r[..p] + hx + r[p + n..] by {
      Regroup(r[..p], RStrip(hx), " ", r[p + n..]);
    }
    Rejoin(r, p, n);
  }

  lemma {:induction false} Rejoin(r: string, p: nat, n: nat)
    requires p + n <= |r|
    ensures r[..p] + r[p..p + n] + r[p + n..] == r
  {
  }

  lemma {:induction false} Slices3(a: string, b: string, c: string)
    ensures (a + b + c)[..|a|] == a && (a + b + c)[|a|..|a| + |b|] == b
    ensures (a + b + c)[|a| + |b|..] == c
  {
  }

  /** The final scope of the guarded query: same start, the head now the
      stripped head and what was put after it. */
  lemma {:induction false} GuardedScope(q: string, p: nat, k: nat)
    requires FinalScope(q, FinalAlias) == Some(Scope(p, k))
    ensures var head := q[p..p + k];
      FinalScope(EnsureFinalWhere(q, FinalAlias), FinalAlias)
        == Some(Scope(p, |RStrip(head)| + |Insert(head)|))
  {
    var head := q[p..p + k];
    var r := EnsureFinalWhere(q, FinalAlias);
    var n := |RStrip(head)| + |Insert(head)|;
    var rest := q[p + k..];
    assert FindAnchor(r, FinalAlias, 0) == Some(p) by {
      GuardedAnchor(q, p, k);
    }
    assert p + n <= |r| && r[p..] == RStrip(head) + Insert(head) + rest
      && (0 < |rest| <==> p + n < |r|) by {
      GuardedSlices(q, p, k);
    }
    assert FindClause(r[p..], 0) == (if p + n < |r| then Some(n) else None) by {
      GuardedSplit(q, p, k, r[p..]);
    }
    FinalScopeIs(r, p, n);
  }

  /** `ensure_final_where` is idempotent once the final scope is found: the
      second pass finds the same scope, now with a WHERE, and changes
      nothing. */
  lemma {:induction false} EnsureFinalWhereIdempotent(q: string)
    requires FinalScope(q, FinalAlias).Some?
    ensures EnsureFinalWhere(EnsureFinalWhere(q, FinalAlias), FinalAlias) == EnsureFinalWhere(q, FinalAlias)
  {
    var sc := FinalScope(q, FinalAlias).value;
    var p, k := sc.start, sc.split;
    var head := q[p..p + k];
    var hx := RStrip(head) + Insert(head);
    var r := EnsureFinalWhere(q, FinalAlias);
    GuardedReady(q, p, k, r, hx);
    SecondPass(r, p, |hx|, hx);
  }

  /** What a second pass over the guarded query finds. */
  lemma {:induction false} GuardedReady(q: string, p: nat, k: nat, r: string, hx: string)
    requires FinalScope(q, FinalAlias) == Some(Scope(p, k))
    requires r == EnsureFinalWhere(q, FinalAlias) && hx == RStrip(q[p..p + k]) + Insert(q[p..p + k])
    ensures FinalScope(r, FinalAlias) == Some(Scope(p, |hx|))
    ensures p + |hx| <= |r| && r[p..p + |hx|] == hx
    ensures HasWhere(hx) && RStrip(hx) + " " == hx
  {
    assert FinalScope(r, FinalAlias) == Some(Scope(p, |hx|)) by {
      GuardedScope(q, p, k);
    }
    assert p + |hx| <= |r| && r[p..p + |hx|] == hx by {
      GuardedSlices(q, p, k);
    }
    assert HasWhere(hx) && RStrip(hx) + " " == hx by {
      GuardedWhere(q[p..p + k]);
    }
  }

  /** After the call, the final scope exists at the same place, its head
      contains a WHERE and its trailing clauses are unchanged. */
  lemma {:induction false} EnsureFinalWhereScope(q: string)
    requires FinalScope(q, FinalAlias).Some?
    ensures var sc := FinalScope(q, FinalAlias).value;
      var r := EnsureFinalWhere(q, FinalAlias);
      var sc' := FinalScope(r, FinalAlias);
      sc'.Some? && sc'.value.start == sc.start
      && HasWhere(r[sc.start..sc.start + sc'.value.split])
      && r[sc.start + sc'.value.split..] == q[sc.start + sc.split..]
  {
    var sc := FinalScope(q, FinalAlias).value;
    var p, k := sc.start, sc.split;
    var head := q[p..p + k];
    var hx := RStrip(head) + Insert(head);
    var r := EnsureFinalWhere(q, FinalAlias);
    assert FinalScope(r, FinalAlias) == Some(Scope(p, |hx|)) by {
      GuardedScope(q, p, k);
    }
    assert p + |hx| <= |r| && r[p..p + |hx|] == hx && r[p + |hx|..] == q[p + k..] by {
      GuardedSlices(q, p, k);
    }
    assert HasWhere(hx) by {
      GuardedWhere(head);
    }
  }

  // ---------------------------------------------------------------------
  // The guarded query, when no anchor is found.

  /** An anchor in the stripped query followed by the guard would be an
      anchor in the query. */
  lemma {:induction false} AnchorBeforeGuard(q: string, p': nat)
    requires p' < |RStrip(q)|
    ensures AnchorAt(RStrip(q) + WhereGuard, p', FinalAlias) ==> AnchorAt(q, p', FinalAlias)
  {
    var rq := RStrip(q);
    var r := rq + WhereGuard;
    var m := |rq|;
    RStripFacts(q);
    if AnchorAt(r, p', FinalAlias) {
      var e' := AnchorEnd(r, p', FinalAlias);
      assert e' <= m by {
        assert r[m] == ' ' && r[m + 1] == 'W' && r[m - 1] == rq[m - 1];
        assert !IsSpace(r[m - 1]);
        SkipSpaceUnique(r, m, m + 1);
        AnchorCrossing(r, p', m);
      }
      assert r[..m] == q[..m] by {
        assert r[..m] == rq;
      }
      assert WordAt(r, e') == WordAt(q, e') by {
        if e' < m {
          assert r[e'] == q[e'];
        } else if m < |q| {
          assert IsSpace(q[m]) && r[m] == ' ';
        }
      }
      FinalAliasPlain();
      AnchorTransfer(r, q, p', FinalAlias, m);
    }
  }

  /** No anchor starts inside an appended guard. */
  lemma {:induction false} NoAnchorInGuard(a: string, j: nat)
    requires j <= |WhereGuard|
    ensures !AnchorAt(a + WhereGuard, |a| + j, FinalAlias)
  {
    FinalAliasPlain();
    GuardFacts();
    AnchorFreeNone(WhereGuard, FinalAlias);
    AnchorShift(a, WhereGuard, j, FinalAlias);
  }

  /** Without an anchor, none appears once the guard is appended. */
  lemma {:induction false} NoAnchorAfterGuard(q: string)
    requires FindAnchor(q, FinalAlias, 0).None?
    ensures FindAnchor(RStrip(q) + WhereGuard, FinalAlias, 0).None?
  {
    var rq := RStrip(q);
    var r := rq + WhereGuard;
    FindAnchorFirst(q, FinalAlias, 0);
    forall p' | 0 <= p' <= |r|
      ensures !AnchorAt(r, p', FinalAlias)
    {
      if p' < |rq| {
        AnchorBeforeGuard(q, p');
      } else {
        NoAnchorInGuard(rq, p' - |rq|);
      }
    }
    FindAnchorNone(r, FinalAlias);
  }

  /** Without the anchor the guard is appended after the stripped query, and
      a second call appends it again: the function is not idempotent there. */
  lemma {:induction false} EnsureFinalWhereNoScope(q: string)
    requires FinalScope(q, FinalAlias).None?
    ensures FinalScope(EnsureFinalWhere(q, FinalAlias), FinalAlias).None?
    ensures EnsureFinalWhere(EnsureFinalWhere(q, FinalAlias), FinalAlias)
            == RStrip(q) + " WHERE 1=1" + WhereGuard
  {
    var rq := RStrip(q);
    var r := rq + WhereGuard;
    NoAnchorAfterGuard(q);
    assert r[|rq| + 9] == '1';
    RStripUnique(r, |rq| + 10);
    assert r[..|rq| + 10] == rq + " WHERE 1=1";
  }

  /** A query whose final SELECT is filtered: the head of its final scope has
      a `WHERE`, or, when it has no final scope, it ends with the guard. */
  predicate Guarded(q: string) {
    match FinalScope(q, FinalAlias)
    case None => EndsWith(q, WhereGuard)
    case Some(sc) => HasWhere(q[sc.start..sc.start + sc.split])
  }

  /** Whatever the query, the guard leaves it guarded. */
  lemma {:induction false} EnsureFinalWhereGuarded(q: string)
    ensures Guarded(EnsureFinalWhere(q, FinalAlias))
  {
    var r := EnsureFinalWhere(q, FinalAlias);
    if FinalScope(q, FinalAlias).Some? {
      EnsureFinalWhereScope(q);
    } else {
      EnsureFinalWhereNoScope(q);
      EnsureFinalWhereKeeps(q, FinalAlias);
      assert r == RStrip(q) + WhereGuard;
      assert r[|r| - |WhereGuard|..] == WhereGuard;
    }
  }
}
