/** The article-reference filter: `_inject_ref_filter` puts a
    `LIKE :refLike` condition at every marker of the query (or deletes the
    markers when no reference is given), and `_strip_unbound_ref_like`
    removes such a condition again when its parameter is not bound. */
module RefFilter {
  import opened Wrappers
  import opened Text
  import opened Keywords
  import opened Binds

  /** The marker the query template carries where the filter belongs. */
  const RefMarker := "/*__REF_FILTER__*/"

  /** The name of the filter's parameter. */
  const RefKey := "refLike"

  /** One step of the removal pattern: optional (`\s*`) or mandatory (`\s+`)
      whitespace, then a literal matched ignoring case. */
  datatype Token = Token(spaced: bool, word: string)

  /** `\s+AND\s+LOWER\s*\(\s*LTRIM\s*\(\s*RTRIM\s*\(\s*I\.Referencia\s*\)\s*\)\s*\)\s*LIKE\s*:refLike`
      with `re.IGNORECASE`. */
  const RefLikePattern: seq<Token> := [
    Token(true, "AND"), Token(true, "LOWER"), Token(false, "("), Token(false, "LTRIM"),
    Token(false, "("), Token(false, "RTRIM"), Token(false, "("), Token(false, "I.Referencia"),
    Token(false, ")"), Token(false, ")"), Token(false, ")"), Token(false, "LIKE"),
    Token(false, ":refLike")]

  /** The whitespace the injected clause has in front of each word of the
      pattern. */
  const RefClauseGaps: seq<string> := [" ", " ", "", "", "", "", "", "", "", "", "", " ", " "]

  /** The words of a pattern laid out with the given whitespace before each. */
  function Render(ts: seq<Token>, gs: seq<string>): string
    requires |gs| == |ts|
  {
    if |ts| == 0 then "" else gs[0] + ts[0].word + Render(ts[1..], gs[1..])
  }

  /** The clause injected at each marker,
      ` AND LOWER(LTRIM(RTRIM(I.Referencia))) LIKE :refLike`, spelled word
      by word after the whitespace in front of it. */
  const RefClause: string :=
    " " + "AND" + (" " + "LOWER" + ("" + "(" + ("" + "LTRIM" + ("" + "(" + ("" + "RTRIM" + ("" + "(" + ("" + "I.Referencia" + ("" + ")" + ("" + ")" + ("" + ")" + (" " + "LIKE" + (" " + ":refLike" + ""))))))))))))

  /** The clause is the removal pattern laid out with single spaces. */
  lemma {:induction false} ClauseRendered()
    ensures Render(RefLikePattern, RefClauseGaps) == RefClause
  {
  }

  // ---------------------------------------------------------------------
  // Injection.

  /** `(referencia or "").strip().lower()`. */
  function NormalizeRef(ref: Option<string>): (v: string)
    ensures v == "" <==> ref.None? || Blank(ref.value)
    ensures forall i :: 0 <= i < |v| ==> !('A' <= v[i] <= 'Z')
  {
    var s := ref.GetOr("");
    var t := Strip(s);
    assert t == [] <==> Blank(s);
    assert |Lower(t)| == |t|;
    Lower(t)
  }

  /** A reference without `%` or `_` is taken as a prefix. */
  function LikeValue(v: string): (p: string)
    ensures '%' in p || '_' in p
    ensures p == v || p == v + "%"
    ensures p == v <==> '%' in v || '_' in v
  {
    if '%' !in v && '_' !in v then v + "%" else v
  }

  /** `_inject_ref_filter(base, referencia)`: the query with every marker
      replaced, and the parameters of the filter. */
  function InjectRefFilter(base: string, ref: Option<string>): (r: (string, Params))
    ensures r.1.Keys <= {RefKey}
    ensures RefKey in r.1 <==> ref.Some? && !Blank(ref.value)
    ensures RefKey in r.1 ==>
      var v := Lower(Strip(ref.value));
      && ('%' in v || '_' in v ==> r.1[RefKey] == v)
      && ('%' !in v && '_' !in v ==> r.1[RefKey] == v + "%")
    ensures r.0 == Replace(base, RefMarker, if RefKey in r.1 then RefClause else "")
  {
    var v := NormalizeRef(ref);
    if v == "" then (Replace(base, RefMarker, ""), map[])
    else
      assert ref.Some? && v == Lower(Strip(ref.value));
      var p := LikeValue(v);
      var params := map[RefKey := p];
      assert params.Keys == {RefKey} && params[RefKey] == p;
      (Replace(base, RefMarker, RefClause), params)
  }

  /** Read against the markers of the query: the text between markers is
      kept verbatim and every marker becomes the same clause, or nothing. */
  lemma {:induction false} InjectAtMarkers(pieces: seq<string>, ref: Option<string>)
    requires |pieces| >= 1
    requires forall i :: 0 <= i < |pieces| ==> PatFree(pieces[i], RefMarker)
    ensures var r := InjectRefFilter(Join(pieces, RefMarker), ref);
      r.0 == Join(pieces, if RefKey in r.1 then RefClause else "")
  {
    var r := InjectRefFilter(Join(pieces, RefMarker), ref);
    if RefKey in r.1 {
      ReplaceJoin(pieces, RefMarker, RefClause);
    } else {
      ReplaceJoin(pieces, RefMarker, "");
    }
  }

  // ---------------------------------------------------------------------
  // Removal.

  /** Where one token's match starting at `i` ends, if it matches. The word
      starts with a non-space character, so the greedy whitespace in front of
      it is the whole run and no backtracking is needed. */
  function StepAt(s: string, i: nat, t: Token): (r: Option<nat>)
    requires i <= |s|
    ensures r.Some? ==> i + |t.word| <= r.value <= |s|
  {
    var j := SkipSpace(s, i);
    if (t.spaced && j == i) || !WordAt(s, j, t.word, 0) then None else Some(j + |t.word|)
  }

  /** The word `w` from its `k`-th character on matches `s` at `j`,
      ignoring case (the word as a whole matches when `k` is 0). */
  predicate WordAt(s: string, j: nat, w: string, k: nat)
    requires k <= |w|
    decreases |w| - k
  {
    j + |w| <= |s| && (k == |w| || (CiEq(s[j + k], w[k]) && WordAt(s, j, w, k + 1)))
  }

  /** `WordAt` is `CiAt`, character by character. */
  lemma {:induction false} WordAtChars(s: string, j: nat, w: string, k: nat)
    requires k <= |w| && j + |w| <= |s|
    requires forall m :: k <= m < |w| ==> CiEq(s[j + m], w[m])
    ensures WordAt(s, j, w, k)
    decreases |w| - k
  {
    if k < |w| {
      WordAtChars(s, j, w, k + 1);
    }
  }

  /** Where the match of the tokens, one after the other, starting at `i`
      ends, if they match. */
  function MatchAt(s: string, i: nat, ts: seq<Token>): (r: Option<nat>)
    requires i <= |s|
    ensures r.Some? ==> i <= r.value <= |s|
    ensures r.Some? && |ts| > 0 ==> i + |ts[0].word| <= r.value
    decreases |ts|
  {
    if |ts| == 0 then Some(i)
    else
      match StepAt(s, i, ts[0])
      case None => None
      case Some(j) => MatchAt(s, j, ts[1..])
  }

  /** The rest of `re.sub(pattern, "", s)` from position `i` on: a match of
      the tokens starting there is dropped and the scan resumes after it,
      otherwise the character is kept. */
  function RemoveFrom(s: string, i: nat, ts: seq<Token>): (r: string)
    requires i <= |s| && |ts| > 0 && |ts[0].word| > 0
    ensures |r| <= |s| - i
    decreases |s| - i
  {
    if i == |s| then ""
    else
      match MatchAt(s, i, ts)
      case Some(e) => RemoveFrom(s, e, ts)
      case None => [s[i]] + RemoveFrom(s, i + 1, ts)
  }

  /** `re.sub(pattern, "", s)`: every leftmost, non-overlapping match of the
      removal pattern is dropped. */
  function RemoveRefLike(s: string): (r: string)
    ensures |r| <= |s|
  {
    RemoveFrom(s, 0, RefLikePattern)
  }

  /** `_strip_unbound_ref_like(sql, params)`. */
  function StripUnboundRefLike(sql: string, params: Params): (r: string)
    ensures RefKey in params ==> r == sql
    ensures ':' !in sql ==> r == sql
  {
    if RefKey in params then sql
    else
      RefLikeHasColon();
      RemoveNoColon(sql, 0, RefLikePattern);
      RemoveRefLike(sql)
  }

  /** One of the words is a placeholder. */
  predicate HasPlaceholder(ts: seq<Token>) {
    exists k :: 0 <= k < |ts| && |ts[k].word| > 0 && ts[k].word[0] == ':'
  }

  lemma {:induction false} RefLikeHasColon()
    ensures HasPlaceholder(RefLikePattern)
  {
    assert RefLikePattern[12].word[0] == ':';
  }

  /** A match of a pattern one of whose words is a placeholder contains a
      colon. */
  lemma {:induction false} MatchHasColon(s: string, i: nat, ts: seq<Token>)
    requires i <= |s| && HasPlaceholder(ts)
    ensures MatchAt(s, i, ts).Some? ==> exists k :: i <= k < |s| && s[k] == ':'
    decreases |ts|
  {
    if MatchAt(s, i, ts).Some? {
      var w := ts[0].word;
      var j := StepAt(s, i, ts[0]).value;
      if |w| > 0 && w[0] == ':' {
        var m := SkipSpace(s, i);
        assert CiEq(s[m], w[0]);
      } else {
        var k :| 0 <= k < |ts| && |ts[k].word| > 0 && ts[k].word[0] == ':';
        assert ts[1..][k - 1] == ts[k];
        MatchHasColon(s, j, ts[1..]);
      }
    }
  }

  /** Text without a colon has no match of a pattern with a placeholder. */
  lemma {:induction false} RemoveNoColon(s: string, i: nat, ts: seq<Token>)
    requires i <= |s| && |ts| > 0 && |ts[0].word| > 0 && HasPlaceholder(ts)
    ensures ':' !in s[i..] ==> RemoveFrom(s, i, ts) == s[i..]
    decreases |s| - i
  {
    if ':' !in s[i..] && i < |s| {
      forall k | i <= k < |s| ensures s[k] != ':' {
        assert s[k] == s[i..][k - i];
      }
      MatchHasColon(s, i, ts);
      assert s[i + 1..] == s[i..][1..];
      RemoveNoColon(s, i + 1, ts);
      assert [s[i]] + s[i + 1..] == s[i..];
    }
  }

  /** A token whose whitespace and word are laid out at `i` matches them. */
  lemma {:induction false} StepFront(s: string, i: nat, g: string, tok: Token)
    requires StartsAt(s, i, g + tok.word)
    requires |tok.word| > 0 && !IsSpace(tok.word[0])
    requires g == " " || (g == "" && !tok.spaced)
    ensures StepAt(s, i, tok) == Some(i + |g| + |tok.word|)
  {
    StartsAtSplit(s, i, g, tok.word);
    GapSkipped(s, i, g, tok.word);
    WordAtStart(s, i + |g|, tok.word);
  }

  /** A gap of at most one space in front of a word is skipped whole. */
  lemma {:induction false} GapSkipped(s: string, i: nat, g: string, w: string)
    requires StartsAt(s, i, g) && StartsAt(s, i + |g|, w)
    requires |w| > 0 && !IsSpace(w[0]) && (g == " " || g == "")
    ensures SkipSpace(s, i) == i + |g|
  {
    StartsAtChar(s, i + |g|, w, 0);
    StartsAtChar(s, i, g, 0);
    SkipSpaceUnique(s, i, i + |g|);
  }

  /** A word spelled out at `p` matches there, ignoring case. */
  lemma {:induction false} WordAtStart(s: string, p: nat, w: string)
    requires StartsAt(s, p, w)
    ensures WordAt(s, p, w, 0)
  {
    forall j | 0 <= j < |w| ensures CiEq(s[p + j], w[j]) {
      StartsAtChar(s, p, w, j);
    }
    WordAtChars(s, p, w, 0);
  }


  /** One unfolding of the matcher after a token has matched. */
  lemma {:induction false} MatchStep(s: string, i: nat, ts: seq<Token>, j: nat)
    requires i <= |s| && |ts| > 0 && StepAt(s, i, ts[0]) == Some(j)
    ensures MatchAt(s, i, ts) == MatchAt(s, j, ts[1..])
  {
  }

  /** Whitespace before each word that the pattern accepts there: a space,
      or nothing where the pattern does not demand whitespace; and words
      that start with a non-space character. */
  predicate Laid(ts: seq<Token>, gs: seq<string>) {
    |gs| == |ts|
    && (forall k :: 0 <= k < |ts| ==> gs[k] == " " || (gs[k] == "" && !ts[k].spaced))
    && (forall k :: 0 <= k < |ts| ==> |ts[k].word| > 0 && !IsSpace(ts[k].word[0]))
  }

  lemma {:induction false} LaidHead(ts: seq<Token>, gs: seq<string>)
    requires |ts| > 0 && Laid(ts, gs)
    ensures |ts[0].word| > 0
  {
  }

  lemma {:induction false} LaidTail(ts: seq<Token>, gs: seq<string>)
    requires |ts| > 0 && Laid(ts, gs)
    ensures Laid(ts[1..], gs[1..])
  {
    forall k | 0 <= k < |ts| - 1 ensures gs[1..][k] == gs[k + 1] && ts[1..][k] == ts[k + 1] {}
  }

  /** Each word of the pattern matches, one after the other from `i` on,
      taking up its whitespace and its own length. */
  predicate Placed(s: string, i: nat, ts: seq<Token>, gs: seq<string>)
    decreases |ts|
  {
    i <= |s| && |gs| == |ts|
    && (|ts| > 0 ==>
        var j := i + |gs[0]| + |ts[0].word|;
        && StepAt(s, i, ts[0]) == Some(j)
        && Placed(s, j, ts[1..], gs[1..]))
  }

  /** A rendering found in the text has its words placed there. */
  lemma {:induction false} RenderPlaced(s: string, i: nat, ts: seq<Token>, gs: seq<string>)
    requires Laid(ts, gs) && StartsAt(s, i, Render(ts, gs))
    ensures Placed(s, i, ts, gs)
    decreases |ts|
  {
    if |ts| > 0 {
      RenderHead(s, i, ts, gs);
      RenderPlaced(s, i + |gs[0]| + |ts[0].word|, ts[1..], gs[1..]);
    }
  }

  /** The first word of a rendering found in the text matches, and the rest
      of the rendering follows it. */
  lemma {:induction false} RenderHead(s: string, i: nat, ts: seq<Token>, gs: seq<string>)
    requires |ts| > 0 && Laid(ts, gs) && StartsAt(s, i, Render(ts, gs))
    ensures var j := i + |gs[0]| + |ts[0].word|;
      && StepAt(s, i, ts[0]) == Some(j)
      && StartsAt(s, j, Render(ts[1..], gs[1..]))
      && Laid(ts[1..], gs[1..])
  {
    var g, w, tail := gs[0], ts[0].word, Render(ts[1..], gs[1..]);
    assert Render(ts, gs) == (g + w) + tail;
    StartsAtSplit(s, i, g + w, tail);
    StepFront(s, i, g, ts[0]);
    LaidTail(ts, gs);
  }

  /** Placed words are matched one after the other. */
  lemma {:induction false} PlacedMatches(s: string, i: nat, ts: seq<Token>, gs: seq<string>)
    requires Placed(s, i, ts, gs)
    ensures MatchAt(s, i, ts) == Some(i + |Render(ts, gs)|)
    decreases |ts|
  {
    if |ts| > 0 {
      var j := i + |gs[0]| + |ts[0].word|;
      MatchStep(s, i, ts, j);
      PlacedMatches(s, j, ts[1..], gs[1..]);
    }
  }

  /** The pattern's words laid out as it accepts them are matched whole. */
  lemma {:induction false} RenderMatches(s: string, i: nat, ts: seq<Token>, gs: seq<string>)
    requires Laid(ts, gs) && StartsAt(s, i, Render(ts, gs))
    ensures MatchAt(s, i, ts) == Some(i + |Render(ts, gs)|)
  {
    RenderPlaced(s, i, ts, gs);
    PlacedMatches(s, i, ts, gs);
  }

  /** Wherever the scan meets the pattern's words laid out as it accepts
      them, they are dropped whole. */
  lemma {:induction false} RemoveRendered(s: string, i: nat, ts: seq<Token>, gs: seq<string>)
    requires |ts| > 0 && Laid(ts, gs) && StartsAt(s, i, Render(ts, gs))
    ensures RemoveFrom(s, i, ts) == RemoveFrom(s, i + |Render(ts, gs)|, ts)
  {
    var e := i + |Render(ts, gs)|;
    assert MatchAt(s, i, ts) == Some(e) by { RenderMatches(s, i, ts, gs); }
    LaidHead(ts, gs);
    RemoveAtMatch(s, i, ts, e);
  }

  /** One unfolding of the scan where the pattern matches. */
  lemma {:induction false} RemoveAtMatch(s: string, i: nat, ts: seq<Token>, e: nat)
    requires i <= |s| && |ts| > 0 && |ts[0].word| > 0 && MatchAt(s, i, ts) == Some(e)
    ensures RemoveFrom(s, i, ts) == RemoveFrom(s, e, ts)
  {
  }

  /** Where no match starts, the character is kept. */
  lemma {:induction false} RemoveKept(s: string, i: nat, ts: seq<Token>)
    requires i < |s| && |ts| > 0 && |ts[0].word| > 0 && MatchAt(s, i, ts).None?
    ensures RemoveFrom(s, i, ts) == [s[i]] + RemoveFrom(s, i + 1, ts)
  {
  }

  // ---------------------------------------------------------------------
  // The removal reads only what follows the scan position.

  lemma {:induction false} SkipSpaceAgree(s: string, i: nat, t: string, j: nat)
    requires Agree(s, i, t, j)
    ensures SkipSpace(s, i) - i == SkipSpace(t, j) - j
    decreases |s| - i
  {
    if i < |s| {
      assert s[i] == t[j];
      if IsSpace(s[i]) {
        SkipSpaceAgree(s, i + 1, t, j + 1);
      }
    }
  }

  lemma {:induction false} WordAtAgree(s: string, a: nat, t: string, b: nat, w: string, k: nat)
    requires Agree(s, a, t, b) && k <= |w|
    ensures WordAt(s, a, w, k) == WordAt(t, b, w, k)
    decreases |w| - k
  {
    if a + |w| <= |s| && k < |w| {
      assert s[a + k] == t[b + k];
      WordAtAgree(s, a, t, b, w, k + 1);
    }
  }

  lemma {:induction false} StepAgree(s: string, i: nat, t: string, j: nat, tok: Token)
    requires Agree(s, i, t, j)
    ensures StepAt(s, i, tok).None? == StepAt(t, j, tok).None?
    ensures StepAt(s, i, tok).Some? ==> StepAt(s, i, tok).value - i == StepAt(t, j, tok).value - j
  {
    SkipSpaceAgree(s, i, t, j);
    var a := SkipSpace(s, i);
    var b := SkipSpace(t, j);
    assert Agree(s, a, t, b);
    WordAtAgree(s, a, t, b, tok.word, 0);
  }

  lemma {:induction false} MatchAgree(s: string, i: nat, t: string, j: nat, ts: seq<Token>)
    requires Agree(s, i, t, j)
    ensures MatchAt(s, i, ts).None? == MatchAt(t, j, ts).None?
    ensures MatchAt(s, i, ts).Some? ==> MatchAt(s, i, ts).value - i == MatchAt(t, j, ts).value - j
    decreases |ts|
  {
    if |ts| > 0 {
      StepAgree(s, i, t, j, ts[0]);
      if StepAt(s, i, ts[0]).Some? {
        var a := StepAt(s, i, ts[0]).value;
        var b := StepAt(t, j, ts[0]).value;
        assert Agree(s, a, t, b);
        MatchAgree(s, a, t, b, ts[1..]);
      }
    }
  }

  lemma {:induction false} RemoveAgree(s: string, i: nat, t: string, j: nat, ts: seq<Token>)
    requires Agree(s, i, t, j) && |ts| > 0 && |ts[0].word| > 0
    ensures RemoveFrom(s, i, ts) == RemoveFrom(t, j, ts)
    decreases |s| - i, 1
  {
    if i < |s| {
      MatchAgree(s, i, t, j, ts);
      if MatchAt(s, i, ts).Some? {
        RemoveAgreeMatched(s, i, t, j, ts);
      } else {
        RemoveAgreeKept(s, i, t, j, ts);
      }
    }
  }

  lemma {:induction false} RemoveAgreeMatched(s: string, i: nat, t: string, j: nat, ts: seq<Token>)
    requires Agree(s, i, t, j) && |ts| > 0 && |ts[0].word| > 0 && i < |s|
    requires MatchAt(s, i, ts).Some? && MatchAt(t, j, ts).Some?
    requires MatchAt(s, i, ts).value - i == MatchAt(t, j, ts).value - j
    ensures RemoveFrom(s, i, ts) == RemoveFrom(t, j, ts)
    decreases |s| - i, 0
  {
    var a := MatchAt(s, i, ts).value;
    var b := MatchAt(t, j, ts).value;
    assert Agree(s, a, t, b);
    RemoveAgree(s, a, t, b, ts);
  }

  lemma {:induction false} RemoveAgreeKept(s: string, i: nat, t: string, j: nat, ts: seq<Token>)
    requires Agree(s, i, t, j) && |ts| > 0 && |ts[0].word| > 0 && i < |s|
    requires MatchAt(s, i, ts).None? && MatchAt(t, j, ts).None?
    ensures RemoveFrom(s, i, ts) == RemoveFrom(t, j, ts)
    decreases |s| - i, 0
  {
    assert s[i] == t[j];
    RemoveAgree(s, i + 1, t, j + 1, ts);
  }

  /** From the end of the first part of a concatenation on, the second part
      is scanned as on its own. */
  lemma {:induction false} RemoveSecond(a: string, b: string, s: string, ts: seq<Token>)
    requires s == a + b && |ts| > 0 && |ts[0].word| > 0
    ensures RemoveFrom(s, |a|, ts) == RemoveFrom(b, 0, ts)
  {
    assert Agree(s, |a|, b, 0);
    RemoveAgree(s, |a|, b, 0, ts);
  }

  /** No match of the pattern starts inside `s`, whatever follows it. */
  ghost predicate MatchFree(s: string, ts: seq<Token>) {
    forall x: string, p: nat :: p < |s| ==> MatchAt(s + x, p, ts).None?
  }

  /** Where no match starts, the text is kept. */
  lemma {:induction false} RemoveSkipFrom(a: string, b: string, s: string, i: nat, ts: seq<Token>)
    requires s == a + b && i <= |a| && |ts| > 0 && |ts[0].word| > 0
    requires forall p :: i <= p < |a| ==> MatchAt(s, p, ts).None?
    ensures RemoveFrom(s, i, ts) == a[i..] + RemoveFrom(b, 0, ts)
    decreases |a| - i, 1
  {
    if i == |a| {
      RemoveSecond(a, b, s, ts);
    } else {
      RemoveSkipStep(a, b, s, i, ts);
    }
  }

  lemma {:induction false} RemoveSkipStep(a: string, b: string, s: string, i: nat, ts: seq<Token>)
    requires s == a + b && i < |a| && |ts| > 0 && |ts[0].word| > 0
    requires forall p :: i <= p < |a| ==> MatchAt(s, p, ts).None?
    ensures RemoveFrom(s, i, ts) == a[i..] + RemoveFrom(b, 0, ts)
    decreases |a| - i, 0
  {
    RemoveKept(s, i, ts);
    RemoveSkipFrom(a, b, s, i + 1, ts);
    ConsSuffix(a, b, s, i, RemoveFrom(b, 0, ts));
  }

  lemma {:induction false} ConsSuffix(a: string, b: string, s: string, i: nat, r: string)
    requires s == a + b && i < |a|
    ensures [s[i]] + (a[i + 1..] + r) == a[i..] + r
  {
    assert s[i] == a[i];
    assert [a[i]] + a[i + 1..] == a[i..];
  }

  /** Text free of the pattern passes through the removal untouched. */
  lemma {:induction false} RemoveSkip(a: string, b: string, ts: seq<Token>)
    requires MatchFree(a, ts) && |ts| > 0 && |ts[0].word| > 0
    ensures RemoveFrom(a + b, 0, ts) == a + RemoveFrom(b, 0, ts)
  {
    forall p | 0 <= p < |a| ensures MatchAt(a + b, p, ts).None? {
      assert p < |a|;
    }
    RemoveSkipFrom(a, b, a + b, 0, ts);
    assert a[0..] == a;
  }

  /** The removal drops `clause` whole wherever it stands at the front. */
  ghost predicate DropsFront(clause: string, ts: seq<Token>)
    requires |ts| > 0 && |ts[0].word| > 0
  {
    forall t :: RemoveFrom(clause + t, 0, ts) == RemoveFrom(t, 0, ts)
  }

  /** A laid-out rendering of the pattern is dropped whole from the front. */
  lemma {:induction false} RenderedDropsFront(ts: seq<Token>, gs: seq<string>)
    requires |ts| > 0 && Laid(ts, gs)
    ensures |ts[0].word| > 0 && DropsFront(Render(ts, gs), ts)
  {
    forall t ensures RemoveFrom(Render(ts, gs) + t, 0, ts) == RemoveFrom(t, 0, ts) {
      RenderedDropped(ts, gs, t);
    }
  }

  lemma {:induction false} RenderedDropped(ts: seq<Token>, gs: seq<string>, t: string)
    requires |ts| > 0 && Laid(ts, gs)
    ensures |ts[0].word| > 0 && RemoveFrom(Render(ts, gs) + t, 0, ts) == RemoveFrom(t, 0, ts)
  {
    var c := Render(ts, gs);
    var s := c + t;
    LaidHead(ts, gs);
    assert RemoveFrom(s, 0, ts) == RemoveFrom(s, |c|, ts) by {
      StartsAtFront(c, t);
      RemoveRendered(s, 0, ts, gs);
    }
    assert RemoveFrom(s, |c|, ts) == RemoveFrom(t, 0, ts) by {
      RemoveSecond(c, t, s, ts);
    }
  }

  lemma {:induction false} RefClauseDropped()
    ensures DropsFront(RefClause, RefLikePattern)
  {
    RefClauseLaid();
    ClauseRendered();
    RenderedDropsFront(RefLikePattern, RefClauseGaps);
  }

  /** One piece and the clause after it: the piece is kept, the clause goes. */
  lemma {:induction false} RemovePieceClause(a: string, clause: string, tail: string, ts: seq<Token>)
    requires |ts| > 0 && |ts[0].word| > 0
    requires MatchFree(a, ts) && DropsFront(clause, ts)
    ensures RemoveFrom(a + clause + tail, 0, ts) == a + RemoveFrom(tail, 0, ts)
  {
    assert a + clause + tail == a + (clause + tail);
    RemoveSkip(a, clause + tail, ts);
  }

  lemma {:induction false} RemoveJoined(pieces: seq<string>, clause: string, ts: seq<Token>)
    requires |pieces| >= 1 && |ts| > 0 && |ts[0].word| > 0
    requires forall i :: 0 <= i < |pieces| ==> MatchFree(pieces[i], ts)
    requires DropsFront(clause, ts)
    ensures RemoveFrom(Join(pieces, clause), 0, ts) == Join(pieces, "")
  {
    var a := pieces[0];
    assert MatchFree(a, ts);
    if |pieces| == 1 {
      RemoveSkip(a, "", ts);
      assert a + "" == a;
    } else {
      var rest := pieces[1..];
      assert RemoveFrom(Join(rest, clause), 0, ts) == Join(rest, "") by {
        forall i | 0 <= i < |rest| ensures MatchFree(rest[i], ts) {
          assert rest[i] == pieces[i + 1];
        }
        RemoveJoined(rest, clause, ts);
      }
      assert RemoveFrom(a + clause + Join(rest, clause), 0, ts) == a + RemoveFrom(Join(rest, clause), 0, ts) by {
        RemovePieceClause(a, clause, Join(rest, clause), ts);
      }
      assert Join(pieces, "") == a + Join(rest, "") by {
        assert a + "" == a;
      }
    }
  }

  /** Removing the clauses undoes their injection: text assembled from
      pattern-free pieces with the clause between them is stripped back to
      the pieces alone, as if no reference had been given. */
  lemma {:induction false} StripUndoesInject(pieces: seq<string>)
    requires |pieces| >= 1
    requires forall i :: 0 <= i < |pieces| ==> MatchFree(pieces[i], RefLikePattern)
    ensures StripUnboundRefLike(Join(pieces, RefClause), map[]) == Join(pieces, "")
  {
    RefClauseDropped();
    RemoveJoined(pieces, RefClause, RefLikePattern);
  }

  /** Text that does not end in whitespace and holds no `a` or `A` is free of
      the pattern: its first word `AND` can start nowhere inside it. */
  lemma {:induction false} MatchFreeWithoutA(s: string)
    requires s == [] || !IsSpace(s[|s| - 1])
    requires forall i :: 0 <= i < |s| ==> !CiEq(s[i], 'A')
    ensures MatchFree(s, RefLikePattern)
  {
    var tok := RefLikePattern[0];
    assert tok.word == "AND";
    forall x: string, p: nat | p < |s|
      ensures MatchAt(s + x, p, RefLikePattern).None?
    {
      var t := s + x;
      var j := SkipSpace(t, p);
      assert t[|s| - 1] == s[|s| - 1];
      assert !IsSpace(t[|s| - 1]);
      assert j < |s|;
      assert t[j] == s[j];
      assert !WordAt(t, j, tok.word, 0);
    }
  }

  /** The injected clause is the removal pattern laid out as it accepts
      it, so the removal drops it whole wherever the scan meets it. */
  lemma {:induction false} RefClauseLaid()
    ensures Laid(RefLikePattern, RefClauseGaps)
  {
    var ts, gs := RefLikePattern, RefClauseGaps;
    forall k | 0 <= k < |ts| ensures gs[k] == " " || (gs[k] == "" && !ts[k].spaced) {}
    forall k | 0 <= k < |ts| ensures |ts[k].word| > 0 && !IsSpace(ts[k].word[0]) {}
  }

  // ---------------------------------------------------------------------
  // What the injected clause holds: no anchor, no ordering, and exactly
  // one placeholder, the filter's own, at its very end.

  /** A rendering of pieces in which no anchor and no `ORDER BY` can start
      holds none either. */
  lemma {:induction false} RenderFree(ts: seq<Token>, gs: seq<string>, alias: string)
    requires |gs| == |ts| && PlainAlias(alias)
    requires forall i :: 0 <= i < |ts| ==> AnchorFree(gs[i] + ts[i].word, alias)
    requires forall i :: 0 <= i < |ts| ==> OrderByFree(gs[i] + ts[i].word)
    ensures AnchorFree(Render(ts, gs), alias) && OrderByFree(Render(ts, gs))
    decreases |ts|
  {
    if |ts| > 0 {
      var head := gs[0] + ts[0].word;
      var tail := Render(ts[1..], gs[1..]);
      assert AnchorFree(tail, alias) && OrderByFree(tail) by {
        forall i | 0 <= i < |ts| - 1
          ensures AnchorFree(gs[1..][i] + ts[1..][i].word, alias)
          ensures OrderByFree(gs[1..][i] + ts[1..][i].word)
        {
          assert gs[1..][i] == gs[i + 1] && ts[1..][i] == ts[i + 1];
        }
        RenderFree(ts[1..], gs[1..], alias);
      }
      AnchorFreeConcat(head, tail, alias);
      OrderByFreeConcat(head, tail);
    }
  }

  /** A rendering of pieces without the character `c` does not hold it. */
  lemma {:induction false} RenderWithout(ts: seq<Token>, gs: seq<string>, c: char)
    requires |gs| == |ts|
    requires forall i :: 0 <= i < |ts| ==> c !in gs[i] && c !in ts[i].word
    ensures c !in Render(ts, gs)
    decreases |ts|
  {
    if |ts| > 0 {
      forall i | 0 <= i < |ts| - 1
        ensures c !in gs[1..][i] && c !in ts[1..][i].word
      {
        assert gs[1..][i] == gs[i + 1] && ts[1..][i] == ts[i + 1];
      }
      RenderWithout(ts[1..], gs[1..], c);
    }
  }

  /** The first `k` words of a rendering without `c` do not hold it. */
  lemma {:induction false} LeadWithout(ts: seq<Token>, gs: seq<string>, k: nat, c: char)
    requires |gs| == |ts| && k <= |ts|
    requires forall i :: 0 <= i < k ==> c !in gs[i] + ts[i].word
    ensures c !in Render(ts[..k], gs[..k])
  {
    var ts', gs' := ts[..k], gs[..k];
    forall i | 0 <= i < k ensures c !in gs'[i] && c !in ts'[i].word {
      assert gs'[i] == gs[i] && ts'[i] == ts[i];
      assert c !in gs[i] + ts[i].word;
    }
    RenderWithout(ts', gs', c);
  }

  /** A rendering splits at any word. */
  lemma {:induction false} RenderSplit(ts: seq<Token>, gs: seq<string>, k: nat)
    requires |gs| == |ts| && k <= |ts|
    ensures Render(ts, gs) == Render(ts[..k], gs[..k]) + Render(ts[k..], gs[k..])
    decreases k
  {
    if k == 0 {
      assert ts[..0] == [] && gs[..0] == [];
      assert ts[0..] == ts && gs[0..] == gs;
    } else {
      RenderSplit(ts[1..], gs[1..], k - 1);
      assert ts[1..][..k - 1] == ts[..k][1..] && gs[1..][..k - 1] == gs[..k][1..];
      assert ts[1..][k - 1..] == ts[k..] && gs[1..][k - 1..] == gs[k..];
      Assoc(gs[0] + ts[0].word, Render(ts[..k][1..], gs[..k][1..]), Render(ts[k..], gs[k..]));
    }
  }

  /** The whitespace and word at position `i` of the injected clause
      hold neither the first letters of `FROM` nor those of `ORDER`, nor,
      before the placeholder, a colon. */
  predicate WordPlain(i: nat)
    requires i < |RefLikePattern|
  {
    NoTri(RefClauseGaps[i] + RefLikePattern[i].word, "FROM")
    && NoTri(RefClauseGaps[i] + RefLikePattern[i].word, "ORDER")
    && (i < 12 ==> ':' !in RefClauseGaps[i] + RefLikePattern[i].word)
  }

  lemma {:induction false} WordsPlainA(i: nat)
    requires i < 3
    ensures WordPlain(i)
  {
    if i == 0 {} else if i == 1 {} else {}
  }

  lemma {:induction false} WordsPlainB(i: nat)
    requires 3 <= i < 6
    ensures WordPlain(i)
  {
    if i == 3 {} else if i == 4 {} else {}
  }

  lemma {:induction false} WordsPlainC(i: nat)
    requires 6 <= i < 9
    ensures WordPlain(i)
  {
    if i == 7 { WordPlainReferencia(); } else if i == 6 {} else {}
  }

  lemma {:induction false} WordPlainReferencia()
    ensures WordPlain(7)
  {
  }

  lemma {:induction false} WordsPlainD(i: nat)
    requires 9 <= i < 13
    ensures WordPlain(i)
  {
    if i == 9 {} else if i == 10 {} else if i == 11 {} else {}
  }

  lemma {:induction false} WordsPlain(i: nat)
    requires i < 13
    ensures WordPlain(i)
  {
    if i < 3 { WordsPlainA(i); }
    else if i < 6 { WordsPlainB(i); }
    else if i < 9 { WordsPlainC(i); }
    else { WordsPlainD(i); }
  }

  /** No anchor and no `ORDER BY` can start inside the injected clause. */
  lemma {:induction false} RefClauseFree(alias: string)
    requires PlainAlias(alias)
    ensures AnchorFree(RefClause, alias) && OrderByFree(RefClause)
  {
    var ts, gs := RefLikePattern, RefClauseGaps;
    forall i | 0 <= i < |ts|
      ensures AnchorFree(gs[i] + ts[i].word, alias) && OrderByFree(gs[i] + ts[i].word)
    {
      WordsPlain(i);
      AnchorFreeByLetters(gs[i] + ts[i].word, alias);
      OrderByFreeByLetters(gs[i] + ts[i].word);
    }
    RenderFree(ts, gs, alias);
    ClauseRendered();
  }

  /** A rendering of one word is its whitespace and the word. */
  lemma {:induction false} RenderOne(ts: seq<Token>, gs: seq<string>)
    requires |ts| == 1 && |gs| == 1
    ensures Render(ts, gs) == gs[0] + ts[0].word
  {
    assert ts[1..] == [] && gs[1..] == [];
    assert gs[0] + ts[0].word + "" == gs[0] + ts[0].word;
  }

  /** The words of the clause before its placeholder hold no colon. */
  lemma {:induction false} LeadColonFree()
    ensures ':' !in Render(RefLikePattern[..12], RefClauseGaps[..12])
  {
    var ts, gs := RefLikePattern, RefClauseGaps;
    forall i | 0 <= i < 12 ensures ':' !in gs[i] + ts[i].word {
      WordsPlain(i);
    }
    LeadWithout(ts, gs, 12, ':');
  }

  /** The last word of the clause is its placeholder. */
  lemma {:induction false} ClauseTail()
    ensures Render(RefLikePattern[12..], RefClauseGaps[12..]) == " " + Placeholder(RefKey)
  {
    var tt, gg := RefLikePattern[12..], RefClauseGaps[12..];
    assert |tt| == 1 && tt[0] == RefLikePattern[12] && gg[0] == RefClauseGaps[12];
    RenderOne(tt, gg);
  }

  /** The clause is colon-free text followed by ` :refLike`. */
  lemma {:induction false} ClauseLead() returns (lead: string)
    ensures RefClause == lead + (" " + Placeholder(RefKey))
    ensures ':' !in lead
  {
    lead := Render(RefLikePattern[..12], RefClauseGaps[..12]);
    ClauseTail();
    ClauseRendered();
    RenderSplit(RefLikePattern, RefClauseGaps, 12);
    LeadColonFree();
  }

  /** The injected clause refers to the filter's parameter once, at its
      end, so it adds exactly that name in front of the names after it. */
  lemma {:induction false} RefClauseNames(rest: string)
    requires rest == [] || !IsWordChar(rest[0])
    ensures Names(RefClause + rest) == [RefKey] + Names(rest)
  {
    var lead := ClauseLead();
    var a, b := lead + " ", Placeholder(RefKey) + rest;
    assert RefClause + rest == a + b;
    assert ':' !in a by { assert forall k :: 0 <= k < |lead| ==> a[k] == lead[k]; }
    NamesSkip(a, b, a + b);
    assert Ident(RefKey);
    NamesBind(RefKey, rest);
  }
}
