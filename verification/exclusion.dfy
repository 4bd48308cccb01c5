/** The exclusion of receiving codes: `_add_excluir_codigorecibe_condition`
    turns a comma-separated list of `CodigoRecibe` values into a
    `NOT IN (...)` condition on the final block with one bind parameter
    `cr_exc_<i>` per code. */
module Exclusion {
  import opened Wrappers
  import opened Text
  import opened Binds
  import opened FinalWhere

  /** A code as the list yields it: stripped, non-empty, upper-case and
      without the separator. */
  predicate Code(c: string) {
    |c| > 0 && !IsSpace(c[0]) && !IsSpace(c[|c| - 1]) && ',' !in c
    && forall k :: 0 <= k < |c| ==> !('a' <= c[k] <= 'z')
  }

  /** `[c.strip().upper() for c in parts if c.strip()]`. */
  function Codes(parts: seq<string>): (codes: seq<string>)
    ensures |codes| <= |parts|
    decreases |parts|
  {
    if |parts| == 0 then []
    else if Blank(parts[0]) then Codes(parts[1..])
    else [Upper(Strip(parts[0]))] + Codes(parts[1..])
  }

  /** Pieces without the separator yield codes. */
  lemma {:induction false} CodesAreCodes(parts: seq<string>)
    requires forall i :: 0 <= i < |parts| ==> ',' !in parts[i]
    ensures forall i :: 0 <= i < |Codes(parts)| ==> Code(Codes(parts)[i])
    decreases |parts|
  {
    if |parts| > 0 {
      var rest := Codes(parts[1..]);
      assert forall i :: 0 <= i < |rest| ==> Code(rest[i]) by {
        assert forall i :: 0 <= i < |parts| - 1 ==> parts[1..][i] == parts[i + 1];
        CodesAreCodes(parts[1..]);
      }
      if !Blank(parts[0]) {
        var c := Upper(Strip(parts[0]));
        assert Code(c) by { CodeOfPiece(parts[0]); }
        assert Codes(parts) == [c] + rest;
      }
    }
  }

  lemma {:induction false} CodeOfPiece(p: string)
    requires ',' !in p && !Blank(p)
    ensures Code(Upper(Strip(p)))
  {
    var t := Strip(p);
    assert ',' !in t by {
      var a := StripTrimmed(p);
      forall k | 0 <= k < |t| ensures t[k] != ',' {
        assert t[k] == p[a..a + |t|][k];
      }
    }
    UpperCode(t);
  }

  /** Upper-casing keeps the ends and the absence of the separator. */
  lemma {:induction false} UpperCode(t: string)
    requires |t| > 0 && !IsSpace(t[0]) && !IsSpace(t[|t| - 1]) && ',' !in t
    ensures Code(Upper(t))
  {
    var c := Upper(t);
    assert c[0] == UpperChar(t[0]) && c[|c| - 1] == UpperChar(t[|t| - 1]);
    forall k | 0 <= k < |t| ensures c[k] != ',' {
      assert c[k] == UpperChar(t[k]);
    }
  }

  /** The codes of the text the user typed: its comma-separated pieces,
      stripped and upper-cased, the blank ones dropped. */
  function ExclusionCodes(text: string): (codes: seq<string>)
    ensures forall i :: 0 <= i < |codes| ==> Code(codes[i])
    ensures Blank(text) ==> codes == []
  {
    var parts := Split(text, ',');
    CodesAreCodes(parts);
    if Blank(text) then
      BlankCodes(text);
      Codes(parts)
    else Codes(parts)
  }

  lemma {:induction false} BlankCodes(text: string)
    requires Blank(text)
    ensures Codes(Split(text, ',')) == []
  {
    forall i | 0 <= i < |text| ensures text[i] != ',' {
      assert IsSpace(text[i]);
    }
    assert Split(text, ',') == [text];
  }

  /** A code read back is the code itself. */
  lemma {:induction false} CodeFixed(c: string)
    requires Code(c)
    ensures !Blank(c) && Upper(Strip(c)) == c
  {
    assert !IsSpace(c[0]);
    assert Strip(c) == c by { StripNoop(c); }
    assert Upper(c) == c by { UpperNoop(c); }
  }

  /** Every element is a code; stated one element at a time, so that a
      proof by induction meets only the first. */
  predicate AllCodes(codes: seq<string>)
    decreases |codes|
  {
    |codes| == 0 || (Code(codes[0]) && AllCodes(codes[1..]))
  }

  lemma {:induction false} AllCodesOf(codes: seq<string>)
    requires forall i :: 0 <= i < |codes| ==> Code(codes[i])
    ensures AllCodes(codes)
    decreases |codes|
  {
    if |codes| > 0 {
      var rest := codes[1..];
      assert forall i :: 0 <= i < |rest| ==> rest[i] == codes[i + 1];
      AllCodesOf(rest);
    }
  }

  /** The codes of a list whose first piece reads back as itself. */
  lemma {:induction false} CodesCons(parts: seq<string>)
    requires |parts| > 0 && Code(parts[0])
    ensures Codes(parts) == [parts[0]] + Codes(parts[1..])
  {
    CodeFixed(parts[0]);
  }

  lemma {:induction false} CodesFixed(codes: seq<string>)
    requires AllCodes(codes)
    ensures Codes(codes) == codes
    decreases |codes|
  {
    if |codes| > 0 {
      CodesCons(codes);
      CodesFixed(codes[1..]);
      assert [codes[0]] + codes[1..] == codes;
    }
  }

  /** Joining codes with commas and reading them back gives the same codes,
      so the list is a fixed point of the normalisation. */
  lemma {:induction false} ExclusionCodesJoin(codes: seq<string>)
    requires forall i :: 0 <= i < |codes| ==> Code(codes[i])
    ensures ExclusionCodes(Join(codes, ",")) == codes
  {
    if |codes| == 0 {
      assert Join(codes, ",") == "";
      assert Split("", ',') == [""];
    } else {
      SplitJoin(codes, ',');
      AllCodesOf(codes);
      CodesFixed(codes);
    }
  }

  /** Normalising twice is normalising once. */
  lemma {:induction false} ExclusionCodesIdempotent(text: string)
    ensures ExclusionCodes(Join(ExclusionCodes(text), ",")) == ExclusionCodes(text)
  {
    ExclusionCodesJoin(ExclusionCodes(text));
  }

  // ---------------------------------------------------------------------
  // Parameters.

  /** The parameter bound to the `i`-th code, `f"cr_exc_{i}"`. */
  function ExcKey(i: nat): (k: string)
    ensures Ident(k)
  {
    var k := "cr_exc_" + NatText(i);
    assert forall j :: 7 <= j < |k| ==> k[j] == NatText(i)[j - 7];
    k
  }

  /** Different codes get different parameters. */
  lemma {:induction false} ExcKeyInjective(i: nat, j: nat)
    ensures ExcKey(i) == ExcKey(j) ==> i == j
  {
    if ExcKey(i) == ExcKey(j) {
      assert ExcKey(i)[7..] == NatText(i);
      assert ExcKey(j)[7..] == NatText(j);
      NatTextValue(i);
      NatTextValue(j);
    }
  }

  /** The parameters of the first `n` codes, in order. */
  function ExcKeys(n: nat): (ks: seq<string>)
    ensures |ks| == n
    ensures forall i :: 0 <= i < n ==> ks[i] == ExcKey(i)
  {
    if n == 0 then [] else ExcKeys(n - 1) + [ExcKey(n - 1)]
  }

  /** `params[f"cr_exc_{i}"] = c` for every code `c` at position `i`. */
  function ExcParams(codes: seq<string>): Params
    decreases |codes|
  {
    if |codes| == 0 then map[]
    else ExcParams(codes[..|codes| - 1])[ExcKey(|codes| - 1) := codes[|codes| - 1]]
  }

  /** The parameters bound are exactly those of the codes, ... */
  lemma {:induction false} ExcParamsKeys(codes: seq<string>)
    ensures forall k :: k in ExcParams(codes) <==> k in ExcKeys(|codes|)
    decreases |codes|
  {
    if |codes| > 0 {
      var n := |codes| - 1;
      ExcParamsKeys(codes[..n]);
      assert ExcKeys(n + 1) == ExcKeys(n) + [ExcKey(n)];
    }
  }

  /** ... and each holds the code at its position. */
  lemma {:induction false} ExcParamsValues(codes: seq<string>)
    ensures forall i :: 0 <= i < |codes| ==> ExcKey(i) in ExcParams(codes) && ExcParams(codes)[ExcKey(i)] == codes[i]
    decreases |codes|
  {
    if |codes| > 0 {
      var n := |codes| - 1;
      var p := ExcParams(codes[..n]);
      ExcParamsValues(codes[..n]);
      forall i | 0 <= i < |codes| ensures ExcKey(i) in ExcParams(codes) && ExcParams(codes)[ExcKey(i)] == codes[i] {
        if i < n {
          ExcKeyInjective(i, n);
          assert codes[..n][i] == codes[i];
        }
      }
    }
  }

  // ---------------------------------------------------------------------
  // The condition.

  function Placeholders(ks: seq<string>): (ps: seq<string>)
    ensures |ps| == |ks|
    decreases |ks|
  {
    if |ks| == 0 then [] else [Placeholder(ks[0])] + Placeholders(ks[1..])
  }

  /** The text of the condition before its placeholder list. */
  const ExclusionHead := "UPPER(LTRIM(RTRIM(" + FinalAlias + ".CodigoRecibe))) NOT IN ("

  /** The condition for `n` codes. */
  function ExclusionClause(n: nat): string {
    ExclusionHead + Join(Placeholders(ExcKeys(n)), ", ") + ")"
  }

  /** The placeholders of a `", "`-joined list are its names. */
  lemma {:induction false} NamesJoined(ks: seq<string>, tail: string, s: string)
    requires |ks| > 0 && forall i :: 0 <= i < |ks| ==> Ident(ks[i])
    requires tail == [] || !IsWordChar(tail[0])
    requires s == Join(Placeholders(ks), ", ") + tail
    ensures Names(s) == ks + Names(tail)
    decreases |ks|
  {
    if |ks| == 1 {
      NamesJoinedOne(ks, tail, s);
    } else {
      var rest := ks[1..];
      var j := Join(Placeholders(rest), ", ");
      assert Names(s) == [ks[0]] + Names(j + tail) by {
        NamesJoinHead(ks, tail, s, j);
      }
      assert Names(j + tail) == rest + Names(tail) by {
        assert forall i :: 0 <= i < |rest| ==> rest[i] == ks[i + 1];
        NamesJoined(rest, tail, j + tail);
      }
      assert [ks[0]] + rest == ks;
    }
  }

  lemma {:induction false} NamesJoinedOne(ks: seq<string>, tail: string, s: string)
    requires |ks| == 1 && Ident(ks[0])
    requires tail == [] || !IsWordChar(tail[0])
    requires s == Join(Placeholders(ks), ", ") + tail
    ensures Names(s) == ks + Names(tail)
  {
    assert Join(Placeholders(ks), ", ") == Placeholder(ks[0]);
    NamesBind(ks[0], tail);
    assert [ks[0]] == ks;
  }

  /** The first placeholder of a list of at least two. */
  lemma {:induction false} PlaceholdersHead(ks: seq<string>, j: string)
    requires |ks| > 1 && j == Join(Placeholders(ks[1..]), ", ")
    ensures Join(Placeholders(ks), ", ") == Placeholder(ks[0]) + ", " + j
  {
    var ps := Placeholders(ks);
    assert ps[0] == Placeholder(ks[0]) && ps[1..] == Placeholders(ks[1..]);
  }

  lemma {:induction false} NamesJoinHead(ks: seq<string>, tail: string, s: string, j: string)
    requires |ks| > 1 && Ident(ks[0])
    requires s == Join(Placeholders(ks), ", ") + tail
    requires j == Join(Placeholders(ks[1..]), ", ")
    ensures Names(s) == [ks[0]] + Names(j + tail)
  {
    PlaceholdersHead(ks, j);
    var r := ", " + (j + tail);
    assert s == Placeholder(ks[0]) + r;
    NamesBind(ks[0], r);
    NamesSkip(", ", j + tail, r);
  }

  /** The condition refers to exactly the parameters of the codes, in
      order; with at least one code the list is never the empty `IN ()`. */
  lemma {:induction false} ClauseNames(n: nat)
    requires n > 0
    ensures Names(ExclusionClause(n)) == ExcKeys(n)
  {
    var ks := ExcKeys(n);
    var j := Join(Placeholders(ks), ", ");
    assert ExclusionClause(n) == ExclusionHead + (j + ")");
    assert ':' !in ExclusionHead;
    NamesSkip(ExclusionHead, j + ")", ExclusionClause(n));
    NamesJoined(ks, ")", j + ")");
    assert Names(")") == [];
  }

  /** `_add_excluir_codigorecibe_condition(conditions, params, text)`:
      nothing changes unless the text holds at least one code; then one
      condition is added and one parameter per code. */
  function AddExclusion(conds: seq<string>, params: Params, text: Option<string>): (r: (seq<string>, Params))
    ensures var codes := if text.Some? then ExclusionCodes(text.value) else [];
      && (codes == [] ==> r == (conds, params))
      && (codes != [] ==>
          && r.0 == conds + [ExclusionClause(|codes|)]
          && (forall k :: k in r.1 <==> k in params || k in ExcKeys(|codes|))
          && (forall i :: 0 <= i < |codes| ==> r.1[ExcKey(i)] == codes[i])
          && (forall k :: k in params && k !in ExcKeys(|codes|) ==> r.1[k] == params[k]))
  {
    if text.None? || text.value == "" then
      assert Blank("");
      (conds, params)
    else
      var codes := ExclusionCodes(text.value);
      if codes == [] then (conds, params)
      else
        ExcParamsKeys(codes);
        ExcParamsValues(codes);
        (conds + [ExclusionClause(|codes|)], params + ExcParams(codes))
  }
}
