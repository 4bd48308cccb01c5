/** Named bind parameters of a parameterised query. A placeholder is a `:`
    followed by a run of word characters, the name of the parameter whose
    value the query executor binds there; the parameters travel next to the
    text as a map from name to value. */
module Binds {
  import opened Text

  /** The parameter map passed with a query (every value the application
      binds is text). */
  type Params = map<string, string>

  /** A parameter name: a non-empty run of word characters. */
  predicate Ident(k: string) {
    |k| > 0 && forall i :: 0 <= i < |k| ==> IsWordChar(k[i])
  }

  /** The text `:name` that refers to parameter `k`. */
  function Placeholder(k: string): string {
    ":" + k
  }

  /** The end of the run of word characters that starts at `i`. */
  function WordEnd(s: string, i: nat): (j: nat)
    requires i <= |s|
    ensures i <= j <= |s|
    ensures forall k {:trigger IsWordChar(s[k])} :: i <= k < j ==> IsWordChar(s[k])
    ensures j == |s| || !IsWordChar(s[j])
    decreases |s| - i
  {
    if i < |s| && IsWordChar(s[i]) then WordEnd(s, i + 1) else i
  }

  lemma {:induction false} WordEndUnique(s: string, i: nat, j: nat)
    requires i <= j <= |s|
    requires forall k :: i <= k < j ==> IsWordChar(s[k])
    requires j == |s| || !IsWordChar(s[j])
    ensures WordEnd(s, i) == j
    decreases j - i
  {
    if i < j {
      WordEndUnique(s, i + 1, j);
    }
  }

  /** A placeholder starts at position `i` of `s`. */
  predicate BindAt(s: string, i: nat) {
    i + 1 < |s| && s[i] == ':' && IsWordChar(s[i + 1])
  }

  /** The names the placeholders of `s` from position `i` on refer to, in
      order of occurrence. */
  function NamesFrom(s: string, i: nat): (r: seq<string>)
    requires i <= |s|
    decreases |s| - i
  {
    if i == |s| then []
    else if BindAt(s, i) then
      var e := WordEnd(s, i + 1);
      [s[i + 1..e]] + NamesFrom(s, e)
    else NamesFrom(s, i + 1)
  }

  /** The names the placeholders of `s` refer to, in order of occurrence. */
  function Names(s: string): seq<string> {
    NamesFrom(s, 0)
  }

  /** Every placeholder of `sql` names a parameter of `params`, and every
      parameter is referred to by a placeholder. */
  predicate Bound(sql: string, params: Params) {
    (set n | n in Names(sql)) == params.Keys
  }

  /** Two texts whose concatenation cannot merge a name ending `a` with word
      characters starting `b`. */
  predicate Apart(a: string, b: string) {
    a == [] || b == [] || !IsWordChar(b[0])
    || (!IsWordChar(a[|a| - 1]) && a[|a| - 1] != ':')
  }

  /** Texts that agree from `i` and from `j` on hold the same placeholders
      there. */
  lemma {:induction false} NamesFromAgree(s: string, i: nat, t: string, j: nat)
    requires Agree(s, i, t, j)
    ensures NamesFrom(s, i) == NamesFrom(t, j)
    decreases |s| - i, 1
  {
    if i < |s| {
      assert s[i] == t[j];
      assert i + 1 < |s| ==> s[i + 1] == t[j + 1];
      if BindAt(s, i) {
        NamesFromAgreeBind(s, i, t, j);
      } else {
        AgreeShift(s, i, t, j, 1);
        NamesFromAgree(s, i + 1, t, j + 1);
      }
    }
  }

  lemma {:induction false} NamesFromAgreeBind(s: string, i: nat, t: string, j: nat)
    requires Agree(s, i, t, j) && BindAt(s, i) && BindAt(t, j)
    ensures NamesFrom(s, i) == NamesFrom(t, j)
    decreases |s| - i, 0
  {
    var e := WordEnd(s, i + 1);
    var d := e - i;
    assert WordEnd(t, j + 1) == j + d by {
      WordEndAgree(s, i + 1, t, j + 1);
    }
    assert s[i + 1..e] == t[j + 1..j + d] by {
      AgreeSlice(s, i + 1, t, j + 1, d - 1);
    }
    AgreeShift(s, i, t, j, d);
    NamesFromAgree(s, e, t, j + d);
  }

  /** Agreeing texts have word runs of the same length. */
  lemma {:induction false} WordEndAgree(s: string, i: nat, t: string, j: nat)
    requires Agree(s, i, t, j)
    ensures WordEnd(s, i) - i == WordEnd(t, j) - j
    decreases |s| - i
  {
    if i < |s| {
      assert s[i] == t[j];
      AgreeShift(s, i, t, j, 1);
      WordEndAgree(s, i + 1, t, j + 1);
    }
  }

  /** The placeholders of a concatenation from the end of its first part on
      are those of the second part. */
  lemma {:induction false} NamesFromSecond(a: string, b: string, s: string)
    requires s == a + b
    ensures NamesFrom(s, |a|) == Names(b)
  {
    AgreeSecond(a, b, s);
    NamesFromAgree(s, |a|, b, 0);
  }

  /** Placeholders inside the first part of a concatenation are read as in
      the first part alone. */
  lemma {:induction false} NamesFromFirst(a: string, b: string, s: string, i: nat)
    requires s == a + b && i <= |a| && Apart(a, b)
    ensures NamesFrom(s, i) == NamesFrom(a, i) + Names(b)
    decreases |a| - i
  {
    if i == |a| {
      NamesFromSecond(a, b, s);
    } else if BindAt(s, i) {
      var e := BindInFirst(a, b, s, i);
      var x := [a[i + 1..e]];
      assert NamesFrom(s, e) == NamesFrom(a, e) + Names(b) by {
        NamesFromFirst(a, b, s, e);
      }
      assert x + (NamesFrom(a, e) + Names(b)) == (x + NamesFrom(a, e)) + Names(b);
    } else {
      NoBindInFirst(a, b, s, i);
      NamesFromFirst(a, b, s, i + 1);
    }
  }

  /** A placeholder of the concatenation that starts in its first part ends
      there, and is a placeholder of the first part. */
  lemma {:induction false} BindInFirst(a: string, b: string, s: string, i: nat) returns (e: nat)
    requires s == a + b && i < |a| && Apart(a, b) && BindAt(s, i)
    ensures i < e <= |a|
    ensures NamesFrom(s, i) == [a[i + 1..e]] + NamesFrom(s, e)
    ensures NamesFrom(a, i) == [a[i + 1..e]] + NamesFrom(a, e)
  {
    assert i + 1 < |a|;
    assert BindAt(a, i) by { assert s[i] == a[i] && s[i + 1] == a[i + 1]; }
    e := WordEnd(a, i + 1);
    assert WordEnd(s, i + 1) == e by {
      assert forall k :: i + 1 <= k < e ==> s[k] == a[k];
      if e < |a| {
        assert s[e] == a[e];
      } else if |b| > 0 {
        assert IsWordChar(a[|a| - 1]);
        assert s[e] == b[0];
      }
      WordEndUnique(s, i + 1, e);
    }
    assert s[i + 1..e] == a[i + 1..e];
  }

  /** A position of the first part where no placeholder starts. */
  lemma {:induction false} NoBindInFirst(a: string, b: string, s: string, i: nat)
    requires s == a + b && i < |a| && Apart(a, b) && !BindAt(s, i)
    ensures NamesFrom(s, i) == NamesFrom(s, i + 1)
    ensures NamesFrom(a, i) == NamesFrom(a, i + 1)
  {
    assert !BindAt(a, i) by {
      if i + 1 < |a| {
        assert s[i] == a[i] && s[i + 1] == a[i + 1];
      }
    }
  }

  /** The placeholders of a concatenation are those of its parts. */
  lemma {:induction false} NamesConcat(a: string, b: string)
    requires Apart(a, b)
    ensures Names(a + b) == Names(a) + Names(b)
  {
    NamesFromFirst(a, b, a + b, 0);
  }

  /** Text without a colon holds no placeholder, whatever follows it. */
  lemma {:induction false} NamesSkipFrom(a: string, b: string, s: string, i: nat)
    requires s == a + b && i <= |a|
    requires forall k :: i <= k < |a| ==> a[k] != ':'
    ensures NamesFrom(s, i) == Names(b)
    decreases |a| - i
  {
    if i == |a| {
      NamesFromSecond(a, b, s);
    } else {
      assert s[i] == a[i];
      NamesSkipFrom(a, b, s, i + 1);
    }
  }

  lemma {:induction false} NamesSkip(a: string, b: string, s: string)
    requires s == a + b && ':' !in a
    ensures Names(s) == Names(b)
  {
    NamesSkipFrom(a, b, s, 0);
  }

  /** A placeholder followed by text that does not continue its name. */
  lemma {:induction false} NamesBind(k: string, rest: string)
    requires Ident(k)
    requires rest == [] || !IsWordChar(rest[0])
    ensures Names(Placeholder(k) + rest) == [k] + Names(rest)
  {
    var a := Placeholder(k);
    var s := a + rest;
    assert BindAt(s, 0) by { assert s[0] == ':' && s[1] == k[0]; }
    assert WordEnd(s, 1) == |a| by {
      assert forall j :: 1 <= j < |a| ==> s[j] == k[j - 1];
      assert |a| < |s| ==> s[|a|] == rest[0];
      WordEndUnique(s, 1, |a|);
    }
    assert s[1..|a|] == k;
    NamesFromSecond(a, rest, s);
  }

  lemma {:induction false} NamesPlaceholder(k: string)
    requires Ident(k)
    ensures Names(Placeholder(k)) == [k]
  {
    NamesBind(k, "");
    assert Placeholder(k) + "" == Placeholder(k);
  }
}
