/** Python `str` and `list` primitives the application relies on, strings
    being `seq<char>`.
    Case mapping and word characters are the ASCII ones; whitespace is the
    set `str.isspace()` (and therefore `str.strip()` and the regex class `\s`)
    recognises. */
module Text {
  import opened Wrappers

  /** Python's `str.isspace()` for one character. */
  predicate IsSpace(c: char) {
    c == ' ' || ('\t' <= c <= '\r') || ('\U{1c}' <= c <= '\U{1f}')
    || c == '\U{85}' || c == '\U{a0}' || c == '\U{1680}'
    || ('\U{2000}' <= c <= '\U{200a}') || c == '\U{2028}' || c == '\U{2029}'
    || c == '\U{202f}' || c == '\U{205f}' || c == '\U{3000}'
  }

  predicate IsAsciiLetter(c: char) {
    ('a' <= c <= 'z') || ('A' <= c <= 'Z')
  }

  predicate IsDigit(c: char) {
    '0' <= c <= '9'
  }

  /** The regex class `\w`, restricted to ASCII. */
  predicate IsWordChar(c: char) {
    IsAsciiLetter(c) || IsDigit(c) || c == '_'
  }

  function LowerChar(c: char): char {
    if 'A' <= c <= 'Z' then (c as int + 32) as char else c
  }

  function UpperChar(c: char): (r: char)
    ensures r == c || ('a' <= c <= 'z' && 'A' <= r <= 'Z')
    ensures !('a' <= r <= 'z')
  {
    if 'a' <= c <= 'z' then (c as int - 32) as char else c
  }

  /** `str.lower()`. */
  function Lower(s: string): (r: string)
    ensures |r| == |s|
    ensures forall i :: 0 <= i < |s| ==> r[i] == LowerChar(s[i])
    ensures forall i :: 0 <= i < |r| ==> !('A' <= r[i] <= 'Z')
  {
    seq(|s|, i requires 0 <= i < |s| => LowerChar(s[i]))
  }

  /** `str.upper()`. */
  function Upper(s: string): (r: string)
    ensures |r| == |s|
    ensures forall i :: 0 <= i < |s| ==> r[i] == UpperChar(s[i])
    ensures forall i :: 0 <= i < |r| ==> !('a' <= r[i] <= 'z')
  {
    seq(|s|, i requires 0 <= i < |s| => UpperChar(s[i]))
  }

  /** The end of the whitespace run that starts at `i`. */
  function SkipSpace(s: string, i: nat): (j: nat)
    requires i <= |s|
    ensures i <= j <= |s|
    ensures forall k {:trigger IsSpace(s[k])} :: i <= k < j ==> IsSpace(s[k])
    ensures j == |s| || !IsSpace(s[j])
    decreases |s| - i
  {
    if i < |s| && IsSpace(s[i]) then SkipSpace(s, i + 1) else i
  }

  lemma {:induction false} SkipSpaceUnique(s: string, i: nat, j: nat)
    requires i <= j <= |s|
    requires forall k :: i <= k < j ==> IsSpace(s[k])
    requires j == |s| || !IsSpace(s[j])
    ensures SkipSpace(s, i) == j
  {
  }

  /** The start of the whitespace run that ends at `j`. */
  function SpaceStart(s: string, j: nat): (i: nat)
    requires j <= |s|
    ensures i <= j
  {
    if j > 0 && IsSpace(s[j - 1]) then SpaceStart(s, j - 1) else j
  }

  /** The run found is whitespace and cannot be extended to the left. */
  lemma {:induction false} SpaceStartFacts(s: string, j: nat)
    requires j <= |s|
    ensures var i := SpaceStart(s, j);
      && (forall k {:trigger IsSpace(s[k])} :: i <= k < j ==> IsSpace(s[k]))
      && (i == 0 || !IsSpace(s[i - 1]))
  {
    if j > 0 && IsSpace(s[j - 1]) {
      SpaceStartFacts(s, j - 1);
    }
  }

  lemma {:induction false} SpaceStartUnique(s: string, i: nat, j: nat)
    requires i <= j <= |s|
    requires forall k :: i <= k < j ==> IsSpace(s[k])
    requires i == 0 || !IsSpace(s[i - 1])
    ensures SpaceStart(s, j) == i
    decreases j
  {
    if i < j {
      SpaceStartUnique(s, i, j - 1);
    }
  }

  /** `str.rstrip()`: drops the trailing whitespace and nothing else. */
  function RStrip(s: string): (r: string)
    ensures |r| <= |s|
  {
    s[..SpaceStart(s, |s|)]
  }

  /** What `RStrip` keeps is a prefix ending in a non-space, and only
      whitespace follows it. */
  lemma {:induction false} RStripFacts(s: string)
    ensures var r := RStrip(s);
      && r == s[..|r|]
      && (forall i {:trigger IsSpace(s[i])} :: |r| <= i < |s| ==> IsSpace(s[i]))
      && (r == [] || !IsSpace(r[|r| - 1]))
  {
    var n := SpaceStart(s, |s|);
    SpaceStartFacts(s, |s|);
    assert n > 0 ==> s[..n][n - 1] == s[n - 1];
  }

  /** `RStrip` is determined by its contract: the prefix that ends with a
      non-space and is followed only by whitespace. */
  lemma {:induction false} RStripUnique(s: string, n: nat)
    requires n <= |s|
    requires forall i :: n <= i < |s| ==> IsSpace(s[i])
    requires n == 0 || !IsSpace(s[n - 1])
    ensures RStrip(s) == s[..n]
  {
    SpaceStartUnique(s, n, |s|);
  }

  /** `s[i:j].strip()`: whitespace is dropped from the front, then from the
      back, of the slice between `i` and `j`. */
  function Trim(s: string, i: nat, j: nat): (r: string)
    requires i <= j <= |s|
    ensures |r| <= j - i
    ensures r == [] || (!IsSpace(r[0]) && !IsSpace(r[|r| - 1]))
    decreases j - i
  {
    if i < j && IsSpace(s[i]) then Trim(s, i + 1, j)
    else if i < j && IsSpace(s[j - 1]) then Trim(s, i, j - 1)
    else
      var r := s[i..j];
      assert i < j ==> r[0] == s[i] && r[|r| - 1] == s[j - 1] && !IsSpace(s[i]);
      r
  }

  /** `str.strip()`: the slice of `s` left once whitespace is dropped at both ends. */
  function Strip(s: string): (r: string)
    ensures |r| <= |s|
    ensures r == [] || (!IsSpace(r[0]) && !IsSpace(r[|r| - 1]))
    ensures r == [] <==> Blank(s)
  {
    TrimEmpty(s, 0, |s|);
    Trim(s, 0, |s|)
  }

  /** `Trim` empties exactly the stretches that are all whitespace. */
  lemma {:induction false} TrimEmpty(s: string, i: nat, j: nat)
    requires i <= j <= |s|
    ensures Trim(s, i, j) == [] <==> forall k {:trigger IsSpace(s[k])} :: i <= k < j ==> IsSpace(s[k])
    decreases j - i
  {
    if i < j && IsSpace(s[i]) {
      TrimEmpty(s, i + 1, j);
    } else if i < j && IsSpace(s[j - 1]) {
      TrimEmpty(s, i, j - 1);
    }
  }

  /** `r` is the slice of `s[i..j]` starting at `a`, and only whitespace
      surrounds it there. */
  predicate Framed(s: string, i: nat, j: nat, a: nat, r: string)
    requires j <= |s|
  {
    i <= a && a + |r| <= j && r == s[a..a + |r|]
    && (forall k :: i <= k < a ==> IsSpace(s[k]))
    && (forall k :: a + |r| <= k < j ==> IsSpace(s[k]))
  }

  lemma {:induction false} FramedFront(s: string, i: nat, j: nat, a: nat, r: string)
    requires i < j <= |s| && IsSpace(s[i]) && Framed(s, i + 1, j, a, r)
    ensures Framed(s, i, j, a, r)
  {
  }

  lemma {:induction false} FramedBack(s: string, i: nat, j: nat, a: nat, r: string)
    requires i < j <= |s| && IsSpace(s[j - 1]) && Framed(s, i, j - 1, a, r)
    ensures Framed(s, i, j, a, r)
  {
  }

  /** What `Trim` keeps is a slice with only whitespace around it. */
  lemma {:induction false} TrimTrimmed(s: string, i: nat, j: nat) returns (a: nat)
    requires i <= j <= |s|
    ensures Framed(s, i, j, a, Trim(s, i, j))
    decreases j - i
  {
    if i < j && IsSpace(s[i]) {
      a := TrimTrimmed(s, i + 1, j);
      FramedFront(s, i, j, a, Trim(s, i, j));
    } else if i < j && IsSpace(s[j - 1]) {
      a := TrimTrimmed(s, i, j - 1);
      FramedBack(s, i, j, a, Trim(s, i, j));
    } else {
      a := i;
    }
  }

  /** What `Strip` keeps is a slice of its input with only whitespace
      around it. */
  lemma {:induction false} StripTrimmed(s: string) returns (a: nat)
    ensures TrimmedAt(s, a, Strip(s))
  {
    a := TrimTrimmed(s, 0, |s|);
  }

  /** Text that neither starts nor ends with whitespace is its own strip. */
  lemma {:induction false} StripNoop(s: string)
    requires s == [] || (!IsSpace(s[0]) && !IsSpace(s[|s| - 1]))
    ensures Strip(s) == s
  {
    assert s[0..|s|] == s;
  }

  /** Text without lower-case letters is its own upper-case. */
  lemma {:induction false} UpperNoop(s: string)
    requires forall k :: 0 <= k < |s| ==> !('a' <= s[k] <= 'z')
    ensures Upper(s) == s
  {
    var u := Upper(s);
    forall k | 0 <= k < |s| ensures u[k] == s[k] {
      assert u[k] == UpperChar(s[k]);
    }
  }

  /** Nothing but whitespace: the strings Python's `s.strip()` empties. */
  predicate Blank(s: string) {
    forall i :: 0 <= i < |s| ==> IsSpace(s[i])
  }

  /** `r` is the slice of `s` starting at `a` and only whitespace surrounds it. */
  predicate TrimmedAt(s: string, a: nat, r: string) {
    a + |r| <= |s| && r == s[a..a + |r|]
    && (forall i :: 0 <= i < a ==> IsSpace(s[i]))
    && (forall i :: a + |r| <= i < |s| ==> IsSpace(s[i]))
  }

  /** `str.rstrip(c)` for a single character `c`. */
  function RStripChar(s: string, c: char): (r: string)
    ensures |r| <= |s| && r == s[..|r|]
    ensures forall i :: |r| <= i < |s| ==> s[i] == c
    ensures r == [] || r[|r| - 1] != c
  {
    if |s| > 0 && s[|s| - 1] == c then RStripChar(s[..|s| - 1], c) else s
  }

  lemma {:induction false} Assoc(a: string, b: string, c: string)
    ensures a + b + c == a + (b + c)
  {
  }

  /** `w` occurs in `s` at position `p`. */
  predicate StartsAt(s: string, p: nat, w: string) {
    p + |w| <= |s| && s[p..p + |w|] == w
  }

  lemma {:induction false} StartsAtFront(a: string, b: string)
    ensures StartsAt(a + b, 0, a)
  {
    assert (a + b)[..|a|] == a;
  }

  /** `s.endswith(w)`. */
  predicate EndsWith(s: string, w: string) {
    |w| <= |s| && s[|s| - |w|..] == w
  }

  /** `s.find(c)` for a character that occurs. */
  function IndexOf(s: string, c: char): (i: nat)
    requires c in s
    ensures i < |s| && s[i] == c && c !in s[..i]
  {
    if s[0] == c then 0 else 1 + IndexOf(s[1..], c)
  }

  /** `s.index(x)` for an element that occurs: its first position. */
  function Position<T(==)>(s: seq<T>, x: T): (i: nat)
    requires x in s
    ensures i < |s| && s[i] == x && x !in s[..i]
  {
    if s[0] == x then 0
    else
      var j := Position(s[1..], x);
      assert s[..j + 1] == [s[0]] + s[1..][..j];
      1 + j
  }

  /** No element repeats. */
  predicate Distinct<T(==)>(s: seq<T>) {
    forall i, j :: 0 <= i < j < |s| ==> s[i] != s[j]
  }

  /** In a sequence without repeats, an element's position is where it is. */
  lemma {:induction false} PositionAt<T>(s: seq<T>, i: nat)
    requires Distinct(s) && i < |s|
    ensures Position(s, s[i]) == i
  {
  }

  /** `[f(x) for x in xs if keep(x)]`. */
  function FilterMap<T(==)>(xs: seq<T>, keep: T -> bool, f: T -> T): (r: seq<T>)
    ensures |r| <= |xs|
    decreases |xs|
  {
    if |xs| == 0 then []
    else (if keep(xs[0]) then [f(xs[0])] else []) + FilterMap(xs[1..], keep, f)
  }

  /** `out` holds `f` of exactly the elements of `xs` that `keep` accepts,
      in their order: the ones at the increasing positions `idx`. */
  predicate Picked<T(==)>(xs: seq<T>, keep: T -> bool, f: T -> T, out: seq<T>, idx: seq<nat>) {
    && |idx| == |out|
    && (forall j :: 0 <= j < |idx| ==> idx[j] < |xs| && out[j] == f(xs[idx[j]]))
    && (forall a, b :: 0 <= a < b < |idx| ==> idx[a] < idx[b])
    && (forall i :: 0 <= i < |xs| ==> (i in idx <==> keep(xs[i])))
  }

  /** The positions of `idx`, one further on. */
  function Shifted(idx: seq<nat>): (r: seq<nat>)
    ensures |r| == |idx|
    ensures forall j :: 0 <= j < |idx| ==> r[j] == idx[j] + 1
  {
    seq(|idx|, j requires 0 <= j < |idx| => idx[j] + 1)
  }

  lemma {:induction false} ShiftedIn(idx: seq<nat>, i: nat)
    ensures i + 1 in Shifted(idx) <==> i in idx
  {
    if i in idx {
      var j :| 0 <= j < |idx| && idx[j] == i;
      assert Shifted(idx)[j] == i + 1;
    }
  }

  /** What the comprehension keeps: `f` of exactly the accepted elements, in
      order. */
  lemma {:induction false} FilterMapExact<T>(xs: seq<T>, keep: T -> bool, f: T -> T)
    ensures exists idx :: Picked(xs, keep, f, FilterMap(xs, keep, f), idx)
    decreases |xs|
  {
    var out := FilterMap(xs, keep, f);
    if |xs| == 0 {
      assert Picked(xs, keep, f, out, []);
    } else {
      var rest := xs[1..];
      var tail := FilterMap(rest, keep, f);
      FilterMapExact(rest, keep, f);
      var idx' :| Picked(rest, keep, f, tail, idx');
      var sh := Shifted(idx');
      ShiftedAll(idx', |xs|);
      if keep(xs[0]) {
        FilterMapKept(xs, keep, f, tail, idx', sh);
      } else {
        assert out == tail;
        FilterMapSkipped(xs, keep, f, tail, idx', sh);
      }
    }
  }

  lemma {:induction false} ShiftedAll(idx: seq<nat>, n: nat)
    ensures 0 !in Shifted(idx)
    ensures forall i :: 1 <= i < n ==> (i in Shifted(idx) <==> i - 1 in idx)
  {
    forall i | 1 <= i < n ensures i in Shifted(idx) <==> i - 1 in idx {
      ShiftedIn(idx, i - 1);
    }
  }

  lemma {:induction false} FilterMapSkipped<T>(xs: seq<T>, keep: T -> bool, f: T -> T, tail: seq<T>, idx': seq<nat>, sh: seq<nat>)
    requires |xs| > 0 && !keep(xs[0])
    requires Picked(xs[1..], keep, f, tail, idx') && sh == Shifted(idx')
    requires 0 !in sh && forall i :: 1 <= i < |xs| ==> (i in sh <==> i - 1 in idx')
    ensures Picked(xs, keep, f, tail, sh)
  {
    forall i | 0 <= i < |xs| ensures i in sh <==> keep(xs[i]) {
      if i > 0 {
        assert xs[1..][i - 1] == xs[i];
      }
    }
    forall j | 0 <= j < |sh| ensures sh[j] < |xs| && tail[j] == f(xs[sh[j]]) {
      assert xs[1..][idx'[j]] == xs[sh[j]];
    }
  }

  lemma {:induction false} FilterMapKept<T>(xs: seq<T>, keep: T -> bool, f: T -> T, tail: seq<T>, idx': seq<nat>, sh: seq<nat>)
    requires |xs| > 0 && keep(xs[0]) && tail == FilterMap(xs[1..], keep, f)
    requires Picked(xs[1..], keep, f, tail, idx') && sh == Shifted(idx')
    requires 0 !in sh && forall i :: 1 <= i < |xs| ==> (i in sh <==> i - 1 in idx')
    ensures Picked(xs, keep, f, FilterMap(xs, keep, f), [0] + sh)
  {
    var out := FilterMap(xs, keep, f);
    assert out == [f(xs[0])] + tail;
    KeptPositions(xs, keep, idx', sh);
    KeptValues(xs, f, tail, idx', sh);
  }

  lemma {:induction false} KeptPositions<T>(xs: seq<T>, keep: T -> bool, idx': seq<nat>, sh: seq<nat>)
    requires |xs| > 0 && keep(xs[0])
    requires forall i :: 0 <= i < |xs| - 1 ==> (i in idx' <==> keep(xs[1..][i]))
    requires 0 !in sh && forall i :: 1 <= i < |xs| ==> (i in sh <==> i - 1 in idx')
    ensures forall i :: 0 <= i < |xs| ==> (i in [0] + sh <==> keep(xs[i]))
  {
    forall i | 0 <= i < |xs| ensures i in [0] + sh <==> keep(xs[i]) {
      if i > 0 {
        assert i in [0] + sh <==> i in sh;
        assert xs[1..][i - 1] == xs[i];
      }
    }
  }

  lemma {:induction false} KeptValues<T>(xs: seq<T>, f: T -> T, tail: seq<T>, idx': seq<nat>, sh: seq<nat>)
    requires |xs| > 0 && |idx'| == |tail| && sh == Shifted(idx')
    requires forall j :: 0 <= j < |idx'| ==> idx'[j] < |xs| - 1 && tail[j] == f(xs[1..][idx'[j]])
    requires forall a, b :: 0 <= a < b < |idx'| ==> idx'[a] < idx'[b]
    ensures var idx, out := [0] + sh, [f(xs[0])] + tail;
      && |idx| == |out|
      && (forall j :: 0 <= j < |idx| ==> idx[j] < |xs| && out[j] == f(xs[idx[j]]))
      && (forall a, b :: 0 <= a < b < |idx| ==> idx[a] < idx[b])
  {
    var idx, out := [0] + sh, [f(xs[0])] + tail;
    forall j | 0 <= j < |idx| ensures idx[j] < |xs| && out[j] == f(xs[idx[j]]) {
      if j > 0 {
        assert idx[j] == idx'[j - 1] + 1;
        assert xs[1..][idx'[j - 1]] == xs[idx[j]];
      }
    }
  }

  /** Without rejections, the comprehension maps every element. */
  lemma {:induction false} FilterMapAll<T>(xs: seq<T>, keep: T -> bool, f: T -> T)
    requires forall i :: 0 <= i < |xs| ==> keep(xs[i])
    ensures FilterMap(xs, keep, f) == seq(|xs|, i requires 0 <= i < |xs| => f(xs[i]))
    decreases |xs|
  {
    if |xs| > 0 {
      FilterMapAll(xs[1..], keep, f);
    }
  }

  /** When `f` keeps what it maps accepted and is idempotent on it, the
      comprehension is idempotent. */
  lemma {:induction false} FilterMapTwice<T>(xs: seq<T>, keep: T -> bool, f: T -> T)
    requires forall x :: keep(x) ==> keep(f(x)) && f(f(x)) == f(x)
    ensures FilterMap(FilterMap(xs, keep, f), keep, f) == FilterMap(xs, keep, f)
    decreases |xs|
  {
    if |xs| > 0 {
      var tail := FilterMap(xs[1..], keep, f);
      FilterMapTwice(xs[1..], keep, f);
      if keep(xs[0]) {
        var out := [f(xs[0])] + tail;
        assert out[1..] == tail;
        assert keep(f(xs[0])) && f(f(xs[0])) == f(xs[0]);
        assert FilterMap(out, keep, f) == [f(f(xs[0]))] + FilterMap(tail, keep, f);
      } else {
        assert FilterMap(xs, keep, f) == tail;
      }
    }
  }

  /** `dict(zip(keys, vals))`: pairs up to the shorter of the two; a
      repeated key keeps its last value. */
  function ZipDict<K(==), V>(keys: seq<K>, vals: seq<V>): map<K, V>
    decreases |keys|
  {
    var n := if |keys| < |vals| then |keys| else |vals|;
    if n == 0 then map[]
    else ZipDict(keys[..n - 1], vals[..n - 1])[keys[n - 1] := vals[n - 1]]
  }

  /** The keys of the dictionary are the keys that got a value. */
  lemma {:induction false} ZipDictKeys<K, V>(keys: seq<K>, vals: seq<V>)
    ensures forall k :: k in ZipDict(keys, vals) <==> exists j :: 0 <= j < |keys| && j < |vals| && keys[j] == k
    decreases |keys|
  {
    var n := if |keys| < |vals| then |keys| else |vals|;
    if n > 0 {
      var ks, vs := keys[..n - 1], vals[..n - 1];
      ZipDictKeys(ks, vs);
      forall k ensures k in ZipDict(keys, vals) <==> exists j :: 0 <= j < |keys| && j < |vals| && keys[j] == k {
        if exists j :: 0 <= j < |keys| && j < |vals| && keys[j] == k {
          var j :| 0 <= j < |keys| && j < |vals| && keys[j] == k;
          if j < n - 1 {
            assert ks[j] == k;
          }
        }
        if exists j :: 0 <= j < |ks| && j < |vs| && ks[j] == k {
          var j :| 0 <= j < |ks| && j < |vs| && ks[j] == k;
          assert keys[j] == k;
        }
      }
    }
  }

  /** The pair at position `j` is the last one with its key. */
  predicate LastWith<K(==), V>(keys: seq<K>, vals: seq<V>, k: K, j: nat) {
    && j < |keys| && j < |vals| && keys[j] == k
    && forall i :: j < i < |keys| && i < |vals| ==> keys[i] != k
  }

  /** A key's value is the one paired with its last occurrence. */
  lemma {:induction false} ZipDictLast<K, V>(keys: seq<K>, vals: seq<V>, k: K, j: nat)
    requires LastWith(keys, vals, k, j)
    ensures k in ZipDict(keys, vals) && ZipDict(keys, vals)[k] == vals[j]
    decreases |keys|
  {
    var n := if |keys| < |vals| then |keys| else |vals|;
    if j < n - 1 {
      var ks, vs := keys[..n - 1], vals[..n - 1];
      assert keys[n - 1] != k;
      assert LastWith(ks, vs, k, j) by {
        forall i | j < i < |ks| && i < |vs| ensures ks[i] != k {
          assert ks[i] == keys[i];
        }
      }
      ZipDictLast(ks, vs, k, j);
    }
  }

  /** With distinct keys, each key's value is the one at its position. */
  lemma {:induction false} ZipDictAt<K, V>(keys: seq<K>, vals: seq<V>, j: nat)
    requires Distinct(keys) && j < |keys| && j < |vals|
    ensures keys[j] in ZipDict(keys, vals) && ZipDict(keys, vals)[keys[j]] == vals[j]
  {
    ZipDictLast(keys, vals, keys[j], j);
  }

  /** Values paired with other keys do not matter for key `k`. */
  lemma {:induction false} ZipDictAgree<K, V>(keys: seq<K>, vals: seq<V>, vals': seq<V>, k: K)
    requires |vals| == |vals'|
    requires forall j :: 0 <= j < |keys| && j < |vals| && keys[j] == k ==> vals[j] == vals'[j]
    ensures k in ZipDict(keys, vals) <==> k in ZipDict(keys, vals')
    ensures k in ZipDict(keys, vals) ==> ZipDict(keys, vals)[k] == ZipDict(keys, vals')[k]
    decreases |keys|
  {
    var n := if |keys| < |vals| then |keys| else |vals|;
    if n > 0 {
      var ks, vs, vs' := keys[..n - 1], vals[..n - 1], vals'[..n - 1];
      forall j | 0 <= j < |ks| && j < |vs| && ks[j] == k ensures vs[j] == vs'[j] {
        assert keys[j] == k;
      }
      ZipDictAgree(ks, vs, vs', k);
    }
  }

  /** `sep.join(parts)`. */
  function Join(parts: seq<string>, sep: string): string {
    if |parts| == 0 then ""
    else if |parts| == 1 then parts[0]
    else parts[0] + sep + Join(parts[1..], sep)
  }

  /** Joining one more part adds the separator and the part at the end. */
  lemma {:induction false} JoinSnoc(parts: seq<string>, x: string, sep: string)
    requires |parts| > 0
    ensures Join(parts + [x], sep) == Join(parts, sep) + sep + x
    decreases |parts|
  {
    var ps := parts + [x];
    if |parts| == 1 {
      assert ps[1..] == [x];
    } else {
      assert ps[1..] == parts[1..] + [x];
      JoinSnoc(parts[1..], x, sep);
      Assoc(parts[0] + sep, Join(parts[1..], sep) + sep, x);
    }
  }

  /** `s.split(sep)` for a one-character separator: the pieces between the
      separators, so that joining them back with `sep` gives `s` again. */
  function Split(s: string, sep: char): (parts: seq<string>)
    ensures |parts| >= 1
    ensures forall i :: 0 <= i < |parts| ==> sep !in parts[i]
    ensures Join(parts, [sep]) == s
    decreases |s|
  {
    if sep !in s then [s]
    else
      var i := IndexOf(s, sep);
      assert s == s[..i] + [sep] + s[i + 1..];
      [s[..i]] + Split(s[i + 1..], sep)
  }

  /** Splitting what was joined gives the pieces back, provided none of them
      contains the separator. */
  lemma {:induction false} SplitJoin(parts: seq<string>, sep: char)
    requires |parts| >= 1
    requires forall i :: 0 <= i < |parts| ==> sep !in parts[i]
    ensures Split(Join(parts, [sep]), sep) == parts
  {
    if |parts| > 1 {
      var s := Join(parts, [sep]);
      var rest := Join(parts[1..], [sep]);
      assert s == parts[0] + [sep] + rest;
      assert s[|parts[0]|] == sep;
      assert s[..|parts[0]|] == parts[0];
      var i := IndexOf(s, sep);
      assert i == |parts[0]|;
      assert s[..i] == parts[0];
      assert s[i + 1..] == rest;
      SplitJoin(parts[1..], sep);
    } else {
      assert sep !in parts[0];
    }
  }

  /** The rest of `s.replace(pat, rep)` from position `i` on: an occurrence
      of `pat` starting there is replaced and the scan resumes after it,
      otherwise the character is kept. */
  function ReplaceFrom(s: string, i: nat, pat: string, rep: string): string
    requires i <= |s| && |pat| > 0
    decreases |s| - i
  {
    if i == |s| then ""
    else if StartsAt(s, i, pat) then rep + ReplaceFrom(s, i + |pat|, pat, rep)
    else [s[i]] + ReplaceFrom(s, i + 1, pat, rep)
  }

  /** `s.replace(pat, rep)`: leftmost, non-overlapping occurrences. */
  function Replace(s: string, pat: string, rep: string): string
    requires |pat| > 0
  {
    ReplaceFrom(s, 0, pat, rep)
  }

  /** Texts that agree from `i` and from `j` on. */
  predicate Agree(s: string, i: nat, t: string, j: nat) {
    i <= |s| && j <= |t| && |s| - i == |t| - j
    && forall k :: i <= k < |s| ==> s[k] == t[k - i + j]
  }

  /** Agreement carries over to later positions. */
  lemma {:induction false} AgreeShift(s: string, i: nat, t: string, j: nat, n: nat)
    requires Agree(s, i, t, j) && i + n <= |s|
    ensures Agree(s, i + n, t, j + n)
  {
  }

  /** Agreeing texts have the same slices. */
  lemma {:induction false} AgreeSlice(s: string, i: nat, t: string, j: nat, n: nat)
    requires Agree(s, i, t, j) && i + n <= |s|
    ensures s[i..i + n] == t[j..j + n]
  {
    var u, v := s[i..i + n], t[j..j + n];
    forall m | 0 <= m < n ensures u[m] == v[m] {
      assert u[m] == s[i + m] && v[m] == t[j + m];
    }
  }

  /** A suffix agrees with the text it is cut from. */
  lemma {:induction false} AgreeSecond(a: string, b: string, s: string)
    requires s == a + b
    ensures Agree(s, |a|, b, 0)
  {
  }

  /** Texts that agree from `i` and from `j` on are rewritten alike there. */
  lemma {:induction false} ReplaceAgree(s: string, i: nat, t: string, j: nat, pat: string, rep: string)
    requires |pat| > 0 && Agree(s, i, t, j)
    ensures ReplaceFrom(s, i, pat, rep) == ReplaceFrom(t, j, pat, rep)
    decreases |s| - i, 1
  {
    if i < |s| {
      if i + |pat| <= |s| {
        AgreeSlice(s, i, t, j, |pat|);
      }
      if StartsAt(s, i, pat) {
        ReplaceAgreeMatched(s, i, t, j, pat, rep);
      } else {
        ReplaceAgreeKept(s, i, t, j, pat, rep);
      }
    }
  }

  lemma {:induction false} ReplaceAgreeMatched(s: string, i: nat, t: string, j: nat, pat: string, rep: string)
    requires |pat| > 0 && Agree(s, i, t, j) && i < |s|
    requires StartsAt(s, i, pat) && StartsAt(t, j, pat)
    ensures ReplaceFrom(s, i, pat, rep) == ReplaceFrom(t, j, pat, rep)
    decreases |s| - i, 0
  {
    AgreeShift(s, i, t, j, |pat|);
    ReplaceAgree(s, i + |pat|, t, j + |pat|, pat, rep);
  }

  lemma {:induction false} ReplaceAgreeKept(s: string, i: nat, t: string, j: nat, pat: string, rep: string)
    requires |pat| > 0 && Agree(s, i, t, j) && i < |s|
    requires !StartsAt(s, i, pat) && !StartsAt(t, j, pat)
    ensures ReplaceFrom(s, i, pat, rep) == ReplaceFrom(t, j, pat, rep)
    decreases |s| - i, 0
  {
    assert s[i] == t[j];
    AgreeShift(s, i, t, j, 1);
    ReplaceAgree(s, i + 1, t, j + 1, pat, rep);
  }

  /** From the end of the first part of a concatenation on, the second part
      is rewritten as on its own. */
  lemma {:induction false} ReplaceSecond(a: string, b: string, s: string, pat: string, rep: string)
    requires |pat| > 0 && s == a + b
    ensures ReplaceFrom(s, |a|, pat, rep) == Replace(b, pat, rep)
  {
    AgreeSecond(a, b, s);
    ReplaceAgree(s, |a|, b, 0, pat, rep);
  }

  /** Where no occurrence starts, the text is kept. */
  lemma {:induction false} ReplaceSkipFrom(a: string, b: string, s: string, i: nat, pat: string, rep: string)
    requires |pat| > 0 && s == a + b && i <= |a|
    requires forall p :: i <= p < |a| ==> !StartsAt(s, p, pat)
    ensures ReplaceFrom(s, i, pat, rep) == a[i..] + Replace(b, pat, rep)
    decreases |a| - i
  {
    if i == |a| {
      ReplaceSecond(a, b, s, pat, rep);
    } else {
      var R := Replace(b, pat, rep);
      assert ReplaceFrom(s, i, pat, rep) == [a[i]] + ReplaceFrom(s, i + 1, pat, rep) by {
        assert s[i] == a[i];
      }
      ReplaceSkipFrom(a, b, s, i + 1, pat, rep);
      assert [a[i]] + (a[i + 1..] + R) == a[i..] + R by {
        assert [a[i]] + a[i + 1..] == a[i..];
      }
    }
  }

  /** Text containing no occurrence of `pat` starting inside it passes
      through `Replace` untouched, whatever follows it. */
  lemma {:induction false} ReplaceSkip(a: string, b: string, pat: string, rep: string)
    requires |pat| > 0
    requires forall p :: 0 <= p < |a| ==> !StartsAt(a + b, p, pat)
    ensures Replace(a + b, pat, rep) == a + Replace(b, pat, rep)
  {
    ReplaceSkipFrom(a, b, a + b, 0, pat, rep);
    assert a[0..] == a;
  }

  /** Text without an occurrence of `pat` is its own replacement. */
  lemma {:induction false} ReplaceNone(s: string, pat: string, rep: string)
    requires |pat| > 0 && forall p :: 0 <= p < |s| ==> !StartsAt(s, p, pat)
    ensures Replace(s, pat, rep) == s
  {
    assert s + "" == s;
    ReplaceSkip(s, "", pat, rep);
    assert Replace("", pat, rep) == "";
  }

  lemma {:induction false} StartsAtChar(t: string, p: nat, w: string, j: nat)
    ensures StartsAt(t, p, w) && j < |w| ==> t[p + j] == w[j]
  {
    if StartsAt(t, p, w) && j < |w| {
      assert t[p..p + |w|][j] == t[p + j];
    }
  }

  /** A match of `a + b` is a match of `a` followed by one of `b`. */
  lemma {:induction false} StartsAtSplit(s: string, p: nat, a: string, b: string)
    requires StartsAt(s, p, a + b)
    ensures StartsAt(s, p, a) && StartsAt(s, p + |a|, b)
  {
    assert s[p..p + |a|] == (a + b)[..|a|];
    assert s[p + |a|..p + |a| + |b|] == (a + b)[|a|..];
  }

  lemma {:induction false} StartsAtTail(s: string, p: nat, w: string)
    requires |s| > 0
    ensures StartsAt(s[1..], p, w) <==> StartsAt(s, p + 1, w)
  {
    if p + 1 + |w| <= |s| {
      assert s[1..][p..p + |w|] == s[p + 1..p + 1 + |w|];
    }
  }

  /** An occurrence of `pat` at the front is replaced by `rep`. */
  lemma {:induction false} ReplaceFront(b: string, pat: string, rep: string)
    requires |pat| > 0
    ensures Replace(pat + b, pat, rep) == rep + Replace(b, pat, rep)
  {
    var s := pat + b;
    assert StartsAt(s, 0, pat) by { assert s[..|pat|] == pat; }
    ReplaceSecond(pat, b, s, pat, rep);
  }

  /** No occurrence of `pat` can start inside `s`, whatever follows it. */
  ghost predicate PatFree(s: string, pat: string) {
    forall x: string, p: nat :: p < |s| ==> !StartsAt(s + x, p, pat)
  }

  /** A text without the first character of `pat` cannot start it. */
  lemma {:induction false} PatFreeByFirst(s: string, pat: string)
    requires |pat| > 0 && pat[0] !in s
    ensures PatFree(s, pat)
  {
    forall x: string, p: nat | p < |s|
      ensures !StartsAt(s + x, p, pat)
    {
      StartsAtChar(s + x, p, pat, 0);
      assert (s + x)[p] == s[p];
    }
  }

  /** A text in which the first character of `pat` is always followed, inside
      the text, by something other than its second character. */
  lemma {:induction false} PatFreeByPair(s: string, pat: string)
    requires |pat| > 1
    requires forall i :: 0 <= i < |s| && s[i] == pat[0] ==> i + 1 < |s| && s[i + 1] != pat[1]
    ensures PatFree(s, pat)
  {
    forall x: string, p: nat | p < |s|
      ensures !StartsAt(s + x, p, pat)
    {
      StartsAtChar(s + x, p, pat, 0);
      StartsAtChar(s + x, p, pat, 1);
      assert (s + x)[p] == s[p];
      if p + 1 < |s| {
        assert (s + x)[p + 1] == s[p + 1];
      }
    }
  }

  lemma {:induction false} PatFreeConcat(a: string, b: string, pat: string)
    requires PatFree(a, pat) && PatFree(b, pat)
    ensures PatFree(a + b, pat)
  {
    forall x: string, p: nat | p < |a + b|
      ensures !StartsAt(a + b + x, p, pat)
    {
      assert a + b + x == a + (b + x);
      if p < |a| {
        assert !StartsAt(a + (b + x), p, pat);
      } else {
        assert !StartsAt(b + x, p - |a|, pat);
      }
    }
  }

  /** Replacing every occurrence of `pat` in text assembled from pieces that
      cannot contain it swaps the separators and keeps the pieces verbatim. */
  lemma {:induction false} ReplaceJoin(parts: seq<string>, pat: string, rep: string)
    requires |pat| > 0 && |parts| >= 1
    requires forall i :: 0 <= i < |parts| ==> PatFree(parts[i], pat)
    ensures Replace(Join(parts, pat), pat, rep) == Join(parts, rep)
  {
    var a := parts[0];
    if |parts| == 1 {
      assert a + "" == a;
      assert PatFree(a, pat);
      ReplaceNone(a, pat, rep);
    } else {
      var rest := Join(parts[1..], pat);
      var s := Join(parts, pat);
      assert s == a + (pat + rest);
      assert Replace(s, pat, rep) == a + Replace(pat + rest, pat, rep) by {
        assert PatFree(a, pat);
        assert forall p :: 0 <= p < |a| ==> !StartsAt(a + (pat + rest), p, pat);
        ReplaceSkip(a, pat + rest, pat, rep);
      }
      assert Replace(pat + rest, pat, rep) == rep + Replace(rest, pat, rep) by {
        ReplaceFront(rest, pat, rep);
      }
      assert Replace(rest, pat, rep) == Join(parts[1..], rep) by {
        assert forall i :: 0 <= i < |parts| - 1 ==> parts[1..][i] == parts[i + 1];
        ReplaceJoin(parts[1..], pat, rep);
      }
      assert Join(parts, rep) == a + (rep + Join(parts[1..], rep));
    }
  }

  function DigitChar(d: nat): char
    requires d < 10
  {
    ('0' as int + d) as char
  }

  function DigitValue(c: char): nat
    requires IsDigit(c)
  {
    c as int - '0' as int
  }

  /** Python's `str(n)` for a non-negative integer: decimal, no leading zeros. */
  function NatText(n: nat): (r: string)
    ensures |r| >= 1
    ensures forall i :: 0 <= i < |r| ==> IsDigit(r[i])
    ensures r[0] != '0' || n == 0
  {
    if n < 10 then [DigitChar(n)] else NatText(n / 10) + [DigitChar(n % 10)]
  }

  /** Python's `str(i)` for an integer. */
  function IntText(i: int): (r: string)
    ensures |r| >= 1
    ensures r[0] == '-' <==> i < 0
  {
    if i < 0 then "-" + NatText(-i) else NatText(i)
  }

  /** The value of a run of decimal digits. */
  function DigitsValue(s: string): nat
    requires forall i :: 0 <= i < |s| ==> IsDigit(s[i])
  {
    if |s| == 0 then 0 else 10 * DigitsValue(s[..|s| - 1]) + DigitValue(s[|s| - 1])
  }

  /** Integer text: an optional sign followed by at least one ASCII digit. */
  function ParseInt(s: string): (r: Option<int>)
    ensures r.Some? ==> |s| >= 1
    ensures r.Some? && !IsDigit(s[0]) ==> s[0] == '-' || s[0] == '+'
    ensures r.Some? ==> IsDigit(s[|s| - 1])
  {
    if |s| >= 1 && (s[0] == '-' || s[0] == '+') then
      var body := s[1..];
      if |body| >= 1 && forall i :: 0 <= i < |body| ==> IsDigit(body[i]) then
        var v: int := if s[0] == '-' then -(DigitsValue(body) as int) else DigitsValue(body);
        Some(v)
      else None
    else if |s| >= 1 && forall i :: 0 <= i < |s| ==> IsDigit(s[i]) then
      Some(DigitsValue(s))
    else None
  }

  lemma {:induction false} NatTextValue(n: nat)
    ensures DigitsValue(NatText(n)) == n
  {
    if n >= 10 {
      var t := NatText(n);
      assert t[..|t| - 1] == NatText(n / 10);
      NatTextValue(n / 10);
    }
  }

  /** Reading back what `str(i)` prints gives `i`. */
  lemma {:induction false} IntTextRoundTrip(i: int)
    ensures ParseInt(IntText(i)) == Some(i)
  {
    if i < 0 {
      NegativeText(-i);
    } else {
      NatTextRoundTrip(i);
    }
  }

  lemma {:induction false} NatTextRoundTrip(n: nat)
    ensures ParseInt(NatText(n)) == Some(n)
  {
    var t := NatText(n);
    assert IsDigit(t[0]);
    NatTextValue(n);
  }

  lemma {:induction false} NegativeText(n: nat)
    requires n > 0
    ensures ParseInt("-" + NatText(n)) == Some(-(n as int))
  {
    var t := "-" + NatText(n);
    assert t[1..] == NatText(n);
    NatTextValue(n);
  }
}
