/** Turning the replies of the SQL Server Browser broadcast into the list of
    servers offered on the login screen. A reply is a `;`-separated list of
    alternating keys and values; the entry is `ip\instance` for a named
    instance and the bare address for the default one. */
module Discovery {
  import opened Text

  /** `fields[::2]`. */
  function Evens(fields: seq<string>): seq<string> {
    seq((|fields| + 1) / 2, i requires 0 <= i < (|fields| + 1) / 2 => fields[2 * i])
  }

  /** `fields[1::2]`. */
  function Odds(fields: seq<string>): seq<string> {
    seq(|fields| / 2, i requires 0 <= i < |fields| / 2 => fields[2 * i + 1])
  }

  /** `dict(zip(fields[::2], fields[1::2]))` over the reply's fields. */
  function Reply(resp: string): map<string, string> {
    var fields := Split(resp, ';');
    ZipDict(Evens(fields), Odds(fields))
  }

  /** `d.get(k, default)`. */
  function Get(d: map<string, string>, k: string, default: string): string {
    if k in d then d[k] else default
  }

  const DefaultInstance := "MSSQLSERVER"

  function InstanceOf(resp: string): string {
    Get(Reply(resp), "InstanceName", "")
  }

  /** An instance name that is neither empty nor the default instance, in
      any letter case. */
  predicate Named(instance: string) {
    instance != "" && Upper(instance) != DefaultInstance
  }

  /** The list entry for one reply from `ip`. */
  function Entry(ip: string, resp: string): (r: string)
    ensures |ip| <= |r| && r[..|ip|] == ip
    ensures r == ip <==> !Named(InstanceOf(resp))
    ensures r != ip ==> r[|ip|..] == "\\" + InstanceOf(resp)
  {
    var instance := InstanceOf(resp);
    if Named(instance) then ip + "\\" + instance else ip
  }

  /** One entry per reply, in the order the replies arrived. */
  function Instances(responses: seq<(string, string)>): (r: seq<string>)
    ensures |r| == |responses|
    ensures forall i :: 0 <= i < |r| ==> |responses[i].0| <= |r[i]| && r[i][..|responses[i].0|] == responses[i].0
    ensures forall i :: 0 <= i < |r| ==> (r[i] == responses[i].0 <==> !Named(InstanceOf(responses[i].1)))
  {
    seq(|responses|, i requires 0 <= i < |responses| => Entry(responses[i].0, responses[i].1))
  }

  /** Key `k` sits at field `2 * j` and has a value after it. */
  predicate KeyAt(fields: seq<string>, k: string, j: nat) {
    2 * j + 1 < |fields| && fields[2 * j] == k
  }

  predicate HasKey(fields: seq<string>, k: string) {
    exists j: nat :: j < |fields| && KeyAt(fields, k, j)
  }

  /** ... and no later key position holds `k` again. */
  predicate LastKeyAt(fields: seq<string>, k: string, j: nat) {
    KeyAt(fields, k, j) && forall i: nat :: j < i < |fields| ==> !KeyAt(fields, k, i)
  }

  lemma {:induction false} EvensOdds(fields: seq<string>)
    ensures |Odds(fields)| <= |Evens(fields)|
    ensures forall j: nat :: j < |Odds(fields)| ==> Evens(fields)[j] == fields[2 * j] && Odds(fields)[j] == fields[2 * j + 1]
    ensures forall j: nat :: 2 * j + 1 < |fields| ==> j < |Odds(fields)|
  {
  }

  /** What `dict(zip(...))` makes of a reply: a key is present exactly when
      it occupies a key position with a value after it, so an unpaired last
      field is dropped. */
  lemma {:induction false} ReplyKeys(resp: string, k: string)
    ensures k in Reply(resp) <==> HasKey(Split(resp, ';'), k)
  {
    var fields := Split(resp, ';');
    assert Reply(resp) == ZipDict(Evens(fields), Odds(fields));
    PairedKeys(fields, k);
  }

  lemma {:induction false} PairedKeys(fields: seq<string>, k: string)
    ensures k in ZipDict(Evens(fields), Odds(fields)) <==> HasKey(fields, k)
  {
    var ks, vs := Evens(fields), Odds(fields);
    EvensOdds(fields);
    ZipDictKeys(ks, vs);
    if k in ZipDict(ks, vs) {
      var j :| 0 <= j < |ks| && j < |vs| && ks[j] == k;
      assert KeyAt(fields, k, j);
    }
    if exists j: nat :: KeyAt(fields, k, j) {
      var j: nat :| KeyAt(fields, k, j);
      assert j < |vs| && ks[j] == k;
    }
  }

  /** A key's value is the field after its last occurrence in a key
      position. */
  lemma {:induction false} ReplyValue(resp: string, k: string, j: nat)
    requires LastKeyAt(Split(resp, ';'), k, j)
    ensures k in Reply(resp) && Reply(resp)[k] == Split(resp, ';')[2 * j + 1]
  {
    var fields := Split(resp, ';');
    var ks, vs := Evens(fields), Odds(fields);
    EvensOdds(fields);
    assert LastWith(ks, vs, k, j) by {
      forall i | j < i < |ks| && i < |vs| ensures ks[i] != k {
        assert !KeyAt(fields, k, i);
      }
    }
    ZipDictLast(ks, vs, k, j);
  }

  // ---------------------------------------------------------------------
  // Replies built from key/value pairs.

  /** The fields of a reply listing `pairs`: key, value, key, value, ... */
  function Fields(pairs: seq<(string, string)>): (f: seq<string>)
    ensures |f| == 2 * |pairs|
  {
    seq(2 * |pairs|, i requires 0 <= i < 2 * |pairs| => if i % 2 == 0 then pairs[i / 2].0 else pairs[i / 2].1)
  }

  /** The reply text for `pairs`. */
  function Encode(pairs: seq<(string, string)>): string {
    Join(Fields(pairs), ";")
  }

  /** No key or value contains the separator. */
  predicate Clean(pairs: seq<(string, string)>) {
    forall i :: 0 <= i < |pairs| ==> ';' !in pairs[i].0 && ';' !in pairs[i].1
  }

  function Keys(pairs: seq<(string, string)>): seq<string> {
    seq(|pairs|, i requires 0 <= i < |pairs| => pairs[i].0)
  }

  function Values(pairs: seq<(string, string)>): seq<string> {
    seq(|pairs|, i requires 0 <= i < |pairs| => pairs[i].1)
  }

  lemma Halves(j: nat)
    ensures (2 * j) % 2 == 0 && (2 * j) / 2 == j
    ensures (2 * j + 1) % 2 == 1 && (2 * j + 1) / 2 == j
  {
  }

  lemma {:induction false} FieldsHalves(pairs: seq<(string, string)>)
    ensures Evens(Fields(pairs)) == Keys(pairs) && Odds(Fields(pairs)) == Values(pairs)
  {
    var f := Fields(pairs);
    Halves(|pairs|);
    assert |Evens(f)| == |pairs| && |Odds(f)| == |pairs|;
    forall j | 0 <= j < |pairs| ensures Evens(f)[j] == pairs[j].0 && Odds(f)[j] == pairs[j].1 {
      Halves(j);
    }
  }

  /** Parsing an encoded reply gives back the dictionary of its pairs. */
  lemma {:induction false} ReplyOfEncode(pairs: seq<(string, string)>)
    requires Clean(pairs)
    ensures Reply(Encode(pairs)) == ZipDict(Keys(pairs), Values(pairs))
  {
    var f := Fields(pairs);
    FieldsHalves(pairs);
    if |pairs| == 0 {
      assert Encode(pairs) == "";
      assert Split("", ';') == [""];
      assert Evens([""]) == [""] && Odds([""]) == [];
    } else {
      forall i | 0 <= i < |f| ensures ';' !in f[i] {
        assert f[i] == pairs[i / 2].0 || f[i] == pairs[i / 2].1;
      }
      SplitJoin(f, ';');
    }
  }

  /** Round trip: with distinct keys, every pair of an encoded reply is read
      back, and nothing else. */
  lemma {:induction false} EncodeRoundTrip(pairs: seq<(string, string)>)
    requires Clean(pairs) && Distinct(Keys(pairs))
    ensures forall i :: 0 <= i < |pairs| ==> pairs[i].0 in Reply(Encode(pairs)) && Reply(Encode(pairs))[pairs[i].0] == pairs[i].1
    ensures forall k :: k in Reply(Encode(pairs)) ==> exists i :: 0 <= i < |pairs| && pairs[i].0 == k
  {
    var ks, vs := Keys(pairs), Values(pairs);
    ReplyOfEncode(pairs);
    ZipDictKeys(ks, vs);
    forall i | 0 <= i < |pairs| ensures pairs[i].0 in Reply(Encode(pairs)) && Reply(Encode(pairs))[pairs[i].0] == pairs[i].1 {
      ZipDictAt(ks, vs, i);
    }
    forall k | k in Reply(Encode(pairs)) ensures exists i :: 0 <= i < |pairs| && pairs[i].0 == k {
      var i :| 0 <= i < |ks| && i < |vs| && ks[i] == k;
      assert pairs[i].0 == k;
    }
  }

  /** A reply announcing instance `v` yields `ip\v`, unless `v` is empty or
      the default instance, which yields the bare address. */
  lemma {:induction false} EntryOfEncoded(ip: string, pairs: seq<(string, string)>, i: nat)
    requires Clean(pairs) && Distinct(Keys(pairs))
    requires i < |pairs| && pairs[i].0 == "InstanceName"
    ensures Entry(ip, Encode(pairs)) == if Named(pairs[i].1) then ip + "\\" + pairs[i].1 else ip
  {
    EncodeRoundTrip(pairs);
  }

  /** A reply without an instance name yields the bare address. */
  lemma {:induction false} EntryWithoutInstance(ip: string, pairs: seq<(string, string)>)
    requires Clean(pairs)
    requires forall i :: 0 <= i < |pairs| ==> pairs[i].0 != "InstanceName"
    ensures Entry(ip, Encode(pairs)) == ip
  {
    var ks, vs := Keys(pairs), Values(pairs);
    ReplyOfEncode(pairs);
    ZipDictKeys(ks, vs);
  }

  /** Only the instance name matters: two replies with the same keys that
      agree on the value of every `InstanceName` key yield the same entry,
      whatever the server name and the other values are. */
  lemma {:induction false} EntryIgnoresOthers(ip: string, pairs: seq<(string, string)>, pairs': seq<(string, string)>)
    requires Clean(pairs) && Clean(pairs') && Keys(pairs) == Keys(pairs')
    requires forall i :: 0 <= i < |pairs| && pairs[i].0 == "InstanceName" ==> pairs[i].1 == pairs'[i].1
    ensures Entry(ip, Encode(pairs)) == Entry(ip, Encode(pairs'))
  {
    var ks, vs, vs' := Keys(pairs), Values(pairs), Values(pairs');
    ReplyOfEncode(pairs);
    ReplyOfEncode(pairs');
    assert |pairs| == |ks| == |pairs'|;
    forall j | 0 <= j < |ks| && j < |vs| && ks[j] == "InstanceName" ensures vs[j] == vs'[j] {
      assert pairs[j].0 == "InstanceName";
    }
    ZipDictAgree(ks, vs, vs', "InstanceName");
  }
}
