/**
 * An insertion-ordered dictionary with string keys: the behaviour of a PHP
 * array used as a map. Assigning to an existing key replaces its value in
 * place; assigning to a new key appends; unsetting removes the entry and
 * keeps the order of the rest.
 */
module OrderedDict {
  import opened Wrappers

  function Keys<V>(d: seq<(string, V)>): (ks: seq<string>)
    ensures |ks| == |d|
  {
    if d == [] then [] else [d[0].0] + Keys(d[1..])
  }

  /** No key occurs twice: the invariant every PHP array keeps. */
  predicate Unique<V>(d: seq<(string, V)>) {
    d == [] || (d[0].0 !in Keys(d[1..]) && Unique(d[1..]))
  }

  function Get<V>(d: seq<(string, V)>, k: string): (r: Option<V>)
    ensures r.Some? <==> k in Keys(d)
    ensures r.Some? ==> (k, r.value) in d
  {
    if d == [] then None
    else if d[0].0 == k then Some(d[0].1)
    else Get(d[1..], k)
  }

  /** In a dictionary, the value stored beside a key is what lookup returns. */
  lemma {:induction false} GetEntry<V>(d: seq<(string, V)>, i: nat)
    requires Unique(d) && i < |d|
    ensures Get(d, d[i].0) == Some(d[i].1)
  {
    if i > 0 {
      KeysCons(d[0], d[1..]);
      assert d[i] == d[1..][i - 1];
      assert d[i].0 in Keys(d[1..]) by {
        GetEntry(d[1..], i - 1);
      }
      GetEntry(d[1..], i - 1);
    }
  }

  /** Every entry of a dictionary is what lookup returns for its key. */
  lemma GetEntries<V>(d: seq<(string, V)>)
    requires Unique(d)
    ensures forall i :: 0 <= i < |d| ==> Get(d, d[i].0) == Some(d[i].1)
  {
    forall i | 0 <= i < |d|
      ensures Get(d, d[i].0) == Some(d[i].1)
    {
      GetEntry(d, i);
    }
  }

  /** Distinct keys, position by position. */
  lemma {:induction false} UniqueAt<V>(d: seq<(string, V)>)
    requires Unique(d)
    ensures forall i, i' :: 0 <= i < i' < |d| ==> d[i].0 != d[i'].0
  {
    if d != [] {
      var tail := d[1..];
      UniqueAt(tail);
      KeysAt(tail);
      forall i, i' | 0 <= i < i' < |d|
        ensures d[i].0 != d[i'].0
      {
        assert d[i'] == tail[i' - 1];
        if i > 0 {
          assert d[i] == tail[i - 1];
        }
      }
    }
  }

  /** The keys, position by position. */
  lemma {:induction false} KeysAt<V>(d: seq<(string, V)>)
    ensures forall i :: 0 <= i < |d| ==> Keys(d)[i] == d[i].0
  {
    if d != [] {
      KeysAt(d[1..]);
      KeysCons(d[0], d[1..]);
      assert d == [d[0]] + d[1..];
    }
  }

  lemma KeysCons<V>(e: (string, V), d: seq<(string, V)>)
    ensures Keys([e] + d) == [e.0] + Keys(d)
  {
    assert ([e] + d)[1..] == d;
  }

  /** `$d[$k] = $v`. */
  function Put<V>(d: seq<(string, V)>, k: string, v: V): (r: seq<(string, V)>)
    requires Unique(d)
    ensures Unique(r)
    ensures Keys(r) == if k in Keys(d) then Keys(d) else Keys(d) + [k]
    ensures Get(r, k) == Some(v)
    ensures forall k' :: k' != k ==> Get(r, k') == Get(d, k')
    ensures forall i :: 0 <= i < |r| ==> r[i] == (k, v) || r[i] in d
  {
    if d == [] then
      [(k, v)]
    else if d[0].0 == k then
      KeysCons((k, v), d[1..]);
      [(k, v)] + d[1..]
    else
      var rest := Put(d[1..], k, v);
      PutBehindKeys(d, k, rest);
      PutBehindGet(d, k, v, rest);
      PutBehindEntries(d, (k, v), rest);
      [d[0]] + rest
  }

  /** Assigning past the first entry keeps the first key in front of the rest. */
  lemma PutBehindKeys<V>(d: seq<(string, V)>, k: string, rest: seq<(string, V)>)
    requires Unique(d) && d != [] && d[0].0 != k
    requires Unique(rest)
    requires Keys(rest) == if k in Keys(d[1..]) then Keys(d[1..]) else Keys(d[1..]) + [k]
    ensures Unique([d[0]] + rest)
    ensures Keys([d[0]] + rest) == if k in Keys(d) then Keys(d) else Keys(d) + [k]
  {
    KeysCons(d[0], rest);
    KeysCons(d[0], d[1..]);
    assert d == [d[0]] + d[1..];
    assert ([d[0]] + rest)[1..] == rest;
  }

  /** Lookups past the first entry are those of the rest. */
  lemma PutBehindGet<V>(d: seq<(string, V)>, k: string, v: V, rest: seq<(string, V)>)
    requires d != [] && d[0].0 != k
    requires Get(rest, k) == Some(v)
    requires forall k' :: k' != k ==> Get(rest, k') == Get(d[1..], k')
    ensures Get([d[0]] + rest, k) == Some(v)
    ensures forall k' :: k' != k ==> Get([d[0]] + rest, k') == Get(d, k')
  {
    assert ([d[0]] + rest)[1..] == rest;
  }

  /** Every entry past the first comes from the rest. */
  lemma PutBehindEntries<V>(d: seq<(string, V)>, e: (string, V), rest: seq<(string, V)>)
    requires d != []
    requires forall i :: 0 <= i < |rest| ==> rest[i] == e || rest[i] in d[1..]
    ensures forall i :: 0 <= i < |[d[0]] + rest| ==> ([d[0]] + rest)[i] == e || ([d[0]] + rest)[i] in d
  {
    var r := [d[0]] + rest;
    forall i | 0 <= i < |r|
      ensures r[i] == e || r[i] in d
    {
      if i > 0 {
        assert r[i] == rest[i - 1];
      }
    }
  }

  /** `unset($d[$k])`. */
  function Remove<V>(d: seq<(string, V)>, k: string): (r: seq<(string, V)>)
    requires Unique(d)
    ensures Unique(r)
    ensures k !in Keys(r)
    ensures forall k' :: k' in Keys(r) ==> k' in Keys(d)
    ensures forall k' :: k' != k ==> Get(r, k') == Get(d, k')
    ensures |r| <= |d|
  {
    if d == [] then []
    else if d[0].0 == k then Remove(d[1..], k)
    else
      var rest := Remove(d[1..], k);
      KeysCons(d[0], rest);
      assert ([d[0]] + rest)[1..] == rest;
      [d[0]] + rest
  }

  /** Unsetting an absent key changes nothing. */
  lemma {:induction false} RemoveAbsent<V>(d: seq<(string, V)>, k: string)
    requires Unique(d) && k !in Keys(d)
    ensures Remove(d, k) == d
  {
    if d != [] {
      KeysCons(d[0], d[1..]);
      assert d == [d[0]] + d[1..];
      RemoveAbsent(d[1..], k);
    }
  }

  /** Unsetting a key that is not the first leaves the first entry in front. */
  lemma RemoveBehind<V>(d: seq<(string, V)>, k: string, rest: seq<(string, V)>)
    requires Unique(d) && d != [] && d[0].0 != k && Remove(d[1..], k) == rest
    ensures Remove(d, k) == [d[0]] + rest
  {
  }

  /** Deleting position i > 0 keeps the first entry in front of the shorter tail. */
  lemma SpliceBehind<V>(d: seq<(string, V)>, i: nat)
    requires 0 < i < |d|
    ensures [d[0]] + (d[1..][..i - 1] + d[1..][i..]) == d[..i] + d[i + 1..]
  {
    assert d[1..][..i - 1] == d[1..i];
    assert d[1..][i..] == d[i + 1..];
  }

  /** Unsetting the key at position i deletes that entry and keeps the rest in order. */
  lemma {:induction false} RemoveAt<V>(d: seq<(string, V)>, k: string, i: nat)
    requires Unique(d) && i < |d| && d[i].0 == k
    ensures Remove(d, k) == d[..i] + d[i + 1..]
  {
    var tail := d[1..];
    if i == 0 {
      RemoveAbsent(tail, k);
      assert d[..0] + d[1..] == tail;
    } else {
      assert d[0].0 != k by {
        KeysAt(tail);
        assert tail[i - 1] == d[i];
      }
      RemoveAt(tail, k, i - 1);
      RemoveBehind(d, k, tail[..i - 1] + tail[i..]);
      SpliceBehind(d, i);
    }
  }

  /**
   * Unsetting deletes exactly the entry of the key and keeps the rest in
   * their order; unsetting an absent key changes nothing.
   */
  lemma RemoveKeepsOrder<V>(d: seq<(string, V)>, k: string)
    requires Unique(d)
    ensures k !in Keys(d) ==> Remove(d, k) == d
    ensures forall i :: 0 <= i < |d| && d[i].0 == k ==> Remove(d, k) == d[..i] + d[i + 1..]
  {
    if k !in Keys(d) {
      RemoveAbsent(d, k);
    }
    forall i | 0 <= i < |d| && d[i].0 == k
      ensures Remove(d, k) == d[..i] + d[i + 1..]
    {
      RemoveAt(d, k, i);
    }
  }

  /** A PHP array literal: pairs assigned one after another. */
  function FromPairs<V>(ps: seq<(string, V)>): (r: seq<(string, V)>)
    ensures Unique(r)
  {
    if ps == [] then [] else Put(FromPairs(ps[..|ps| - 1]), ps[|ps| - 1].0, ps[|ps| - 1].1)
  }

  /** Assigning a key not yet present appends the entry. */
  lemma {:induction false} PutNewKey<V>(d: seq<(string, V)>, k: string, v: V)
    requires Unique(d) && k !in Keys(d)
    ensures Put(d, k, v) == d + [(k, v)]
  {
    if d != [] {
      KeysCons(d[0], d[1..]);
      assert d == [d[0]] + d[1..];
      PutNewKey(d[1..], k, v);
    }
  }

  lemma {:induction false} KeysAppend<V>(d: seq<(string, V)>, e: (string, V))
    ensures Keys(d + [e]) == Keys(d) + [e.0]
  {
    if d != [] {
      assert (d + [e])[1..] == d[1..] + [e];
      KeysAppend(d[1..], e);
    }
  }

  /** Unique(d + [e]) holds exactly when d is unique and e's key is new. */
  lemma {:induction false} UniqueAppend<V>(d: seq<(string, V)>, e: (string, V))
    ensures Unique(d + [e]) <==> Unique(d) && e.0 !in Keys(d)
  {
    if d != [] {
      assert (d + [e])[1..] == d[1..] + [e];
      KeysAppend(d[1..], e);
      UniqueAppend(d[1..], e);
      KeysCons(d[0], d[1..]);
      assert d == [d[0]] + d[1..];
    }
  }

  /** A literal whose keys are distinct is stored exactly as written, in order. */
  lemma {:induction false} FromDistinctPairs<V>(ps: seq<(string, V)>)
    requires Unique(ps)
    ensures FromPairs(ps) == ps
  {
    if ps != [] {
      var init := ps[..|ps| - 1];
      var last := ps[|ps| - 1];
      assert init + [last] == ps;
      UniqueAppend(init, last);
      FromDistinctPairs(init);
      PutNewKey(init, last.0, last.1);
    }
  }
}
