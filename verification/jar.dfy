/**
 * The cookie jar: an insertion-ordered dictionary from cookie name to what
 * was stored under it, either a plain value string or a built cookie. It is
 * a dictionary only: an assignment without a key is a usage error.
 */
module CookieJar {
  import opened Wrappers
  import OrderedDict
  import Cookies

  /** What the jar holds under a name: the string assigned, or a cookie object. */
  datatype Entry = Raw(text: string) | Baked(cookie: Cookies.Cookie)

  datatype Jar = Jar(entries: seq<(string, Entry)>)

  predicate Valid(j: Jar) {
    OrderedDict.Unique(j.entries)
  }

  /** The exception thrown for list-style use. */
  datatype JarError = UsageError(message: string)

  const NotAList := UsageError("Object is a dictionary, not a list")

  /** new Jar($cookies): the array is stored as given. */
  function New(cookies: seq<(string, Entry)>): (j: Jar)
    ensures Valid(j)
    ensures forall i :: 0 <= i < |j.entries| ==> j.entries[i] in cookies
  {
    FromPairsKeepsEntries(cookies);
    Jar(OrderedDict.FromPairs(cookies))
  }

  lemma {:induction false} FromPairsKeepsEntries(ps: seq<(string, Entry)>)
    ensures forall i :: 0 <= i < |OrderedDict.FromPairs(ps)| ==> OrderedDict.FromPairs(ps)[i] in ps
  {
    if ps != [] {
      var init := ps[..|ps| - 1];
      FromPairsKeepsEntries(init);
      forall e | e in init
        ensures e in ps
      {
        var i :| 0 <= i < |init| && init[i] == e;
        assert ps[i] == e;
      }
    }
  }

  /** offsetGet(): the stored entry, or nothing (PHP null) for an absent name. */
  function Get(j: Jar, name: string): (r: Option<Entry>)
    ensures r.None? <==> forall i :: 0 <= i < |j.entries| ==> j.entries[i].0 != name
    ensures r.Some? ==> (name, r.value) in j.entries
  {
    OrderedDict.KeysAt(j.entries);
    OrderedDict.Get(j.entries, name)
  }

  /** offsetExists(): isset($jar[$name]). */
  function Has(j: Jar, name: string): (b: bool)
    ensures b <==> Get(j, name).Some?
  {
    name in OrderedDict.Keys(j.entries)
  }

  /** offsetSet(): `$jar[$name] = $e`, or `$jar[] = $e` when no name is given. */
  function Set(j: Jar, name: Option<string>, e: Entry): (r: Result<Jar, JarError>)
    requires Valid(j)
    ensures name.None? <==> r == Err(NotAList)
    ensures r.Ok? ==> Valid(r.value) && Get(r.value, name.value) == Some(e)
    ensures r.Ok? ==> forall k :: k != name.value ==> Get(r.value, k) == Get(j, k)
  {
    match name
    case None => Err(NotAList)
    case Some(k) => Ok(Jar(OrderedDict.Put(j.entries, k, e)))
  }

  /** offsetUnset(): removes the name, keeping the order of the rest. */
  function Unset(j: Jar, name: string): (r: Jar)
    requires Valid(j)
    ensures Valid(r)
    ensures Get(r, name).None? && !Has(r, name)
    ensures forall k :: k != name ==> Get(r, k) == Get(j, k)
    ensures |r.entries| <= |j.entries|
    ensures !Has(j, name) ==> r == j
    ensures forall i :: 0 <= i < |j.entries| && j.entries[i].0 == name ==>
              r.entries == j.entries[..i] + j.entries[i + 1..]
  {
    OrderedDict.RemoveKeepsOrder(j.entries, name);
    Jar(OrderedDict.Remove(j.entries, name))
  }

  /** getIterator(): name and entry pairs in insertion order. */
  function Items(j: Jar): (r: seq<(string, Entry)>)
    requires Valid(j)
    ensures |r| == |j.entries|
    ensures forall i :: 0 <= i < |r| ==> Get(j, r[i].0) == Some(r[i].1)
    ensures forall i, i' :: 0 <= i < i' < |r| ==> r[i].0 != r[i'].0
  {
    OrderedDict.GetEntries(j.entries);
    OrderedDict.UniqueAt(j.entries);
    j.entries
  }

  /** Keyed assignments one after another, stopping at the first error. */
  function SetEach(j: Jar, ps: seq<(string, Entry)>): (r: Result<Jar, JarError>)
    requires Valid(j)
    ensures r.Ok?
    decreases |ps|
  {
    if ps == [] then Ok(j)
    else
      match Set(j, Some(ps[0].0), ps[0].1)
      case Ok(next) => SetEach(next, ps[1..])
      case Err(e) => Err(e)
  }

  /** Assigning onto a dictionary in order, as a plain fold. */
  function PutEach(d: seq<(string, Entry)>, ps: seq<(string, Entry)>): (r: seq<(string, Entry)>)
    requires OrderedDict.Unique(d)
    ensures OrderedDict.Unique(r)
    decreases |ps|
  {
    if ps == [] then d else PutEach(OrderedDict.Put(d, ps[0].0, ps[0].1), ps[1..])
  }

  lemma {:induction false} PutEachSnoc(d: seq<(string, Entry)>, ps: seq<(string, Entry)>, e: (string, Entry))
    requires OrderedDict.Unique(d)
    ensures PutEach(d, ps + [e]) == OrderedDict.Put(PutEach(d, ps), e.0, e.1)
    decreases |ps|
  {
    if ps != [] {
      assert (ps + [e])[1..] == ps[1..] + [e];
      PutEachSnoc(OrderedDict.Put(d, ps[0].0, ps[0].1), ps[1..], e);
    } else {
      assert ([] + [e])[1..] == [];
    }
  }

  /** A literal array is the same as its pairs assigned one after another. */
  lemma {:induction false} FromPairsIsPutEach(ps: seq<(string, Entry)>)
    ensures OrderedDict.FromPairs(ps) == PutEach([], ps)
  {
    if ps != [] {
      var init := ps[..|ps| - 1];
      assert init + [ps[|ps| - 1]] == ps;
      FromPairsIsPutEach(init);
      PutEachSnoc([], init, ps[|ps| - 1]);
    }
  }

  lemma {:induction false} SetEachIsPutEach(j: Jar, ps: seq<(string, Entry)>)
    requires Valid(j)
    ensures SetEach(j, ps) == Ok(Jar(PutEach(j.entries, ps)))
    decreases |ps|
  {
    if ps != [] {
      SetEachIsPutEach(Jar(OrderedDict.Put(j.entries, ps[0].0, ps[0].1)), ps[1..]);
    }
  }

  /** Filling an empty jar key by key gives the jar constructed from the same array. */
  lemma SetterMatchesConstructor(ps: seq<(string, Entry)>)
    ensures SetEach(New([]), ps) == Ok(New(ps))
  {
    SetEachIsPutEach(New([]), ps);
    FromPairsIsPutEach(ps);
  }

  /** Iterating a jar built from an array with distinct names yields that array. */
  lemma IterationYieldsPairs(ps: seq<(string, Entry)>)
    requires OrderedDict.Unique(ps)
    ensures Items(New(ps)) == ps
  {
    OrderedDict.FromDistinctPairs(ps);
  }

  /** After unset the name reads as empty and isset is false; nothing else changes. */
  lemma UnsetForgets(j: Jar, name: string, e: Entry)
    requires Valid(j)
    ensures Set(j, Some(name), e).Ok?
    ensures Get(Unset(Set(j, Some(name), e).value, name), name) == None
    ensures !Has(Unset(Set(j, Some(name), e).value, name), name)
  {
  }

  /** A keyless append always fails with the dictionary message. */
  lemma KeylessAppendFails(j: Jar, e: Entry)
    requires Valid(j)
    ensures Set(j, None, e).Err?
    ensures Set(j, None, e).error.message == "Object is a dictionary, not a list"
  {
  }
}
