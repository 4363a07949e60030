/** The JSON-like values a CloudFormation fragment is made of: Python dicts,
    lists, strings, numbers, booleans and None, as `json.loads` produces them. */
module Json {

  /** A dict is kept as its (key, value) entries in insertion order, the
      order in which Python iterates over it. */
  type Members = seq<(string, Json)>

  datatype Json =
    | JObj(members: Members)
    | JArr(items: seq<Json>)
    | JStr(str: string)
    | JNum(num: int)
    | JBool(b: bool)
    | JNull

  /** The keys of a dict, in iteration order. */
  function Keys(ms: Members): seq<string>
  {
    seq(|ms|, i requires 0 <= i < |ms| => ms[i].0)
  }

  /** Python's `key in d` for a dict `d`. */
  predicate HasKey(ms: Members, key: string)
  {
    key in Keys(ms)
  }

  /** `key in d` holds exactly when some entry of the dict carries the key. */
  lemma HasKeyIff(ms: Members, key: string)
    ensures HasKey(ms, key) <==> exists i :: 0 <= i < |ms| && ms[i].0 == key
  {
    if HasKey(ms, key) {
      var i :| 0 <= i < |ms| && Keys(ms)[i] == key;
      assert ms[i].0 == key;
    }
    if exists i :: 0 <= i < |ms| && ms[i].0 == key {
      var i :| 0 <= i < |ms| && ms[i].0 == key;
      assert Keys(ms)[i] == key;
    }
  }

  /** A Python dict never holds the same key twice. */
  ghost predicate DistinctKeys(ms: Members)
  {
    forall i, j :: 0 <= i < j < |ms| ==> ms[i].0 != ms[j].0
  }

  /** Every dict anywhere inside the value has distinct keys. */
  ghost predicate WellFormed(t: Json)
    decreases t
  {
    match t
    case JObj(ms) => DistinctKeys(ms) && MembersWellFormed(ms)
    case JArr(xs) => ItemsWellFormed(xs)
    case _ => true
  }

  ghost predicate MembersWellFormed(ms: Members)
    decreases ms
  {
    if ms == [] then true
    else
      var last := ms[|ms| - 1];
      assert last.1 < last;
      MembersWellFormed(ms[..|ms| - 1]) && WellFormed(last.1)
  }

  ghost predicate ItemsWellFormed(xs: seq<Json>)
    decreases xs
  {
    xs == [] || (ItemsWellFormed(xs[..|xs| - 1]) && WellFormed(xs[|xs| - 1]))
  }

  /** Where a dict holds `key`: the position of its first entry with that
      key (the only one, in a dict). */
  function IndexOf(ms: Members, key: string): (i: nat)
    requires HasKey(ms, key)
    ensures i < |ms| && ms[i].0 == key
    ensures forall j :: 0 <= j < i ==> ms[j].0 != key
  {
    if ms[0].0 == key then 0
    else
      assert Keys(ms[1..]) == Keys(ms)[1..];
      1 + IndexOf(ms[1..], key)
  }

  /** Python's `d[key]`, for a key the dict holds. */
  function Get(ms: Members, key: string): (v: Json)
    requires HasKey(ms, key)
    ensures (key, v) in ms
    ensures DistinctKeys(ms) ==> forall i :: 0 <= i < |ms| && ms[i].0 == key ==> ms[i].1 == v
  {
    ms[IndexOf(ms, key)].1
  }

  /** Python's `del d[key]`: the dict without its entry for `key`. */
  function Remove(ms: Members, key: string): (r: Members)
    ensures !HasKey(r, key)
    ensures !HasKey(ms, key) ==> r == ms
  {
    if ms == [] then []
    else
      var last := ms[|ms| - 1];
      var init := Remove(ms[..|ms| - 1], key);
      assert Keys(ms[..|ms| - 1]) == Keys(ms)[..|ms| - 1];
      assert ms[..|ms| - 1] + [last] == ms;
      if last.0 == key then
        assert Keys(ms)[|ms| - 1] == key;
        init
      else
        assert Keys(init + [last]) == Keys(init) + [last.0];
        init + [last]
  }

  /** The entries left by `Remove` are exactly those with another key. */
  lemma {:induction false} RemoveEntries(ms: Members, key: string)
    ensures forall e :: e in Remove(ms, key) <==> e in ms && e.0 != key
    decreases |ms|
  {
    if ms != [] {
      var init, last := ms[..|ms| - 1], ms[|ms| - 1];
      RemoveEntries(init, key);
      RemoveLast(ms, key);
      FrontLast(ms);
      assert forall e :: e in ms <==> e in init || e == last;
    }
  }

  /** `Remove` looks at the last entry and then at the ones before it. */
  lemma RemoveLast(ms: Members, key: string)
    requires ms != []
    ensures Remove(ms, key) ==
      if ms[|ms| - 1].0 == key then Remove(ms[..|ms| - 1], key)
      else Remove(ms[..|ms| - 1], key) + [ms[|ms| - 1]]
  {
  }

  /** In a dict, no entry other than entry `i` has its key. */
  lemma KeyOnlyAt(ms: Members, i: nat)
    requires DistinctKeys(ms) && i < |ms|
    ensures !HasKey(ms[..i], ms[i].0) && !HasKey(ms[i + 1..], ms[i].0)
  {
    var prefix, suffix := ms[..i], ms[i + 1..];
    assert forall j :: 0 <= j < |prefix| ==> Keys(prefix)[j] == ms[j].0;
    assert forall j :: 0 <= j < |suffix| ==> Keys(suffix)[j] == suffix[j].0 && suffix[j] == ms[i + 1 + j];
  }

  /** A non-empty sequence is its front followed by its last element. */
  lemma FrontLast<T>(s: seq<T>)
    requires s != []
    ensures s[..|s| - 1] + [s[|s| - 1]] == s
  {
  }

  /** A sequence is what comes before position `i`, the element there, and what follows. */
  lemma AroundIndex<T>(s: seq<T>, i: nat)
    requires i < |s|
    ensures s == s[..i] + [s[i]] + s[i + 1..]
  {
  }

  /** Appending to a non-empty `b` is appending its front, then its last element. */
  lemma AppendFrontLast<T>(x: seq<T>, b: seq<T>)
    requires b != []
    ensures x + b == (x + b[..|b| - 1]) + [b[|b| - 1]]
  {
  }

  /** An entry with another key survives `Remove` as the last entry. */
  lemma RemoveSnoc(front: Members, last: (string, Json), key: string)
    requires last.0 != key
    ensures Remove(front + [last], key) == Remove(front, key) + [last]
  {
    var ms := front + [last];
    assert ms[..|ms| - 1] == front && ms[|ms| - 1] == last;
    RemoveLast(ms, key);
  }

  /** An entry with the key is dropped by `Remove`. */
  lemma RemoveSnocKey(front: Members, last: (string, Json))
    ensures Remove(front + [last], last.0) == Remove(front, last.0)
  {
    var ms := front + [last];
    assert ms[..|ms| - 1] == front && ms[|ms| - 1] == last;
    RemoveLast(ms, last.0);
  }

  /** Removing a key that only entry `e` carries takes out just that entry. */
  lemma {:induction false} RemoveSingle(a: Members, e: (string, Json), b: Members)
    requires !HasKey(a, e.0) && !HasKey(b, e.0)
    ensures Remove(a + [e] + b, e.0) == a + b
    decreases |b|
  {
    if b == [] {
      assert a + [e] + b == a + [e];
      RemoveSnocKey(a, e);
    } else {
      var init, last := b[..|b| - 1], b[|b| - 1];
      assert Keys(init) == Keys(b)[..|b| - 1];
      assert last.0 == Keys(b)[|b| - 1] != e.0;
      RemoveSingle(a, e, init);
      AppendFrontLast(a + [e], b);
      AppendFrontLast(a, b);
      RemoveSnoc(a + [e] + init, last, e.0);
    }
  }

  /** Deleting the key of entry `i` of a dict removes that one entry and
      keeps every other entry, in order. */
  lemma RemoveAt(ms: Members, i: nat)
    requires DistinctKeys(ms) && i < |ms|
    ensures Remove(ms, ms[i].0) == ms[..i] + ms[i + 1..]
  {
    KeyOnlyAt(ms, i);
    AroundIndex(ms, i);
    RemoveSingle(ms[..i], ms[i], ms[i + 1..]);
  }

  /** Deleting a key leaves exactly the other keys. */
  lemma RemoveKeys(ms: Members, key: string)
    ensures forall k :: k in Keys(Remove(ms, key)) <==> k in Keys(ms) && k != key
  {
    var r := Remove(ms, key);
    RemoveEntries(ms, key);
    forall k
      ensures k in Keys(r) <==> k in Keys(ms) && k != key
    {
      if k in Keys(r) {
        var i :| 0 <= i < |r| && r[i].0 == k;
        assert r[i] in ms;
        var j :| 0 <= j < |ms| && ms[j] == r[i];
        assert Keys(ms)[j] == k;
      }
      if k in Keys(ms) && k != key {
        var j :| 0 <= j < |ms| && Keys(ms)[j] == k;
        assert ms[j] in r;
        var i :| 0 <= i < |r| && r[i] == ms[j];
        assert Keys(r)[i] == k;
      }
    }
  }

  /** Two dicts with the same keys in the same order hold each key at the
      same position, and one has distinct keys iff the other does. */
  lemma SameKeys(ms: Members, ms': Members)
    requires Keys(ms) == Keys(ms')
    ensures |ms| == |ms'| && forall i :: 0 <= i < |ms| ==> ms[i].0 == ms'[i].0
    ensures DistinctKeys(ms) <==> DistinctKeys(ms')
  {
    assert forall i :: 0 <= i < |ms| ==> ms[i].0 == Keys(ms)[i] == Keys(ms')[i] == ms'[i].0;
  }

  /** `if key in d: del d[key]` on a dict `w` laid out like the dict `ms`:
      the entry at the position where `ms` holds the key goes, the others
      stay in order. */
  lemma DeleteFromSameKeys(ms: Members, w: Members, key: string)
    requires DistinctKeys(ms) && Keys(w) == Keys(ms)
    ensures DistinctKeys(w)
    ensures HasKey(ms, key) ==>
      var i := IndexOf(ms, key);
      (if HasKey(w, key) then Remove(w, key) else w) == w[..i] + w[i + 1..]
    ensures !HasKey(ms, key) ==> (if HasKey(w, key) then Remove(w, key) else w) == w
  {
    SameKeys(ms, w);
    if HasKey(ms, key) {
      var i := IndexOf(ms, key);
      assert w[i].0 == key;
      RemoveAt(w, i);
    }
  }

  /** Removing an entry keeps the keys distinct. */
  lemma {:induction false} RemoveKeepsDistinct(ms: Members, key: string)
    requires DistinctKeys(ms)
    ensures DistinctKeys(Remove(ms, key))
  {
    if HasKey(ms, key) {
      var i :| 0 <= i < |ms| && Keys(ms)[i] == key;
      RemoveAt(ms, i);
    }
  }
}
