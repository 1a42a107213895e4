/** A constant object literal `{ key: value, ... }` read with `obj[key]`,
    given as its entries in the order they are written. */
module JsObject {
  import opened Wrappers
  import opened JsArray

  type Entries<V> = seq<(string, V)>

  function Keys<V>(t: Entries<V>): seq<string>
  {
    Map(t, (e: (string, V)) => e.0)
  }

  /** `obj[key]`: the value of the entry named `key`, or `undefined`. */
  function Get<V>(t: Entries<V>, key: string): Option<V>
  {
    if t == [] then None
    else if t[0].0 == key then Some(t[0].1)
    else Get(t[1..], key)
  }

  /** `obj[key] ?? fallback` */
  function GetOr<V>(t: Entries<V>, key: string, fallback: V): V
  {
    match Get(t, key)
    case Some(v) => v
    case None => fallback
  }

  /** A key is found exactly when the object has an entry of that name... */
  lemma {:induction false} GetFound<V>(t: Entries<V>, key: string)
    ensures Get(t, key).Some? <==> key in Keys(t)
  {
    if t != [] {
      GetFound(t[1..], key);
      assert Keys(t) == [t[0].0] + Keys(t[1..]);
    }
  }

  /** ...and what it finds is the value of one of its entries... */
  lemma {:induction false} GetEntry<V>(t: Entries<V>, key: string)
    requires Get(t, key).Some?
    ensures exists i :: 0 <= i < |t| && t[i] == (key, Get(t, key).value)
  {
    if t[0].0 != key {
      GetEntry(t[1..], key);
      var i :| 0 <= i < |t[1..]| && t[1..][i] == (key, Get(t, key).value);
      assert t[i + 1] == t[1..][i];
    }
  }

  /** ...namely that of the entry of that name, when names are not
      repeated. */
  lemma {:induction false} GetAt<V>(t: Entries<V>, i: nat)
    requires i < |t| && NoDup(Keys(t))
    ensures Get(t, t[i].0) == Some(t[i].1)
  {
    if i > 0 {
      assert Keys(t)[0] != Keys(t)[i];
      assert NoDup(Keys(t[1..])) by {
        assert Keys(t[1..]) == Keys(t)[1..];
      }
      GetAt(t[1..], i - 1);
    }
  }

  /** With a fallback, every result is an entry's value or the fallback. */
  lemma GetOrValues<V>(t: Entries<V>, key: string, fallback: V, ok: V -> bool)
    requires ok(fallback)
    requires forall i :: 0 <= i < |t| ==> ok(t[i].1)
    ensures ok(GetOr(t, key, fallback))
  {
    if Get(t, key).Some? {
      GetEntry(t, key);
    }
  }

  /** Changing the value of one entry changes nothing for other keys. */
  lemma {:induction false} GetUpdate<V>(t: Entries<V>, i: nat, v: V, key: string)
    requires i < |t| && key != t[i].0
    ensures Get(t[i := (t[i].0, v)], key) == Get(t, key)
  {
    var u := t[i := (t[i].0, v)];
    if t[0].0 != key {
      if i == 0 {
        assert u[1..] == t[1..];
      } else {
        assert u[1..] == t[1..][i - 1 := (t[i].0, v)];
        GetUpdate(t[1..], i - 1, v, key);
      }
    }
  }

  /** Keys are distinct when each key's shape leads back to its own
      position. */
  lemma DistinctByShape<V>(t: Entries<V>, position: map<int, int>)
    requires forall i :: 0 <= i < |t| ==> Shape(t[i].0) in position && position[Shape(t[i].0)] == i
    ensures NoDup(Keys(t))
  {
    forall i, j | 0 <= i < j < |Keys(t)| ensures Keys(t)[i] != Keys(t)[j] {
      assert Keys(t)[i] == t[i].0 && Keys(t)[j] == t[j].0;
    }
  }

  /** A key's length and first character, as one number. */
  function Shape(key: string): int
  {
    if key == [] then 0 else |key| * 0x1_0000 + key[0] as int
  }
}
