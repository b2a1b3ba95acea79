/** A plain JavaScript object as the handlers and pages use it: string
    keys in insertion order, each mapped to a value.  `obj[key]` reads,
    `obj[key] = v` and `{...obj, [key]: v}` write one key in place or
    append it, `delete obj[key]` removes it. */
module Objects {
  import opened Wrappers

  type Object<V> = seq<(string, V)>

  /** Object keys are unique. */
  predicate UniqueKeys<V>(ps: seq<(string, V)>)
  {
    forall i, j :: 0 <= i < j < |ps| ==> ps[i].0 != ps[j].0
  }

  /** The keys of the object. */
  function Keys<V>(ps: seq<(string, V)>): set<string>
  {
    set i | 0 <= i < |ps| :: ps[i].0
  }

  lemma KeysCons<V>(e: (string, V), ps: seq<(string, V)>)
    ensures Keys([e] + ps) == {e.0} + Keys(ps)
  {
    var r := [e] + ps;
    assert forall i :: 0 < i < |r| ==> r[i] == ps[i - 1];
    assert r[0] == e;
    forall k | k in Keys(ps) ensures k in Keys(r) {
      var i :| 0 <= i < |ps| && ps[i].0 == k;
      assert r[i + 1] == ps[i];
    }
  }

  /** `obj[key]`, reading the first entry with that key. */
  function Lookup<V>(ps: seq<(string, V)>, key: string): (r: Option<V>)
    ensures r.None? <==> key !in Keys(ps)
    ensures r.Some? ==> exists i :: 0 <= i < |ps| && ps[i] == (key, r.value)
  {
    if |ps| == 0 then None
    else if ps[0].0 == key then Some(ps[0].1)
    else
      var r := Lookup(ps[1..], key);
      assert Keys(ps) == {ps[0].0} + Keys(ps[1..]) by {
        assert forall i :: 0 < i < |ps| ==> ps[i] == ps[1..][i - 1];
      }
      assert r.Some? ==> exists i :: 0 <= i < |ps| && ps[i] == (key, r.value) by {
        if r.Some? {
          var i :| 0 <= i < |ps[1..]| && ps[1..][i] == (key, r.value);
          assert ps[i + 1] == (key, r.value);
        }
      }
      r
  }

  /** `delete obj[key]`. */
  function Delete<V>(ps: seq<(string, V)>, key: string): (r: seq<(string, V)>)
    ensures key !in Keys(r)
    ensures forall i :: 0 <= i < |r| ==> r[i] in ps
    ensures key !in Keys(ps) ==> r == ps
  {
    if |ps| == 0 then []
    else
      var rest := Delete(ps[1..], key);
      assert key !in Keys(ps) ==> key !in Keys(ps[1..]) by {
        assert forall i :: 0 <= i < |ps[1..]| ==> ps[1..][i] == ps[i + 1];
      }
      if ps[0].0 == key then rest else [ps[0]] + rest
  }

  /** `obj[key] = value`: replaces the entry in place, or appends it. */
  function Put<V>(ps: seq<(string, V)>, key: string, value: V): (r: seq<(string, V)>)
    ensures Lookup(r, key) == Some(value)
    ensures key !in Keys(ps) ==> r == ps + [(key, value)]
  {
    if |ps| == 0 then [(key, value)]
    else if ps[0].0 == key then [(key, value)] + ps[1..]
    else
      var rest := Put(ps[1..], key, value);
      assert key !in Keys(ps) ==> key !in Keys(ps[1..]) by {
        assert forall i :: 0 <= i < |ps[1..]| ==> ps[1..][i] == ps[i + 1];
      }
      [ps[0]] + rest
  }

  /** Writing a key adds it to the keys, and grows the object only when
      the key is new. */
  lemma {:induction false} PutKeys<V>(ps: seq<(string, V)>, key: string, value: V)
    ensures Keys(Put(ps, key, value)) == Keys(ps) + {key}
    ensures |Put(ps, key, value)| == if key in Keys(ps) then |ps| else |ps| + 1
    decreases |ps|
  {
    if |ps| > 0 {
      KeysCons(ps[0], ps[1..]);
      assert ps == [ps[0]] + ps[1..];
      if ps[0].0 == key {
        KeysCons((key, value), ps[1..]);
      } else {
        PutKeys(ps[1..], key, value);
        KeysCons(ps[0], Put(ps[1..], key, value));
      }
    }
  }

  /** Writing a key leaves every entry of another key where it was. */
  lemma {:induction false} PutKeepsOthers<V>(ps: seq<(string, V)>, key: string, value: V)
    ensures |Put(ps, key, value)| >= |ps|
    ensures forall i :: 0 <= i < |ps| && ps[i].0 != key ==> Put(ps, key, value)[i] == ps[i]
    decreases |ps|
  {
    if |ps| > 0 && ps[0].0 != key {
      var rest := Put(ps[1..], key, value);
      PutKeepsOthers(ps[1..], key, value);
      forall i | 0 <= i < |ps| && ps[i].0 != key ensures Put(ps, key, value)[i] == ps[i] {
        if i > 0 { assert ps[1..][i - 1] == ps[i]; }
      }
    }
  }

  /** An object has unique keys exactly when its first key is not among
      the rest and the rest have unique keys. */
  lemma UniqueCons<V>(e: (string, V), ps: seq<(string, V)>)
    ensures UniqueKeys([e] + ps) <==> e.0 !in Keys(ps) && UniqueKeys(ps)
  {
    var r := [e] + ps;
    assert forall i :: 0 < i < |r| ==> r[i] == ps[i - 1];
    if e.0 in Keys(ps) {
      var k :| 0 <= k < |ps| && ps[k].0 == e.0;
      assert r[k + 1].0 == r[0].0;
    }
    if !UniqueKeys(ps) {
      var i, j :| 0 <= i < j < |ps| && ps[i].0 == ps[j].0;
      assert r[i + 1].0 == r[j + 1].0;
    }
  }

  /** Writing a key keeps keys unique. */
  lemma {:induction false} PutKeepsUnique<V>(ps: seq<(string, V)>, key: string, value: V)
    requires UniqueKeys(ps)
    ensures UniqueKeys(Put(ps, key, value))
    decreases |ps|
  {
    if |ps| > 0 {
      assert ps == [ps[0]] + ps[1..];
      UniqueCons(ps[0], ps[1..]);
      if ps[0].0 == key {
        UniqueCons((key, value), ps[1..]);
      } else {
        var rest := Put(ps[1..], key, value);
        PutKeepsUnique(ps[1..], key, value);
        PutKeys(ps[1..], key, value);
        UniqueCons(ps[0], rest);
      }
    }
  }

  /** Reading back a written key gives the written value; other keys read
      as before. */
  lemma {:induction false} LookupPut<V>(ps: seq<(string, V)>, key: string, value: V, other: string)
    ensures Lookup(Put(ps, key, value), key) == Some(value)
    ensures other != key ==> Lookup(Put(ps, key, value), other) == Lookup(ps, other)
    decreases |ps|
  {
    if |ps| > 0 && ps[0].0 != key {
      LookupPut(ps[1..], key, value, other);
      assert Put(ps, key, value)[1..] == Put(ps[1..], key, value);
    }
  }

  /** Every entry of the result is the written one or an entry of the
      original object. */
  lemma {:induction false} PutOnlyWrites<V>(ps: seq<(string, V)>, key: string, value: V)
    ensures forall i :: 0 <= i < |Put(ps, key, value)| ==>
      Put(ps, key, value)[i] == (key, value) || Put(ps, key, value)[i] in ps
    decreases |ps|
  {
    if |ps| > 0 && ps[0].0 != key {
      PutOnlyWrites(ps[1..], key, value);
      assert Put(ps, key, value) == [ps[0]] + Put(ps[1..], key, value);
    }
  }
}
