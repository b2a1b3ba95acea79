/** Signing the payment-gateway request and checking the gateway's callback
    (back-end/controller/payment.controller.js).

    The request is signed over a canonical string: drop the signature key
    and null/undefined values, sort the remaining keys, serialize with the
    form encoder, and HMAC the result.  The callback is checked against
    `qs.stringify(params, {encode: false})`: the received keys in arrival
    order, names and values unencoded.  The two canonical strings differ
    whenever the keys arrive unsorted or a value holds a character the form
    encoder rewrites, so `VerifyAsWritten` rejects such callbacks even when
    their signature is genuine.  `VerifyShared` checks with the signing
    canonicaliser and accepts every request this side signs.

    The HMAC (SHA-512, hex digest) is a parameter: any function from
    (secret, message) to digest. */
module Gateway {
  import opened Wrappers
  import opened Strings
  import opened FormEncoding
  import opened Objects

  /** A parameter value before `URLSearchParams` turns it into text. */
  datatype Value = Text(s: string) | Number(n: int) | Null | Undefined
  {
    predicate Defined() { Text? || Number? }

    /** `String(value)` for a defined value. */
    function AsText(): string
      requires Defined()
    {
      if Text? then s else IntToString(n)
    }
  }

  /** A plain object's entries in insertion order. */
  type Params = seq<(string, Value)>

  const HashKey: string := "vnp_SecureHash"
  const HashTypeKey: string := "vnp_SecureHashType"

  // ---------------------------------------------------------------------
  // Sorting by key (the default `sort()` order on the key strings)
  // ---------------------------------------------------------------------

  predicate Ascending(ps: seq<(string, string)>)
  {
    forall i, j :: 0 <= i < j < |ps| ==> Before(ps[i].0, ps[j].0)
  }

  function InsertByKey(x: (string, string), ps: seq<(string, string)>): (r: seq<(string, string)>)
    ensures multiset(r) == multiset{x} + multiset(ps)
  {
    if |ps| == 0 then [x]
    else if Before(x.0, ps[0].0) then [x] + ps
    else
      assert ps == [ps[0]] + ps[1..];
      [ps[0]] + InsertByKey(x, ps[1..])
  }

  function SortByKey(ps: seq<(string, string)>): (r: seq<(string, string)>)
    ensures multiset(r) == multiset(ps)
  {
    if |ps| == 0 then []
    else
      assert ps == [ps[0]] + ps[1..];
      InsertByKey(ps[0], SortByKey(ps[1..]))
  }

  lemma KeysOfMultiset(a: seq<(string, string)>, b: seq<(string, string)>)
    requires multiset(a) == multiset(b)
    ensures Keys(a) == Keys(b)
  {
    forall k | k in Keys(a) ensures k in Keys(b) {
      var i :| 0 <= i < |a| && a[i].0 == k;
      assert a[i] in multiset(b);
    }
    forall k | k in Keys(b) ensures k in Keys(a) {
      var i :| 0 <= i < |b| && b[i].0 == k;
      assert b[i] in multiset(a);
    }
  }

  /** Every key of `ps` comes after `k`. */
  predicate AllAfter(k: string, ps: seq<(string, string)>)
  {
    forall j :: 0 <= j < |ps| ==> Before(k, ps[j].0)
  }

  lemma AscendingTail(ps: seq<(string, string)>)
    requires Ascending(ps) && |ps| > 0
    ensures Ascending(ps[1..]) && AllAfter(ps[0].0, ps[1..])
  {
    assert forall j :: 0 <= j < |ps[1..]| ==> ps[1..][j] == ps[j + 1];
  }

  lemma AscendingCons(y: (string, string), ps: seq<(string, string)>)
    requires AllAfter(y.0, ps) && Ascending(ps)
    ensures Ascending([y] + ps)
  {
    var r := [y] + ps;
    forall i, j | 0 <= i < j < |r| ensures Before(r[i].0, r[j].0) {
      assert r[j] == ps[j - 1];
      if i > 0 {
        assert r[i] == ps[i - 1];
      }
    }
  }

  lemma AllAfterInsert(k: string, x: (string, string), ps: seq<(string, string)>)
    requires AllAfter(k, ps) && Before(k, x.0)
    ensures AllAfter(k, InsertByKey(x, ps))
  {
    var r := InsertByKey(x, ps);
    forall j | 0 <= j < |r| ensures Before(k, r[j].0) {
      assert r[j] in multiset(r);
      if r[j] != x {
        assert r[j] in multiset(ps);
        var i :| 0 <= i < |ps| && ps[i] == r[j];
      }
    }
  }

  lemma {:induction false} InsertKeepsAscending(x: (string, string), ps: seq<(string, string)>)
    requires Ascending(ps) && x.0 !in Keys(ps)
    ensures Ascending(InsertByKey(x, ps))
    decreases |ps|
  {
    if |ps| == 0 {
    } else if Before(x.0, ps[0].0) {
      AscendingTail(ps);
      forall j | 0 <= j < |ps| ensures Before(x.0, ps[j].0) {
        if j > 0 {
          assert ps[1..][j - 1] == ps[j];
          BeforeTransitive(x.0, ps[0].0, ps[j].0);
        }
      }
      AscendingCons(x, ps);
    } else {
      assert ps[0].0 in Keys(ps);
      BeforeTotal(x.0, ps[0].0);
      var tail := ps[1..];
      assert x.0 !in Keys(tail) by {
        assert forall i :: 0 <= i < |tail| ==> tail[i] == ps[i + 1];
      }
      AscendingTail(ps);
      InsertKeepsAscending(x, tail);
      AllAfterInsert(ps[0].0, x, tail);
      AscendingCons(ps[0], InsertByKey(x, tail));
    }
  }

  /** Sorting a list with distinct keys orders it strictly by key. */
  lemma {:induction false} SortAscending(ps: seq<(string, string)>)
    requires UniqueKeys(ps)
    ensures Ascending(SortByKey(ps))
    decreases |ps|
  {
    if |ps| > 0 {
      var tail := ps[1..];
      SortAscending(tail);
      KeysOfMultiset(SortByKey(tail), tail);
      assert ps[0].0 !in Keys(tail) by {
        assert forall i :: 0 <= i < |tail| ==> tail[i] == ps[i + 1];
      }
      InsertKeepsAscending(ps[0], SortByKey(tail));
    }
  }

  /** Two keys that are each equal to or before the other are equal. */
  lemma KeyAntisymmetric(a: string, b: string)
    requires a == b || Before(a, b)
    requires b == a || Before(b, a)
    ensures a == b
  {
    if a != b {
      BeforeAsymmetric(a, b);
    }
  }

  /** The head of an ascending list has the least key. */
  lemma HeadLeast(ps: seq<(string, string)>, x: (string, string))
    requires Ascending(ps) && x in multiset(ps)
    ensures x == ps[0] || Before(ps[0].0, x.0)
  {
    var i :| 0 <= i < |ps| && ps[i] == x;
  }

  /** A list ordered strictly by key is determined by its entries. */
  lemma {:induction false} AscendingUnique(a: seq<(string, string)>, b: seq<(string, string)>)
    requires Ascending(a) && Ascending(b) && multiset(a) == multiset(b)
    ensures a == b
    decreases |a|
  {
    if |a| > 0 {
      assert a[0] in multiset(a);
      assert |b| > 0;
      assert b[0] in multiset(b);
      HeadLeast(b, a[0]);
      HeadLeast(a, b[0]);
      KeyAntisymmetric(a[0].0, b[0].0);
      var i :| 0 <= i < |a| && a[i] == b[0];
      assert a[i].0 == a[0].0;
      if i > 0 {
        BeforeIrreflexive(a[0].0);
      }
      assert a[0] == b[0];
      assert a == [a[0]] + a[1..];
      assert b == [b[0]] + b[1..];
      assert multiset(a) == multiset{a[0]} + multiset(a[1..]);
      assert multiset(b) == multiset{b[0]} + multiset(b[1..]);
      assert multiset(a[1..]) == multiset(a) - multiset{a[0]};
      assert multiset(b[1..]) == multiset(b) - multiset{b[0]};
      AscendingTail(a);
      AscendingTail(b);
      AscendingUnique(a[1..], b[1..]);
    }
  }

  // ---------------------------------------------------------------------
  // The signing side
  // ---------------------------------------------------------------------

  /** The entries that take part in signing, as text, in insertion order:
      the signature key and null/undefined values are left out. */
  function Retained(ps: Params): (r: seq<(string, string)>)
    ensures |r| <= |ps|
  {
    if |ps| == 0 then []
    else
      var rest := Retained(ps[1..]);
      if ps[0].0 != HashKey && ps[0].1.Defined() then [(ps[0].0, ps[0].1.AsText())] + rest else rest
  }

  lemma {:induction false} RetainedKeys(ps: Params)
    ensures HashKey !in Keys(Retained(ps))
    ensures Keys(Retained(ps)) <= Keys(ps)
    decreases |ps|
  {
    if |ps| > 0 {
      RetainedKeys(ps[1..]);
      assert Keys(ps[1..]) <= Keys(ps) by {
        assert forall i :: 0 <= i < |ps[1..]| ==> ps[1..][i] == ps[i + 1];
      }
    }
  }

  lemma {:induction false} RetainedUnique(ps: Params)
    requires UniqueKeys(ps)
    ensures UniqueKeys(Retained(ps))
    decreases |ps|
  {
    if |ps| > 0 {
      var tail := ps[1..];
      RetainedUnique(tail);
      RetainedKeys(tail);
      assert ps[0].0 !in Keys(tail) by {
        assert forall i :: 0 <= i < |tail| ==> tail[i] == ps[i + 1];
      }
    }
  }

  /** An entry takes part in signing exactly when its key is not the
      signature key and its value is defined; it is signed as its text. */
  lemma {:induction false} RetainedMembers(ps: Params, k: string, t: string)
    ensures (k, t) in Retained(ps) <==>
      exists v :: (k, v) in ps && k != HashKey && v.Defined() && v.AsText() == t
    decreases |ps|
  {
    if |ps| > 0 {
      RetainedMembers(ps[1..], k, t);
      assert ps == [ps[0]] + ps[1..];
    }
  }

  /** The canonical list: the retained entries sorted by key. */
  function Canonical(ps: Params): seq<(string, string)>
  {
    SortByKey(Retained(ps))
  }

  /** The string that is signed: `new URLSearchParams(sorted).toString()`. */
  function SigningText(ps: Params): string
  {
    Serialize(FormUrlEncoded, Canonical(ps))
  }

  /** The parameters with their signature added: `params.vnp_SecureHash = hmac(...)`. */
  function Sign(ps: Params, secret: string, hmac: (string, string) -> string): (r: Params)
    ensures Lookup(r, HashKey) == Some(Text(hmac(secret, SigningText(ps))))
    ensures HashKey !in Keys(ps) ==> r == ps + [(HashKey, Text(hmac(secret, SigningText(ps))))]
  {
    Put(ps, HashKey, Text(hmac(secret, SigningText(ps))))
  }

  /** The canonical list of an object with distinct keys is ordered by key. */
  lemma CanonicalAscending(ps: Params)
    requires UniqueKeys(ps)
    ensures Ascending(Canonical(ps))
  {
    RetainedUnique(ps);
    SortAscending(Retained(ps));
  }

  lemma {:induction false} RetainedAppend(a: Params, b: Params)
    ensures Retained(a + b) == Retained(a) + Retained(b)
    decreases |a|
  {
    if |a| > 0 {
      assert (a + b)[0] == a[0];
      assert (a + b)[1..] == a[1..] + b;
      RetainedAppend(a[1..], b);
    } else {
      assert a + b == b;
    }
  }

  /** Taking the same element out of two permutations leaves permutations. */
  lemma MultisetRemove<T>(a: seq<T>, b: seq<T>, j: int)
    requires multiset(a) == multiset(b) && |a| > 0 && 0 <= j < |b| && b[j] == a[0]
    ensures multiset(a[1..]) == multiset(b[..j] + b[j + 1..])
  {
    assert b == b[..j] + [b[j]] + b[j + 1..];
    assert a == [a[0]] + a[1..];
    var rest := b[..j] + b[j + 1..];
    assert multiset(b) == multiset(rest) + multiset{b[j]};
    assert multiset(a) == multiset(a[1..]) + multiset{a[0]};
    assert multiset(a[1..]) == multiset(a) - multiset{a[0]};
    assert multiset(rest) == multiset(b) - multiset{b[j]};
  }

  /** Taking out entry `j` takes out its retained part. */
  lemma RetainedSplice(b: Params, j: int)
    requires 0 <= j < |b|
    ensures multiset(Retained(b)) == multiset(Retained([b[j]])) + multiset(Retained(b[..j] + b[j + 1..]))
  {
    var front, mid, back := b[..j], [b[j]], b[j + 1..];
    SpliceShape(b, j);
    var f, m, k := Retained(front), Retained(mid), Retained(back);
    assert Retained(b) == f + (m + k) by {
      RetainedAppend(front, mid + back); RetainedAppend(mid, back);
    }
    assert Retained(front + back) == f + k by { RetainedAppend(front, back); }
    MultisetMiddle(f, m, k);
  }

  lemma SpliceShape(b: Params, j: int)
    requires 0 <= j < |b|
    ensures b == b[..j] + ([b[j]] + b[j + 1..])
  {
  }

  lemma MultisetMiddle<T>(f: seq<T>, m: seq<T>, k: seq<T>)
    ensures multiset(f + (m + k)) == multiset(m) + multiset(f + k)
  {
  }

  /** Reordering the entries does not change what takes part in signing. */
  lemma {:induction false} RetainedPermutation(a: Params, b: Params)
    requires multiset(a) == multiset(b)
    ensures multiset(Retained(a)) == multiset(Retained(b))
    decreases |a|
  {
    if |a| > 0 {
      assert a[0] in multiset(b);
      var j :| 0 <= j < |b| && b[j] == a[0];
      MultisetRemove(a, b, j);
      RetainedPermutation(a[1..], b[..j] + b[j + 1..]);
      RetainedSplice(b, j);
      RetainedSplice(a, 0);
      assert a[..0] + a[1..] == a[1..];
    }
  }

  /** The signed string does not depend on the order in which the
      parameters were inserted. */
  lemma SigningTextOrderIndependent(a: Params, b: Params)
    requires UniqueKeys(a) && UniqueKeys(b) && multiset(a) == multiset(b)
    ensures SigningText(a) == SigningText(b)
  {
    RetainedPermutation(a, b);
    RetainedUnique(a);
    RetainedUnique(b);
    SortAscending(Retained(a));
    SortAscending(Retained(b));
    AscendingUnique(Canonical(a), Canonical(b));
  }

  // ---------------------------------------------------------------------
  // The callback side
  // ---------------------------------------------------------------------

  /** The query a callback carries: names and values as text, in arrival order. */
  type Query = seq<(string, string)>

  /** `qs.stringify(query, {encode: false})`: `name=value` unencoded, in
      order, joined with `&`. */
  function RawText(q: Query): string
  {
    Join(RawPairs(q), '&')
  }

  function RawPairs(q: Query): (r: seq<string>)
    ensures |r| == |q|
    ensures forall i :: 0 <= i < |q| ==> r[i] == q[i].0 + "=" + q[i].1
  {
    if |q| == 0 then [] else [q[0].0 + "=" + q[0].1] + RawPairs(q[1..])
  }

  /** The query without its signature fields (`delete` of both keys). */
  function Unsigned(q: Query): Query
  {
    Delete(Delete(q, HashKey), HashTypeKey)
  }

  /** The check as written: the received signature against the HMAC of the
      unsorted, unencoded text of the remaining fields. */
  predicate VerifyAsWritten(q: Query, secret: string, hmac: (string, string) -> string)
  {
    Lookup(q, HashKey) == Some(hmac(secret, RawText(Unsigned(q))))
  }

  /** The check with the signing canonicaliser: sort by key, form-encode. */
  predicate VerifyShared(q: Query, secret: string, hmac: (string, string) -> string)
  {
    Lookup(q, HashKey) == Some(hmac(secret, Serialize(FormUrlEncoded, SortByKey(Unsigned(q)))))
  }

  /** The callback query carrying the given parameters back: every defined
      value as its text. */
  function Echo(ps: Params): (q: Query)
    ensures |q| <= |ps|
    ensures Keys(q) <= Keys(ps)
  {
    if |ps| == 0 then []
    else
      var rest := Echo(ps[1..]);
      assert Keys(ps[1..]) <= Keys(ps) by {
        assert forall i :: 0 <= i < |ps[1..]| ==> ps[1..][i] == ps[i + 1];
      }
      if ps[0].1.Defined() then [(ps[0].0, ps[0].1.AsText())] + rest else rest
  }

  lemma {:induction false} EchoWithoutHash(ps: Params)
    requires HashKey !in Keys(ps)
    ensures Echo(ps) == Retained(ps)
    decreases |ps|
  {
    if |ps| > 0 {
      assert HashKey !in Keys(ps[1..]) by {
        assert forall i :: 0 <= i < |ps[1..]| ==> ps[1..][i] == ps[i + 1];
      }
      EchoWithoutHash(ps[1..]);
    }
  }

  lemma {:induction false} EchoAppend(a: Params, b: Params)
    ensures Echo(a + b) == Echo(a) + Echo(b)
    decreases |a|
  {
    if |a| > 0 {
      assert (a + b)[0] == a[0];
      assert (a + b)[1..] == a[1..] + b;
      EchoAppend(a[1..], b);
    } else {
      assert a + b == b;
    }
  }

  /** The signed parameters, echoed back, carry the signature and the other
      fields. */
  lemma EchoSigned(ps: Params, secret: string, hmac: (string, string) -> string)
    requires HashKey !in Keys(ps) && HashTypeKey !in Keys(ps)
    ensures var q := Echo(Sign(ps, secret, hmac));
      && Lookup(q, HashKey) == Some(hmac(secret, SigningText(ps)))
      && Unsigned(q) == Retained(ps)
  {
    var sig := hmac(secret, SigningText(ps));
    EchoAppend(ps, [(HashKey, Text(sig))]);
    var q := Echo(Sign(ps, secret, hmac));
    assert q == Echo(ps) + [(HashKey, sig)];
    EchoWithoutHash(ps);
    assert Lookup(q, HashKey) == Some(sig) by {
      LookupAppend(Echo(ps), HashKey, sig);
    }
    DeleteAppend(Echo(ps), HashKey, sig);
    assert Delete(q, HashKey) == Echo(ps);
    assert HashTypeKey !in Keys(Echo(ps));
  }

  lemma {:induction false} LookupAppend(q: Query, key: string, value: string)
    requires key !in Keys(q)
    ensures Lookup(q + [(key, value)], key) == Some(value)
    decreases |q|
  {
    if |q| > 0 {
      assert (q + [(key, value)])[1..] == q[1..] + [(key, value)];
      assert key !in Keys(q[1..]) by {
        assert forall i :: 0 <= i < |q[1..]| ==> q[1..][i] == q[i + 1];
      }
      LookupAppend(q[1..], key, value);
    }
  }

  lemma {:induction false} DeleteAppend(q: Query, key: string, value: string)
    requires key !in Keys(q)
    ensures Delete(q + [(key, value)], key) == q
    decreases |q|
  {
    if |q| > 0 {
      assert (q + [(key, value)])[1..] == q[1..] + [(key, value)];
      assert key !in Keys(q[1..]) by {
        assert forall i :: 0 <= i < |q[1..]| ==> q[1..][i] == q[i + 1];
      }
      DeleteAppend(q[1..], key, value);
    }
  }

  /** With the signing canonicaliser on both sides, every request this side
      signs verifies when echoed back, whatever the HMAC. */
  lemma SharedRoundTrip(ps: Params, secret: string, hmac: (string, string) -> string)
    requires HashKey !in Keys(ps) && HashTypeKey !in Keys(ps)
    ensures VerifyShared(Echo(Sign(ps, secret, hmac)), secret, hmac)
  {
    EchoSigned(ps, secret, hmac);
  }

  /** When the fields arrive sorted and hold only characters the form
      encoder keeps, the check as written agrees with the shared one. */
  lemma AsWrittenAgreesOnPlainSorted(q: Query, secret: string, hmac: (string, string) -> string)
    requires Ascending(Unsigned(q))
    requires forall i :: 0 <= i < |Unsigned(q)| ==>
      Plain(FormUrlEncoded, Unsigned(q)[i].0) && Plain(FormUrlEncoded, Unsigned(q)[i].1)
    ensures VerifyAsWritten(q, secret, hmac) <==> VerifyShared(q, secret, hmac)
  {
    var u := Unsigned(q);
    SortAscendingFixed(u);
    forall i | 0 <= i < |u| ensures PairTexts(FormUrlEncoded, u)[i] == RawPairs(u)[i] {
      EncodePlain(FormUrlEncoded, u[i].0);
      EncodePlain(FormUrlEncoded, u[i].1);
    }
    assert PairTexts(FormUrlEncoded, u) == RawPairs(u);
  }

  /** Sorting an already ascending list changes nothing. */
  lemma SortAscendingFixed(ps: seq<(string, string)>)
    requires Ascending(ps)
    ensures SortByKey(ps) == ps
  {
    assert UniqueKeys(ps) by {
      forall i, j | 0 <= i < j < |ps| ensures ps[i].0 != ps[j].0 {
        BeforeIrreflexive(ps[i].0);
      }
    }
    SortAscending(ps);
    AscendingUnique(SortByKey(ps), ps);
  }

  /** The check as written refuses a genuine signature whenever its text
      for the echoed fields differs from the signed text (and the HMAC tells
      the two apart), while the shared check accepts it. */
  lemma AsWrittenRejectsWhenTextsDiffer(ps: Params, secret: string, hmac: (string, string) -> string)
    requires HashKey !in Keys(ps) && HashTypeKey !in Keys(ps)
    requires hmac(secret, RawText(Retained(ps))) != hmac(secret, SigningText(ps))
    ensures VerifyShared(Echo(Sign(ps, secret, hmac)), secret, hmac)
    ensures !VerifyAsWritten(Echo(Sign(ps, secret, hmac)), secret, hmac)
  {
    EchoSigned(ps, secret, hmac);
  }
}
