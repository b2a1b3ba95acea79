/** Two concrete requests on which the callback check as written refuses
    the signature this side produced (back-end/controller/payment.controller.js),
    while the check with the signing canonicaliser accepts it.  The field
    names are kept to one letter so that the texts stay short; the same
    happens with the real `vnp_` names (for instance an order description
    `a b`, or `vnp_TxnRef` arriving before `vnp_Amount`). */
module GatewayExamples {
  import opened Strings
  import opened FormEncoding
  import opened Objects
  import opened Gateway

  /** A value holding a space. */
  function SpacedExample(): Params { [("k", Text("a b"))] }

  /** Two fields inserted in reverse key order, one of them a number. */
  function UnsortedExample(): Params { [("b", Text("1")), ("a", Number(2))] }

  lemma ExampleKeys()
    ensures HashKey !in Keys(SpacedExample()) && HashTypeKey !in Keys(SpacedExample())
    ensures HashKey !in Keys(UnsortedExample()) && HashTypeKey !in Keys(UnsortedExample())
  {
    KeysCons(("k", Text("a b")), []);
    KeysCons(("a", Number(2)), []);
    KeysCons(("b", Text("1")), [("a", Number(2))]);
    assert |HashKey| == 14 && |HashTypeKey| == 18;
  }

  /** The spaced value is checked as `k=a b`... */
  lemma SpacedRawText()
    ensures RawText(Retained(SpacedExample())) == "k=a b"
  {
    var r := Retained(SpacedExample());
    assert r == [("k", "a b")];
    assert r[0].0 + "=" + r[0].1 == "k=a b";
    assert RawPairs(r) == ["k=a b"];
  }

  /** ... but signed as `k=a+b`. */
  lemma SpacedSigningText()
    ensures SigningText(SpacedExample()) == "k=a+b"
  {
    assert Utf8("a b") == [0x61, 0x20, 0x62];
    assert Encode(FormUrlEncoded, "a b") == "a+b";
    assert Encode(FormUrlEncoded, "k") == "k";
    assert Canonical(SpacedExample()) == [("k", "a b")];
  }

  /** The unsorted fields are checked in arrival order... */
  lemma UnsortedRawText()
    ensures RawText(Retained(UnsortedExample())) == "b=1&a=2"
  {
    assert IntToString(2) == "2";
    var r := Retained(UnsortedExample());
    assert r == [("b", "1"), ("a", "2")];
    assert r[0].0 + "=" + r[0].1 == "b=1";
    assert r[1].0 + "=" + r[1].1 == "a=2";
    assert RawPairs(r) == ["b=1", "a=2"];
    assert Join(["b=1", "a=2"], '&') == "b=1" + "&" + "a=2";
  }

  /** ... but signed in key order. */
  lemma UnsortedSigningText()
    ensures SigningText(UnsortedExample()) == "a=2&b=1"
  {
    assert IntToString(2) == "2";
    var r := Retained(UnsortedExample());
    assert r == [("b", "1"), ("a", "2")];
    assert Before("a", "b");
    assert r[1..] == [("a", "2")];
    var c := Canonical(UnsortedExample());
    assert c == [("a", "2"), ("b", "1")];
    assert Encode(FormUrlEncoded, "a") == "a" && Encode(FormUrlEncoded, "2") == "2";
    assert Encode(FormUrlEncoded, "b") == "b" && Encode(FormUrlEncoded, "1") == "1";
    assert PairText(FormUrlEncoded, c[0]) == "a" + "=" + "2";
    assert PairText(FormUrlEncoded, c[1]) == "b" + "=" + "1";
    var texts := PairTexts(FormUrlEncoded, c);
    assert |texts| == 2 && texts[0] == "a=2" && texts[1] == "b=1";
    assert texts == ["a=2", "b=1"];
    assert Join(["a=2", "b=1"], '&') == "a=2" + "&" + "b=1";
  }

  /** The mismatch, exhibited with the identity as HMAC (which tells any two
      strings apart): a space in a value, or keys that arrive unsorted, make
      the check as written refuse a genuine signature. */
  lemma AsWrittenRejectsGenuineSignatures()
    ensures var hmac := (k: string, m: string) => m;
      && VerifyShared(Echo(Sign(SpacedExample(), "secret", hmac)), "secret", hmac)
      && !VerifyAsWritten(Echo(Sign(SpacedExample(), "secret", hmac)), "secret", hmac)
      && VerifyShared(Echo(Sign(UnsortedExample(), "secret", hmac)), "secret", hmac)
      && !VerifyAsWritten(Echo(Sign(UnsortedExample(), "secret", hmac)), "secret", hmac)
  {
    SpacedRejected();
    UnsortedRejected();
  }

  /** A value with a space: encoded as `+` when signing, raw when verifying. */
  lemma SpacedRejected()
    ensures var hmac := (k: string, m: string) => m;
      && VerifyShared(Echo(Sign(SpacedExample(), "secret", hmac)), "secret", hmac)
      && !VerifyAsWritten(Echo(Sign(SpacedExample(), "secret", hmac)), "secret", hmac)
  {
    var hmac := (k: string, m: string) => m;
    ExampleKeys();
    SpacedRawText();
    SpacedSigningText();
    assert "k=a b"[3] != "k=a+b"[3];
    assert hmac("secret", RawText(Retained(SpacedExample()))) != hmac("secret", SigningText(SpacedExample()));
    AsWrittenRejectsWhenTextsDiffer(SpacedExample(), "secret", hmac);
  }

  /** Keys inserted out of order: sorted when signing, as they arrive when
      verifying. */
  lemma UnsortedRejected()
    ensures var hmac := (k: string, m: string) => m;
      && VerifyShared(Echo(Sign(UnsortedExample(), "secret", hmac)), "secret", hmac)
      && !VerifyAsWritten(Echo(Sign(UnsortedExample(), "secret", hmac)), "secret", hmac)
  {
    var hmac := (k: string, m: string) => m;
    ExampleKeys();
    UnsortedRawText();
    UnsortedSigningText();
    assert "b=1&a=2"[0] != "a=2&b=1"[0];
    assert hmac("secret", RawText(Retained(UnsortedExample()))) != hmac("secret", SigningText(UnsortedExample()));
    AsWrittenRejectsWhenTextsDiffer(UnsortedExample(), "secret", hmac);
  }
}
