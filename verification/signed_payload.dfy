/** The shape checks the persistence routes apply to a parsed request body
    before trusting it: a signed payload is an object with a non-empty
    issuer and signature, a finite tick and a payload object naming its
    world and cluster. The signature covers a canonical message built from
    the tick and the payload only. */
module SignedPayload {
  import opened Wrappers
  import opened Protocol

  /** `isObject`: a non-null object that is not an array. */
  predicate IsObject(v: JsValue) {
    v.Obj?
  }

  /** `asString`. */
  function AsString(v: JsValue): (r: Option<string>)
    ensures r.Some? <==> v.Str?
    ensures r.Some? ==> r.value == v.s
  {
    if v.Str? then Some(v.s) else None
  }

  /** `asNumber`: a number that is finite, so neither NaN nor an infinity. */
  function AsNumber(v: JsValue): (r: Option<real>)
    ensures r.Some? <==> v.Num?
    ensures r.Some? ==> r.value == v.n
  {
    match v
    case Num(n) => Some(n)
    case _ => None
  }

  /** `!s` on the result of `asString`: missing or the empty string. */
  predicate Blank(s: Option<string>) {
    s.None? || s.value == ""
  }

  /** `isSignedSnapshot`, in the order of its early returns. */
  predicate IsSignedSnapshot(v: JsValue) {
    if !IsObject(v) then false
    else
      var issuer := AsString(Prop(v, "issuer"));
      var signature := AsString(Prop(v, "signature"));
      var tick := AsNumber(Prop(v, "tick"));
      var payload := Prop(v, "payload");
      if Blank(issuer) || Blank(signature) || tick.None? then false
      else if !IsObject(payload) then false
      else
        var worldId := AsString(Prop(payload, "worldId"));
        var clusterId := AsString(Prop(payload, "clusterId"));
        !(Blank(worldId) || Blank(clusterId))
  }

  /** `isSignedJournalEntry`: the same test, written out a second time. */
  predicate IsSignedJournalEntry(v: JsValue) {
    if !IsObject(v) then false
    else
      var issuer := AsString(Prop(v, "issuer"));
      var signature := AsString(Prop(v, "signature"));
      var tick := AsNumber(Prop(v, "tick"));
      var payload := Prop(v, "payload");
      if Blank(issuer) || Blank(signature) || tick.None? then false
      else if !IsObject(payload) then false
      else
        var worldId := AsString(Prop(payload, "worldId"));
        var clusterId := AsString(Prop(payload, "clusterId"));
        !(Blank(worldId) || Blank(clusterId))
  }

  /** What the `SignedPayload` type promises the stores: string issuer and
      signature, a numeric tick and a payload object with string world and
      cluster ids (which may still be empty). */
  predicate HasShape(v: JsValue) {
    v.Obj? && Prop(v, "issuer").Str? && Prop(v, "signature").Str? &&
    Prop(v, "tick").Num? && Prop(v, "payload").Obj? &&
    Prop(Prop(v, "payload"), "worldId").Str? &&
    Prop(Prop(v, "payload"), "clusterId").Str?
  }

  function Issuer(v: JsValue): string
    requires HasShape(v)
  {
    Prop(v, "issuer").s
  }

  function Signature(v: JsValue): string
    requires HasShape(v)
  {
    Prop(v, "signature").s
  }

  function WorldId(v: JsValue): string
    requires HasShape(v)
  {
    Prop(Prop(v, "payload"), "worldId").s
  }

  function ClusterId(v: JsValue): string
    requires HasShape(v)
  {
    Prop(Prop(v, "payload"), "clusterId").s
  }

  /** The accepted bodies are exactly the well-typed ones whose issuer,
      signature, world id and cluster id are non-empty. */
  lemma SignedSnapshotAccepts(v: JsValue)
    ensures IsSignedSnapshot(v) <==>
      HasShape(v) && Issuer(v) != "" && Signature(v) != "" &&
      WorldId(v) != "" && ClusterId(v) != ""
  {
  }

  /** Snapshots and journal entries pass the same test. */
  lemma SameTest(v: JsValue)
    ensures IsSignedSnapshot(v) <==> IsSignedJournalEntry(v)
  {
  }

  /** A tick that is NaN fails the test however well-formed the rest is. */
  lemma NaNTickRejected(v: JsValue)
    requires v.Obj? && Prop(v, "tick") == NaN
    ensures !IsSignedSnapshot(v)
  {
  }

  /** `canonicalMessageForSignature`: the object `{tick, payload}` that is
      serialised for signing, keys in that insertion order. */
  function Canonical(body: JsValue): (m: JsValue)
    ensures m.Obj? && Keys(m.fields) == ["tick", "payload"]
    ensures Prop(m, "tick") == Prop(body, "tick")
    ensures Prop(m, "payload") == Prop(body, "payload")
  {
    var fs := [Field("tick", Prop(body, "tick")), Field("payload", Prop(body, "payload"))];
    assert Keys(fs) == ["tick", "payload"];
    LookupFirst(fs, "tick", 0);
    assert "tick"[0] != "payload"[0];
    LookupFirst(fs, "payload", 1);
    Obj(0, fs)
  }

  /** The signed message does not depend on the issuer, the signature or
      any other top-level property: bodies agreeing on tick and payload
      are verified against the same message. */
  lemma CanonicalIgnoresEnvelope(a: JsValue, b: JsValue)
    requires Prop(a, "tick") == Prop(b, "tick") && Prop(a, "payload") == Prop(b, "payload")
    ensures Canonical(a) == Canonical(b)
  {
  }

  /** Bodies whose ticks differ are verified against different messages,
      so a signature for one tick cannot be replayed for another. */
  lemma CanonicalSeparatesTicks(a: JsValue, b: JsValue)
    requires Prop(a, "tick") != Prop(b, "tick")
    ensures Canonical(a) != Canonical(b)
  {
    assert Prop(Canonical(a), "tick") != Prop(Canonical(b), "tick");
  }
}
