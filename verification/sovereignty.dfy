/** One tick of the sovereignty system: owned territories gain influence
    up to 100, and an economy under a foreign sovereignty pays a share of
    its credits production to the owning corporation. The TypeScript
    system and its JavaScript twin differ only in how they find that
    corporation. */
module Sovereignty {
  import opened Wrappers
  import opened NumberText
  import EconomySystem

  type Entity = int

  /** An owner id as the untyped JavaScript code may meet it: the declared
      string, or an entity number stored directly. */
  datatype Owner = Text(s: string) | Id(n: int)

  /** JavaScript truthiness of an owner id: null, "" and 0 are falsy. */
  predicate Truthy(o: Option<Owner>)
  {
    match o
    case None => false
    case Some(Text(s)) => s != ""
    case Some(Id(n)) => n != 0
  }

  datatype Claim = Claim(ownerId: Option<Owner>, influence: real, taxRate: real, contested: bool)

  /** The components the system reads and writes. `owners` holds each
      Identity's ownerId and `treasury` each Corporation's treasury. */
  datatype Realm = Realm(
    claims: map<Entity, Claim>,
    owners: map<Entity, Option<Owner>>,
    economies: map<Entity, EconomySystem.Economy>,
    treasury: map<Entity, real>)

  datatype Twin = Ts | Js

  function Min(a: real, b: real): real { if a <= b then a else b }

  /** The first phase for one territory. */
  function Grow(c: Claim, dt: real): (r: Claim)
    ensures r.ownerId == c.ownerId && r.taxRate == c.taxRate && r.contested == c.contested
    ensures !Truthy(c.ownerId) ==> r == c
    ensures Truthy(c.ownerId) && c.influence <= 100.0 && dt >= 0.0 ==> c.influence <= r.influence <= 100.0
    ensures Truthy(c.ownerId) ==>
      r.influence <= 100.0 && r.influence <= c.influence + 2.0 * dt
      && (r.influence == 100.0 || r.influence == c.influence + 2.0 * dt)
  {
    if Truthy(c.ownerId) then c.(influence := Min(100.0, c.influence + dt * 2.0)) else c
  }

  /** Two steps of growth are one step over the summed time. */
  lemma GrowCompose(c: Claim, a: real, b: real)
    requires a >= 0.0 && b >= 0.0
    ensures Grow(Grow(c, a), b) == Grow(c, a + b)
  {
  }

  /** An owned territory reaches the cap once 2·dt covers the gap. */
  lemma GrowReachesCap(c: Claim, dt: real)
    requires Truthy(c.ownerId) && c.influence + dt * 2.0 >= 100.0
    ensures Grow(c, dt).influence == 100.0
  {
  }

  /** The first phase over every territory the world query lists. */
  function GrowAll(claims: map<Entity, Claim>, listed: set<Entity>, dt: real): (r: map<Entity, Claim>)
    ensures r.Keys == claims.Keys
    ensures forall e :: e in claims && e !in listed ==> r[e] == claims[e]
  {
    map e | e in claims :: if e in listed then Grow(claims[e], dt) else claims[e]
  }

  /** The corporation a tax is paid to: the first listed corporation whose
      id matches. TypeScript compares `corpId.toString()` with the owner
      string; JavaScript compares the number itself with `===`, and then
      skips a falsy (0) match. */
  function FindCorp(corps: seq<Entity>, owner: Owner, twin: Twin): (r: Option<Entity>)
    ensures r.Some? ==> r.value in corps
    ensures r.Some? && twin == Ts ==> owner == Text(IntText(r.value))
    ensures r.Some? && twin == Js ==> owner == Id(r.value) && r.value != 0
    ensures r.None? ==> forall i :: 0 <= i < |corps| && Matches(corps[i], owner, twin) ==> twin == Js && corps[i] == 0
    decreases |corps|
  {
    if |corps| == 0 then None
    else if Matches(corps[0], owner, twin) then (if twin == Js && corps[0] == 0 then None else Some(corps[0]))
    else FindCorp(corps[1..], owner, twin)
  }

  predicate Matches(c: Entity, owner: Owner, twin: Twin)
  {
    match twin
    case Ts => owner == Text(IntText(c))
    case Js => owner == Id(c)
  }

  /** Production credits, read as 0 when the key is missing (an undefined
      read gives NaN, which then fails the `> 0` test the same way). */
  function Credits(eco: EconomySystem.Economy): real
  {
    EconomySystem.Get(eco.production, "credits")
  }

  /** Whether the economy entity `e` pays tax this tick, and to whom. */
  predicate Taxed(realm: Realm, e: Entity)
  {
    e in realm.economies && e in realm.owners && Truthy(realm.owners[e])
    && e in realm.claims && Truthy(realm.claims[e].ownerId)
    && realm.claims[e].ownerId != realm.owners[e]
    && Credits(realm.economies[e]) * realm.claims[e].taxRate > 0.0
  }

  /** The second phase for one economy entity. */
  function TaxOne(realm: Realm, e: Entity, corps: seq<Entity>, twin: Twin): (r: Realm)
    ensures r.claims == realm.claims && r.owners == realm.owners
    ensures r.economies.Keys == realm.economies.Keys && r.treasury.Keys == realm.treasury.Keys
    ensures !Taxed(realm, e) ==> r == realm
  {
    if !Taxed(realm, e) then realm
    else
      var eco := realm.economies[e];
      var tax := Credits(eco) * realm.claims[e].taxRate;
      var paid := realm.(economies := realm.economies[e := eco.(production := eco.production["credits" := Credits(eco) - tax])]);
      match FindCorp(corps, realm.claims[e].ownerId.value, twin)
      case Some(c) => if c in paid.treasury then paid.(treasury := paid.treasury[c := paid.treasury[c] + tax]) else paid
      case None => paid
  }

  /** A taxed economy loses exactly the tax from its credits production
      and nothing else; its stocks and other production keys are kept; the
      matched corporation (if any) gains exactly the tax and every other
      treasury is unchanged. */
  lemma TaxMoves(realm: Realm, e: Entity, corps: seq<Entity>, twin: Twin, tax: real)
    requires Taxed(realm, e) && tax == Credits(realm.economies[e]) * realm.claims[e].taxRate
    ensures var r := TaxOne(realm, e, corps, twin);
      var eco := realm.economies[e];
      && r.economies[e].stock == eco.stock
      && Credits(r.economies[e]) == Credits(eco) - tax
      && (forall k :: k != "credits" ==> EconomySystem.Get(r.economies[e].production, k) == EconomySystem.Get(eco.production, k))
      && (forall x :: x in realm.economies && x != e ==> r.economies[x] == realm.economies[x])
      && (forall c :: c in realm.treasury ==>
            r.treasury[c] == realm.treasury[c] + (if FindCorp(corps, realm.claims[e].ownerId.value, twin) == Some(c) then tax else 0.0))
  {
  }

  /** The tax is only moved, never created: the payer's credits plus the
      payee's treasury are unchanged. When no corporation matches, the
      tax is lost. */
  lemma TaxConserved(realm: Realm, e: Entity, corps: seq<Entity>, twin: Twin, c: Entity)
    requires Taxed(realm, e) && c in realm.treasury
    requires FindCorp(corps, realm.claims[e].ownerId.value, twin) == Some(c)
    ensures var r := TaxOne(realm, e, corps, twin);
      Credits(r.economies[e]) + r.treasury[c] == Credits(realm.economies[e]) + realm.treasury[c]
  {
    TaxMoves(realm, e, corps, twin, Credits(realm.economies[e]) * realm.claims[e].taxRate);
  }

  /** The second phase over the economy entities in query order. */
  function TaxAll(realm: Realm, econ: seq<Entity>, corps: seq<Entity>, twin: Twin): (r: Realm)
    ensures r.claims == realm.claims && r.owners == realm.owners
    ensures r.economies.Keys == realm.economies.Keys && r.treasury.Keys == realm.treasury.Keys
    decreases |econ|
  {
    if |econ| == 0 then realm else TaxAll(TaxOne(realm, econ[0], corps, twin), econ[1..], corps, twin)
  }

  /** The tax economy `e` pays this tick, 0 when it is not taxed. */
  function Due(realm: Realm, e: Entity): real
  {
    if Taxed(realm, e) then Credits(realm.economies[e]) * realm.claims[e].taxRate else 0.0
  }

  /** The tax the listed economies pay to corporation `c`, summed in list
      order. */
  function PaidTo(realm: Realm, econ: seq<Entity>, corps: seq<Entity>, twin: Twin, c: Entity): real
    decreases |econ|
  {
    if |econ| == 0 then 0.0
    else
      var e := econ[0];
      (if Taxed(realm, e) && FindCorp(corps, realm.claims[e].ownerId.value, twin) == Some(c) then Due(realm, e) else 0.0)
      + PaidTo(realm, econ[1..], corps, twin, c)
  }

  /** Two realms that agree on the claims, the owners and economy `x`. */
  predicate AgreeAt(realm: Realm, other: Realm, x: Entity)
  {
    && realm.claims == other.claims && realm.owners == other.owners
    && (x in realm.economies <==> x in other.economies)
    && (x in realm.economies ==> realm.economies[x] == other.economies[x])
  }

  /** The payments of the listed economies read only those economies,
      the claims and the owners. */
  lemma {:induction false} PaidToReads(realm: Realm, other: Realm, econ: seq<Entity>, corps: seq<Entity>, twin: Twin, c: Entity)
    requires forall i :: 0 <= i < |econ| ==> AgreeAt(realm, other, econ[i])
    ensures PaidTo(realm, econ, corps, twin, c) == PaidTo(other, econ, corps, twin, c)
    decreases |econ|
  {
    if |econ| > 0 {
      assert AgreeAt(realm, other, econ[0]);
      PaidToReads(realm, other, econ[1..], corps, twin, c);
    }
  }

  /** Taxing one economy leaves every other economy's standing alone. */
  lemma TaxOneAgrees(realm: Realm, e: Entity, corps: seq<Entity>, twin: Twin, x: Entity)
    requires x != e
    ensures AgreeAt(TaxOne(realm, e, corps, twin), realm, x)
  {
  }

  /** With the economy list free of repeats, the tax loop leaves every
      listed economy as taxing it alone would, and every unlisted one as
      it was. */
  lemma {:induction false} TaxAllEconomy(realm: Realm, econ: seq<Entity>, corps: seq<Entity>, twin: Twin, e: Entity)
    requires forall p, q :: 0 <= p < q < |econ| ==> econ[p] != econ[q]
    requires e in realm.economies
    ensures TaxAll(realm, econ, corps, twin).economies[e]
         == if e in econ then TaxOne(realm, e, corps, twin).economies[e] else realm.economies[e]
    decreases |econ|
  {
    if |econ| > 0 {
      var head, rest := econ[0], econ[1..];
      var next := TaxOne(realm, head, corps, twin);
      DistinctTail(econ);
      TaxAllEconomy(next, rest, corps, twin, e);
      if e == head {
        HeadNotInTail(econ);
      } else {
        assert e in econ <==> e in rest;
        TaxOneAgrees(realm, head, corps, twin, e);
        TaxOneReads(next, realm, e, corps, twin);
      }
    }
  }

  lemma DistinctTail(econ: seq<Entity>)
    requires |econ| > 0 && forall p, q :: 0 <= p < q < |econ| ==> econ[p] != econ[q]
    ensures forall p, q :: 0 <= p < q < |econ[1..]| ==> econ[1..][p] != econ[1..][q]
  {
    forall p, q | 0 <= p < q < |econ[1..]| ensures econ[1..][p] != econ[1..][q] {
      assert econ[1..][p] == econ[p + 1] && econ[1..][q] == econ[q + 1];
    }
  }

  lemma HeadNotInTail(econ: seq<Entity>)
    requires |econ| > 0 && forall p, q :: 0 <= p < q < |econ| ==> econ[p] != econ[q]
    ensures econ[0] !in econ[1..]
  {
    forall p | 0 <= p < |econ[1..]| ensures econ[1..][p] != econ[0] {
      assert econ[1..][p] == econ[p + 1];
    }
  }

  /** What taxing an economy does to it reads only that economy, the
      claims and the owners. */
  lemma TaxOneReads(realm: Realm, other: Realm, e: Entity, corps: seq<Entity>, twin: Twin)
    requires AgreeAt(realm, other, e) && e in realm.economies
    ensures TaxOne(realm, e, corps, twin).economies[e] == TaxOne(other, e, corps, twin).economies[e]
  {
    assert Taxed(realm, e) == Taxed(other, e);
    if Taxed(realm, e) {
      TaxOnePays(realm, e, corps, twin);
      TaxOnePays(other, e, corps, twin);
    }
  }

  /** Taxing one economy pays its tax to the corporation it matches and
      to no other. */
  lemma TaxOneTreasury(realm: Realm, e: Entity, corps: seq<Entity>, twin: Twin, c: Entity)
    requires c in realm.treasury
    ensures TaxOne(realm, e, corps, twin).treasury[c] == realm.treasury[c]
      + (if Taxed(realm, e) && FindCorp(corps, realm.claims[e].ownerId.value, twin) == Some(c) then Due(realm, e) else 0.0)
  {
    if Taxed(realm, e) {
      TaxMoves(realm, e, corps, twin, Due(realm, e));
    }
  }

  /** With the economy list free of repeats, each corporation's treasury
      grows by exactly the taxes the listed economies owe it. */
  lemma {:induction false} TaxAllTreasury(realm: Realm, econ: seq<Entity>, corps: seq<Entity>, twin: Twin, c: Entity)
    requires forall p, q :: 0 <= p < q < |econ| ==> econ[p] != econ[q]
    requires c in realm.treasury
    ensures TaxAll(realm, econ, corps, twin).treasury[c] == realm.treasury[c] + PaidTo(realm, econ, corps, twin, c)
    decreases |econ|
  {
    if |econ| > 0 {
      var head := econ[0];
      var rest := econ[1..];
      var next := TaxOne(realm, head, corps, twin);
      DistinctTail(econ);
      TaxOneTreasury(realm, head, corps, twin, c);
      TaxAllTreasury(next, rest, corps, twin, c);
      forall i | 0 <= i < |rest| ensures AgreeAt(next, realm, rest[i]) {
        assert rest[i] == econ[i + 1];
        TaxOneAgrees(realm, head, corps, twin, rest[i]);
      }
      PaidToReads(next, realm, rest, corps, twin, c);
    }
  }

  /** Growth changes none of the taxes. */
  lemma {:induction false} PaidToGrown(realm: Realm, listed: set<Entity>, dt: real, econ: seq<Entity>, corps: seq<Entity>, twin: Twin, c: Entity)
    ensures PaidTo(realm.(claims := GrowAll(realm.claims, listed, dt)), econ, corps, twin, c) == PaidTo(realm, econ, corps, twin, c)
    decreases |econ|
  {
    if |econ| > 0 {
      GrowKeepsTaxed(realm, listed, dt, econ[0]);
      PaidToGrown(realm, listed, dt, econ[1..], corps, twin, c);
    }
  }

  /** A whole tick's taxes on one economy: with the economy list free of
      repeats, a listed economy is taxed once, exactly as it would be
      before growth, and an unlisted one is untouched. */
  lemma TickTaxesEconomy(realm: Realm, dt: real, listed: set<Entity>, econ: seq<Entity>, corps: seq<Entity>, twin: Twin, e: Entity)
    requires forall p, q :: 0 <= p < q < |econ| ==> econ[p] != econ[q]
    requires e in realm.economies
    ensures Tick(realm, dt, listed, econ, corps, twin).economies[e]
         == if e in econ then TaxOne(realm, e, corps, twin).economies[e] else realm.economies[e]
  {
    var grown := realm.(claims := GrowAll(realm.claims, listed, dt));
    TaxAllEconomy(grown, econ, corps, twin, e);
    TaxOneGrown(realm, listed, dt, e, corps, twin);
  }

  /** Growth leaves what taxing an economy does to it. */
  lemma TaxOneGrown(realm: Realm, listed: set<Entity>, dt: real, e: Entity, corps: seq<Entity>, twin: Twin)
    requires e in realm.economies
    ensures TaxOne(realm.(claims := GrowAll(realm.claims, listed, dt)), e, corps, twin).economies[e] == TaxOne(realm, e, corps, twin).economies[e]
  {
    var grown := realm.(claims := GrowAll(realm.claims, listed, dt));
    GrowKeepsTaxed(realm, listed, dt, e);
    if Taxed(realm, e) {
      assert grown.claims[e].taxRate == realm.claims[e].taxRate;
      TaxOnePays(realm, e, corps, twin);
      TaxOnePays(grown, e, corps, twin);
    }
  }

  /** A taxed economy's credits production loses the tax, whichever
      corporation is paid. */
  lemma TaxOnePays(realm: Realm, e: Entity, corps: seq<Entity>, twin: Twin)
    requires Taxed(realm, e)
    ensures var eco := realm.economies[e];
      TaxOne(realm, e, corps, twin).economies[e]
        == eco.(production := eco.production["credits" := Credits(eco) - Credits(eco) * realm.claims[e].taxRate])
  {
    var eco := realm.economies[e];
    var tax := Credits(eco) * realm.claims[e].taxRate;
    var paid := realm.(economies := realm.economies[e := eco.(production := eco.production["credits" := Credits(eco) - tax])]);
    match FindCorp(corps, realm.claims[e].ownerId.value, twin)
    case Some(c) =>
      assert TaxOne(realm, e, corps, twin).economies == paid.economies;
    case None =>
      assert TaxOne(realm, e, corps, twin) == paid;
  }

  /** A whole tick's taxes on one treasury: with the economy list free
      of repeats, it grows by exactly the taxes owed to its corporation. */
  lemma TickTaxesTreasury(realm: Realm, dt: real, listed: set<Entity>, econ: seq<Entity>, corps: seq<Entity>, twin: Twin, c: Entity)
    requires forall p, q :: 0 <= p < q < |econ| ==> econ[p] != econ[q]
    requires c in realm.treasury
    ensures Tick(realm, dt, listed, econ, corps, twin).treasury[c] == realm.treasury[c] + PaidTo(realm, econ, corps, twin, c)
  {
    var grown := realm.(claims := GrowAll(realm.claims, listed, dt));
    TaxAllTreasury(grown, econ, corps, twin, c);
    PaidToGrown(realm, listed, dt, econ, corps, twin, c);
  }

  /** A whole tick: `listed`, `econ` and `corps` are the entity lists the
      world query returns for Sovereignty, Economy and Corporation. */
  function Tick(realm: Realm, dt: real, listed: set<Entity>, econ: seq<Entity>, corps: seq<Entity>, twin: Twin): (r: Realm)
    ensures r.owners == realm.owners
    ensures r.claims == GrowAll(realm.claims, listed, dt)
  {
    TaxAll(realm.(claims := GrowAll(realm.claims, listed, dt)), econ, corps, twin)
  }

  /** Growth never changes who owns a territory, so taxation decisions
      after growth are those before it. */
  lemma GrowKeepsTaxed(realm: Realm, listed: set<Entity>, dt: real, e: Entity)
    ensures Taxed(realm.(claims := GrowAll(realm.claims, listed, dt)), e) <==> Taxed(realm, e)
  {
  }

  /** With owner ids stored as strings, as the component type declares,
      the JavaScript twin's strict comparison never matches a numeric
      corporation id, so every tax it collects is lost; the TypeScript
      twin pays the corporation whose id prints as the owner string. */
  lemma JsLosesStringOwnedTax(corps: seq<Entity>, s: string)
    ensures FindCorp(corps, Text(s), Js) == None
    ensures FindCorp(corps, Text(s), Ts).Some? <==> exists i :: 0 <= i < |corps| && IntText(corps[i]) == s
  {
    if FindCorp(corps, Text(s), Ts).None? {
      forall i | 0 <= i < |corps| ensures IntText(corps[i]) != s {
        assert !Matches(corps[i], Text(s), Ts);
      }
    }
  }

  /** Both twins deduct the same credits; they differ only in which
      treasury, if any, receives the tax. */
  lemma TwinsDeductAlike(realm: Realm, e: Entity, corps: seq<Entity>)
    ensures TaxOne(realm, e, corps, Ts).economies == TaxOne(realm, e, corps, Js).economies
  {
  }
}
