/** The delta-snapshot network protocol: the server keeps the last snapshot
    sent to each player and sends either the whole snapshot, only the
    top-level keys that changed, or nothing. Values are JavaScript values;
    arrays and objects carry a reference so that `===` can compare them by
    identity, as the source does. The MessagePack encoder is a parameter
    that only reports encoded sizes. */
module Protocol {
  import opened Wrappers
  import opened NumberText
  import opened JsCollections

  /** A JavaScript value. `ref` is the identity of an array or object. */
  datatype JsValue =
    | Undef
    | Null
    | Bool(b: bool)
    | Num(n: real)
    | NaN
    | Str(s: string)
    | Arr(ref: nat, items: seq<JsValue>)
    | Obj(ref: nat, fields: seq<Field>)

  /** One own property of an object, in key order. */
  datatype Field = Field(key: string, value: JsValue)

  /** A snapshot: the own properties of a top-level object. */
  type Snapshot = seq<Field>

  function Keys(fs: seq<Field>): (r: seq<string>)
    ensures |r| == |fs|
    ensures forall i :: 0 <= i < |fs| ==> r[i] == fs[i].key
  {
    if |fs| == 0 then [] else [fs[0].key] + Keys(fs[1..])
  }

  /** The keys of a prefix of `fs` past its first field are that field's
      key followed by the keys of the matching prefix of the rest. */
  lemma KeysPrefixCons(fs: seq<Field>, i: int)
    requires 1 <= i <= |fs|
    ensures Keys(fs[..i]) == [fs[0].key] + Keys(fs[1..][..i - 1])
  {
    var a, b := Keys(fs[..i]), [fs[0].key] + Keys(fs[1..][..i - 1]);
    assert |a| == |b|;
    forall j | 0 <= j < |a| ensures a[j] == b[j] {
      if j > 0 { assert fs[1..][..i - 1][j - 1] == fs[j]; }
    }
  }

  /** `obj[key]`: the first property with that key, `undefined` if none. */
  function Lookup(fs: seq<Field>, k: string): (r: JsValue)
    ensures k !in Keys(fs) ==> r == Undef
  {
    if |fs| == 0 then Undef
    else if fs[0].key == k then fs[0].value
    else
      assert Keys(fs) == [fs[0].key] + Keys(fs[1..]);
      Lookup(fs[1..], k)
  }

  /** `obj[key]` reads the first property with that key. */
  lemma {:induction false} LookupFirst(fs: seq<Field>, k: string, i: int)
    requires 0 <= i < |fs| && fs[i].key == k && k !in Keys(fs[..i])
    ensures Lookup(fs, k) == fs[i].value
  {
    if i > 0 {
      assert fs[0].key != k by { assert Keys(fs[..i])[0] == fs[0].key; }
      KeysPrefixCons(fs, i);
      assert fs[1..][i - 1] == fs[i];
      LookupFirst(fs[1..], k, i - 1);
    }
  }

  /** JavaScript truthiness. */
  predicate Truthy(v: JsValue)
  {
    match v
    case Undef => false
    case Null => false
    case Bool(b) => b
    case Num(n) => n != 0.0
    case NaN => false
    case Str(s) => s != ""
    case Arr(_, _) => true
    case Obj(_, _) => true
  }

  /** `===`: primitives by value (NaN equals nothing), arrays and objects
      by identity. */
  predicate StrictEq(a: JsValue, b: JsValue)
  {
    match (a, b)
    case (Undef, Undef) => true
    case (Null, Null) => true
    case (Bool(x), Bool(y)) => x == y
    case (Num(x), Num(y)) => x == y
    case (Str(x), Str(y)) => x == y
    case (Arr(r, _), Arr(q, _)) => r == q
    case (Obj(r, _), Obj(q, _)) => r == q
    case _ => false
  }

  /** The array index a property key names: the canonical decimal text of
      a whole number. */
  function Index(k: string): (r: Option<nat>)
    ensures r.Some? ==> ToDecimal(r.value) == k
  {
    if |k| > 0 && forall i :: 0 <= i < |k| ==> '0' <= k[i] <= '9' then
      var n := ParseDecimal(k);
      if ToDecimal(n) == k then Some(n) else None
    else None
  }

  lemma IndexOfDecimal(n: nat)
    ensures Index(ToDecimal(n)) == Some(n)
  {
    ParseToDecimal(n);
  }

  /** `v[k]` for the own properties the protocol can meet: object fields,
      array and string elements and their `length`. */
  function Prop(v: JsValue, k: string): JsValue
  {
    match v
    case Obj(_, fs) => Lookup(fs, k)
    case Arr(_, xs) =>
      if k == "length" then Num(|xs| as real)
      else (match Index(k) case Some(i) => if i < |xs| then xs[i] else Undef case None => Undef)
    case Str(s) =>
      if k == "length" then Num(|s| as real)
      else (match Index(k) case Some(i) => if i < |s| then Str([s[i]]) else Undef case None => Undef)
    case _ => Undef
  }

  function IndexKeys(n: nat): (r: seq<string>)
    ensures |r| == n
    ensures forall i :: 0 <= i < n ==> r[i] == ToDecimal(i)
  {
    if n == 0 then [] else IndexKeys(n - 1) + [ToDecimal(n - 1)]
  }

  /** `Object.keys(v)`. */
  function OwnKeys(v: JsValue): seq<string>
  {
    match v
    case Obj(_, fs) => Keys(fs)
    case Arr(_, xs) => IndexKeys(|xs|)
    case Str(s) => IndexKeys(|s|)
    case _ => []
  }

  /** `arraysEqual(a, b)` once the lengths agree. */
  predicate ArraysEqual(a: JsValue, ys: seq<JsValue>)
  {
    forall i :: 0 <= i < |ys| ==> StrictEq(Prop(a, ToDecimal(i)), ys[i])
  }

  /** `objectsEqual(a, b)`: as many keys, and every key of `a` holds a
      `===` value in `b`. */
  predicate ObjectsEqual(a: JsValue, b: JsValue)
  {
    var ks := OwnKeys(a);
    |ks| == |OwnKeys(b)| && forall i :: 0 <= i < |ks| ==> StrictEq(Prop(a, ks[i]), Prop(b, ks[i]))
  }

  /** Whether `calculateDelta` counts a key as changed, as written: the
      new value's kind picks the comparison. */
  predicate ChangedAsWritten(prev: JsValue, cur: JsValue)
  {
    match cur
    case Arr(_, ys) => !Truthy(prev) || !StrictEq(Prop(prev, "length"), Num(|ys| as real)) || !ArraysEqual(prev, ys)
    case Obj(_, _) => !Truthy(prev) || !ObjectsEqual(prev, cur)
    case _ => !StrictEq(prev, cur)
  }

  /** Structural equality, references ignored and NaN equal to itself, the
      equality the protocol's tests expect. */
  predicate DeepEq(a: JsValue, b: JsValue)
    decreases a
  {
    match (a, b)
    case (NaN, NaN) => true
    case (Arr(_, xs), Arr(_, ys)) => |xs| == |ys| && DeepEqSeq(xs, ys)
    case (Obj(_, fs), Obj(_, gs)) => |fs| == |gs| && DeepEqFields(fs, gs)
    case (Arr(_, _), _) => false
    case (Obj(_, _), _) => false
    case _ => a == b
  }

  predicate DeepEqSeq(xs: seq<JsValue>, ys: seq<JsValue>)
    requires |xs| == |ys|
    decreases xs
  {
    |xs| == 0 || (DeepEq(xs[0], ys[0]) && DeepEqSeq(xs[1..], ys[1..]))
  }

  predicate DeepEqFields(fs: seq<Field>, gs: seq<Field>)
    requires |fs| == |gs|
    decreases fs
  {
    |fs| == 0 || (fs[0].key == gs[0].key && DeepEq(fs[0].value, gs[0].value) && DeepEqFields(fs[1..], gs[1..]))
  }

  lemma {:induction false} DeepEqRefl(a: JsValue)
    ensures DeepEq(a, a)
    decreases a
  {
    match a
    case Arr(_, xs) => DeepEqSeqRefl(xs);
    case Obj(_, fs) => DeepEqFieldsRefl(fs);
    case _ =>
  }

  lemma {:induction false} DeepEqSeqRefl(xs: seq<JsValue>)
    ensures DeepEqSeq(xs, xs)
    decreases xs
  {
    if |xs| > 0 {
      DeepEqRefl(xs[0]);
      DeepEqSeqRefl(xs[1..]);
    }
  }

  lemma {:induction false} DeepEqFieldsRefl(fs: seq<Field>)
    ensures DeepEqFields(fs, fs)
    decreases fs
  {
    if |fs| > 0 {
      DeepEqRefl(fs[0].value);
      DeepEqFieldsRefl(fs[1..]);
    }
  }

  /** How a key is judged changed: as the source writes it, or by the
      structural equality its tests expect. */
  datatype Equality = AsWritten | Structural

  predicate Changed(prev: JsValue, cur: JsValue, eq: Equality)
  {
    match eq
    case AsWritten => ChangedAsWritten(prev, cur)
    case Structural => !DeepEq(prev, cur)
  }

  /** The fields of `cur`, in order, that `changed` flags against the
      value `prev` holds under the same key. */
  function KeepChanged(prev: Snapshot, cur: Snapshot, changed: (JsValue, JsValue) -> bool): (r: Snapshot)
    ensures |r| <= |cur|
    ensures forall i :: 0 <= i < |r| ==> r[i] in cur && changed(Lookup(prev, r[i].key), r[i].value)
    ensures forall i :: 0 <= i < |cur| && changed(Lookup(prev, cur[i].key), cur[i].value) ==> cur[i] in r
    ensures Subsequence(r, cur)
  {
    if |cur| == 0 then []
    else
      var rest := KeepChanged(prev, cur[1..], changed);
      assert forall i :: 1 <= i < |cur| ==> cur[i] == cur[1..][i - 1];
      if changed(Lookup(prev, cur[0].key), cur[0].value) then
        assert ([cur[0]] + rest)[1..] == rest;
        [cur[0]] + rest
      else
        assert |rest| > 0 ==> rest[0] != cur[0];
        rest
  }

  /** Filtering keeps keys unique. */
  lemma {:induction false} KeepChangedUnique(prev: Snapshot, cur: Snapshot, changed: (JsValue, JsValue) -> bool)
    requires Unique(cur)
    ensures Unique(KeepChanged(prev, cur, changed))
    decreases |cur|
  {
    if |cur| > 0 {
      var rest := KeepChanged(prev, cur[1..], changed);
      assert Unique(cur[1..]) by {
        assert forall i :: 1 <= i < |cur| ==> cur[i] == cur[1..][i - 1];
      }
      KeepChangedUnique(prev, cur[1..], changed);
      forall j | 0 <= j < |rest| ensures rest[j].key != cur[0].key {
        var c :| 0 <= c < |cur[1..]| && cur[1..][c] == rest[j];
        assert cur[c + 1] == rest[j];
      }
    }
  }

  /** Nothing flagged, nothing kept. */
  lemma {:induction false} KeepChangedNone(prev: Snapshot, cur: Snapshot, changed: (JsValue, JsValue) -> bool)
    requires forall i :: 0 <= i < |cur| ==> !changed(Lookup(prev, cur[i].key), cur[i].value)
    ensures KeepChanged(prev, cur, changed) == []
    decreases |cur|
  {
    if |cur| > 0 {
      assert forall i :: 1 <= i < |cur| ==> cur[i] == cur[1..][i - 1];
      KeepChangedNone(prev, cur[1..], changed);
    }
  }

  /** A key of `cur` is kept exactly when flagged, with `cur`'s value. */
  lemma KeepChangedHasKey(prev: Snapshot, cur: Snapshot, changed: (JsValue, JsValue) -> bool, k: string)
    requires Unique(cur) && k in Keys(cur)
    ensures var d := KeepChanged(prev, cur, changed);
      (k in Keys(d) <==> changed(Lookup(prev, k), Lookup(cur, k)))
      && (k in Keys(d) ==> Lookup(d, k) == Lookup(cur, k))
  {
    var d := KeepChanged(prev, cur, changed);
    var i :| 0 <= i < |cur| && cur[i].key == k;
    LookupUnique(cur, i);
    if k in Keys(d) {
      KeptField(prev, cur, changed, i);
    }
    if changed(Lookup(prev, k), Lookup(cur, k)) {
      KeyOfField(d, cur[i]);
    }
  }

  /** The kept field with the key of `cur[i]` is `cur[i]` itself. */
  lemma KeptField(prev: Snapshot, cur: Snapshot, changed: (JsValue, JsValue) -> bool, i: nat)
    requires Unique(cur) && i < |cur| && cur[i].key in Keys(KeepChanged(prev, cur, changed))
    ensures Lookup(KeepChanged(prev, cur, changed), cur[i].key) == cur[i].value
    ensures changed(Lookup(prev, cur[i].key), cur[i].value)
  {
    var d := KeepChanged(prev, cur, changed);
    KeepChangedUnique(prev, cur, changed);
    var j :| 0 <= j < |d| && d[j].key == cur[i].key;
    LookupUnique(d, j);
    assert d[j] in cur && changed(Lookup(prev, d[j].key), d[j].value);
    var c :| 0 <= c < |cur| && cur[c] == d[j];
    assert cur[c].key == cur[i].key;
    assert c == i;
  }

  function ChangedFn(eq: Equality): (JsValue, JsValue) -> bool
  {
    (a, b) => Changed(a, b, eq)
  }

  /** `calculateDelta(old, new)`. */
  function Delta(prev: Snapshot, cur: Snapshot, eq: Equality): (r: Snapshot)
    ensures forall i :: 0 <= i < |r| ==> r[i] in cur
  {
    KeepChanged(prev, cur, ChangedFn(eq))
  }

  /** `applyDelta(base, delta)`: a shallow merge. Keys of `base` keep
      their place and take the delta's value when it has one; the delta's
      other keys follow in order. The TypeScript spread and the JavaScript
      copy-then-assign loop build the same object. */
  function ApplyDelta(base: Snapshot, delta: Snapshot): (r: Snapshot)
    ensures |r| >= |base| && forall i :: 0 <= i < |base| ==> r[i].key == base[i].key
    ensures forall k :: k in Keys(r) <==> k in Keys(base) || k in Keys(delta)
  {
    var o, f := Overlay(base, delta), Fresh(base, delta);
    MergedKeys(base, delta, o, f);
    o + f
  }

  lemma KeysAppend(a: seq<Field>, b: seq<Field>)
    ensures Keys(a + b) == Keys(a) + Keys(b)
  {
    var l, r := Keys(a + b), Keys(a) + Keys(b);
    assert forall i :: 0 <= i < |l| ==> l[i] == r[i];
  }

  /** The keys of a merge are those of the base and those of the delta. */
  lemma MergedKeys(base: Snapshot, delta: Snapshot, o: Snapshot, f: Snapshot)
    requires o == Overlay(base, delta) && f == Fresh(base, delta)
    ensures forall k :: k in Keys(o + f) <==> k in Keys(base) || k in Keys(delta)
  {
    KeysAppend(o, f);
    FreshKeys(base, delta);
    assert Keys(o + f) == Keys(base) + Keys(f);
  }

  lemma FreshKeys(base: Snapshot, delta: Snapshot)
    ensures forall k :: k in Keys(Fresh(base, delta)) <==> k in Keys(delta) && k !in Keys(base)
  {
    var f := Fresh(base, delta);
    forall k | k in Keys(f) ensures k in Keys(delta) {
      var j :| 0 <= j < |f| && Keys(f)[j] == k;
      var i :| 0 <= i < |delta| && delta[i] == f[j];
      assert Keys(delta)[i] == k;
    }
    forall k | k in Keys(delta) && k !in Keys(base) ensures k in Keys(f) {
      var i :| 0 <= i < |delta| && Keys(delta)[i] == k;
      var j :| 0 <= j < |f| && f[j] == delta[i];
      assert Keys(f)[j] == k;
    }
  }

  function Overlay(base: Snapshot, delta: Snapshot): (r: Snapshot)
    ensures Keys(r) == Keys(base)
    ensures forall i :: 0 <= i < |base| ==>
      r[i].value == (if base[i].key in Keys(delta) then Lookup(delta, base[i].key) else base[i].value)
  {
    if |base| == 0 then []
    else
      var f := base[0];
      [if f.key in Keys(delta) then Field(f.key, Lookup(delta, f.key)) else f] + Overlay(base[1..], delta)
  }

  predicate Unique(fs: seq<Field>)
  {
    forall i, j :: 0 <= i < j < |fs| ==> fs[i].key != fs[j].key
  }

  function Fresh(base: Snapshot, delta: Snapshot): (r: Snapshot)
    ensures forall i :: 0 <= i < |r| ==> r[i] in delta && r[i].key !in Keys(base)
    ensures forall i :: 0 <= i < |delta| && delta[i].key !in Keys(base) ==> delta[i] in r
    ensures Unique(delta) ==> Unique(r)
  {
    if |delta| == 0 then []
    else
      var rest := Fresh(base, delta[1..]);
      assert forall i :: 1 <= i < |delta| ==> delta[i] == delta[1..][i - 1];
      assert Unique(delta) ==> Unique(delta[1..]);
      if delta[0].key in Keys(base) then rest
      else
        assert Unique(delta) ==> forall j :: 0 <= j < |rest| ==> rest[j].key != delta[0].key;
        [delta[0]] + rest
  }

  /** In a snapshot with unique keys, reading a field's key gives that
      field's value. */
  lemma LookupUnique(fs: Snapshot, i: nat)
    requires Unique(fs) && i < |fs|
    ensures Lookup(fs, fs[i].key) == fs[i].value
  {
    var k := fs[i].key;
    var pre := Keys(fs[..i]);
    assert k !in pre by {
      forall j | 0 <= j < |pre| ensures pre[j] != k {
        assert pre[j] == fs[j].key;
      }
    }
    LookupFirst(fs, k, i);
  }

  lemma {:induction false} LookupAppend(a: Snapshot, b: Snapshot, k: string)
    ensures Lookup(a + b, k) == if k in Keys(a) then Lookup(a, k) else Lookup(b, k)
    decreases |a|
  {
    if |a| > 0 {
      assert (a + b)[1..] == a[1..] + b;
      LookupAppend(a[1..], b, k);
      assert Keys(a) == [a[0].key] + Keys(a[1..]);
    } else {
      assert a + b == b;
    }
  }

  lemma OverlayUnique(base: Snapshot, delta: Snapshot)
    requires Unique(base)
    ensures Unique(Overlay(base, delta))
  {
    var o := Overlay(base, delta);
    assert forall a :: 0 <= a < |o| ==> o[a].key == Keys(o)[a] == Keys(base)[a] == base[a].key;
  }

  /** Reading a key after a merge: the delta's value if it has the key,
      the base's otherwise. */
  lemma ApplyDeltaLookup(base: Snapshot, delta: Snapshot, k: string)
    requires Unique(base) && Unique(delta)
    ensures Lookup(ApplyDelta(base, delta), k) == if k in Keys(delta) then Lookup(delta, k) else Lookup(base, k)
  {
    var o, f := Overlay(base, delta), Fresh(base, delta);
    LookupAppend(o, f, k);
    if k in Keys(base) {
      OverlayAt(base, delta, k);
    } else {
      assert k !in Keys(o);
      FreshAt(base, delta, k);
    }
  }

  lemma OverlayAt(base: Snapshot, delta: Snapshot, k: string)
    requires Unique(base) && k in Keys(base)
    ensures k in Keys(Overlay(base, delta))
    ensures Lookup(Overlay(base, delta), k) == if k in Keys(delta) then Lookup(delta, k) else Lookup(base, k)
  {
    var o := Overlay(base, delta);
    var i :| 0 <= i < |base| && base[i].key == k;
    LookupUnique(base, i);
    OverlayUnique(base, delta);
    assert o[i].key == Keys(o)[i] == k;
    LookupUnique(o, i);
  }

  lemma FreshAt(base: Snapshot, delta: Snapshot, k: string)
    requires Unique(delta) && k !in Keys(base)
    ensures Lookup(Fresh(base, delta), k) == Lookup(delta, k)
  {
    var f := Fresh(base, delta);
    if k in Keys(delta) {
      var i :| 0 <= i < |delta| && delta[i].key == k;
      LookupUnique(delta, i);
      assert delta[i] in f;
      var j :| 0 <= j < |f| && f[j] == delta[i];
      LookupUnique(f, j);
    } else {
      forall j | 0 <= j < |f| ensures Keys(f)[j] != k {
        var i :| 0 <= i < |delta| && delta[i] == f[j];
        assert Keys(delta)[i] == f[j].key;
      }
    }
  }

  lemma KeyOfField(fs: Snapshot, x: Field)
    requires x in fs
    ensures x.key in Keys(fs)
  {
    var i :| 0 <= i < |fs| && fs[i] == x;
    assert Keys(fs)[i] == x.key;
  }

  /** A key of the new snapshot is in the delta exactly when it changed. */
  lemma DeltaHasKey(prev: Snapshot, cur: Snapshot, eq: Equality, k: string)
    requires Unique(cur) && k in Keys(cur)
    ensures var d := Delta(prev, cur, eq);
      (k in Keys(d) <==> Changed(Lookup(prev, k), Lookup(cur, k), eq))
      && (k in Keys(d) ==> Lookup(d, k) == Lookup(cur, k))
  {
    KeepChangedHasKey(prev, cur, ChangedFn(eq), k);
  }

  /** When no key changed the delta is empty. */
  lemma DeltaEmpty(prev: Snapshot, cur: Snapshot, eq: Equality)
    requires forall i :: 0 <= i < |cur| ==> !Changed(Lookup(prev, cur[i].key), cur[i].value, eq)
    ensures Delta(prev, cur, eq) == []
  {
    KeepChangedNone(prev, cur, ChangedFn(eq));
  }

  /** Applying the delta to the snapshot it was computed from: every key
      of the new snapshot holds the new value if it changed and keeps the
      old one otherwise; keys the new snapshot dropped keep their old
      value, since a delta never deletes. */
  lemma RoundTrip(prev: Snapshot, cur: Snapshot, eq: Equality, k: string)
    requires Unique(prev) && Unique(cur)
    ensures var r := ApplyDelta(prev, Delta(prev, cur, eq));
      && (k in Keys(cur) ==>
            Lookup(r, k) == if Changed(Lookup(prev, k), Lookup(cur, k), eq) then Lookup(cur, k) else Lookup(prev, k))
      && (k !in Keys(cur) ==> Lookup(r, k) == Lookup(prev, k))
  {
    var d := Delta(prev, cur, eq);
    KeepChangedUnique(prev, cur, ChangedFn(eq));
    ApplyDeltaLookup(prev, d, k);
    if k in Keys(cur) {
      DeltaHasKey(prev, cur, eq, k);
    }
  }

  /** With structural equality the round trip is exact: every key of the
      new snapshot reads back a value structurally equal to the new one. */
  lemma StructuralRoundTrip(prev: Snapshot, cur: Snapshot, k: string)
    requires Unique(prev) && Unique(cur) && k in Keys(cur)
    ensures DeepEq(Lookup(ApplyDelta(prev, Delta(prev, cur, Structural)), k), Lookup(cur, k))
  {
    RoundTrip(prev, cur, Structural, k);
    DeepEqRefl(Lookup(cur, k));
  }

  /** As written, `===` compares nested arrays and objects by identity: a
      list of entities rebuilt with equal contents is sent again, where the
      structural comparison the tests expect sends nothing. */
  lemma RebuiltArrayResent()
    ensures var prev := [Field("entities", Arr(1, [Obj(2, [Field("id", Num(1.0))])]))];
      var cur := [Field("entities", Arr(3, [Obj(4, [Field("id", Num(1.0))])]))];
      Delta(prev, cur, AsWritten) == cur && Delta(prev, cur, Structural) == []
  {
    var prev := [Field("entities", Arr(1, [Obj(2, [Field("id", Num(1.0))])]))];
    var cur := [Field("entities", Arr(3, [Obj(4, [Field("id", Num(1.0))])]))];
    IndexOfDecimal(0);
    assert ToDecimal(0) == "0";
    assert Lookup(prev, "entities") == prev[0].value;
    assert !StrictEq(Prop(prev[0].value, ToDecimal(0)), cur[0].value.items[0]);
    assert ChangedAsWritten(prev[0].value, cur[0].value);
    assert DeepEqFields([Field("id", Num(1.0))], [Field("id", Num(1.0))]);
    assert DeepEqSeq(prev[0].value.items, cur[0].value.items);
    assert !Changed(prev[0].value, cur[0].value, Structural);
  }

  /** A string under a key that now holds an array of its one-character
      strings counts as unchanged: `length` and indexing work on both. */
  lemma StringPassesForArray()
    ensures !ChangedAsWritten(Str("ab"), Arr(7, [Str("a"), Str("b")]))
  {
    IndexOfDecimal(0);
    IndexOfDecimal(1);
    assert ToDecimal(0) == "0" && ToDecimal(1) == "1";
    assert Prop(Str("ab"), "0") == Str("a");
    assert Prop(Str("ab"), "1") == Str("b");
  }
}
