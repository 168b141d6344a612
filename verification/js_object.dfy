/** Plain JavaScript objects used as string-keyed maps, with the order in
    which `Object.values`/`Object.entries` enumerate their own properties
    (OrdinaryOwnPropertyKeys, section 10.1.11.1 of ECMA-262): array-index
    keys first in ascending numeric order, then the other keys in the order
    they were first created. */
module JsObject {
  import opened Decimal

  /** `keys` lists the own properties in enumeration order. */
  datatype Object<V> = Object(keys: seq<string>, props: map<string, V>)

  /** An array index: the canonical numeral of an integer below 2^32 - 1. */
  predicate IsArrayIndex(k: string) {
    IsCanonical(k) && DecimalValue(k) < 0xFFFF_FFFF
  }

  /** The keys are distinct, are exactly the properties, and are in enumeration order. */
  ghost predicate Valid<V>(o: Object<V>) {
    && (forall i, j :: 0 <= i < j < |o.keys| ==> o.keys[i] != o.keys[j])
    && (forall k :: k in o.props <==> k in o.keys)
    && (forall i, j :: 0 <= i < j < |o.keys| && IsArrayIndex(o.keys[j]) ==>
          IsArrayIndex(o.keys[i]) && DecimalValue(o.keys[i]) < DecimalValue(o.keys[j]))
  }

  function Empty<V>(): (o: Object<V>)
    ensures Valid(o) && o.keys == []
  {
    Object([], map[])
  }

  /** Where a new array-index key goes: after every array-index key with a smaller value. */
  function IndexPosition(keys: seq<string>, k: string): (p: nat)
    requires IsArrayIndex(k)
    ensures p <= |keys|
    ensures forall i :: 0 <= i < p ==> IsArrayIndex(keys[i]) && DecimalValue(keys[i]) < DecimalValue(k)
    ensures p < |keys| ==> !IsArrayIndex(keys[p]) || DecimalValue(k) <= DecimalValue(keys[p])
  {
    if |keys| == 0 || !IsArrayIndex(keys[0]) || DecimalValue(k) <= DecimalValue(keys[0]) then 0
    else 1 + IndexPosition(keys[1..], k)
  }

  /** `o[k] = v` (CreateDataProperty): an existing key keeps its place; a new
      key is placed where the enumeration order puts it. */
  function Put<V>(o: Object<V>, k: string, v: V): (r: Object<V>)
    requires Valid(o)
    ensures Valid(r)
    ensures r.props == o.props[k := v]
    ensures k in o.props ==> r.keys == o.keys
    ensures k !in o.props ==> exists p :: 0 <= p <= |o.keys| && r.keys == o.keys[..p] + [k] + o.keys[p..]
    ensures k !in o.props && !IsArrayIndex(k) ==> r.keys == o.keys + [k]
  {
    if k in o.props then
      Object(o.keys, o.props[k := v])
    else if IsArrayIndex(k) then
      var p := IndexPosition(o.keys, k);
      var keys := o.keys[..p] + [k] + o.keys[p..];
      PutIndexValid(o, k, p, keys);
      InsertedKeyValid(o, k, v, p, keys);
      Object(keys, o.props[k := v])
    else
      PutNameValid(o, k, v);
      Object(o.keys + [k], o.props[k := v])
  }

  /** A new key spliced in at p, with the key list still distinct and in
      enumeration order, gives a well-formed object. */
  lemma InsertedKeyValid<V>(o: Object<V>, k: string, v: V, p: nat, keys: seq<string>)
    requires Valid(o) && k !in o.props && p <= |o.keys|
    requires keys == o.keys[..p] + [k] + o.keys[p..]
    requires forall i, j :: 0 <= i < j < |keys| ==> keys[i] != keys[j]
    requires forall i, j :: 0 <= i < j < |keys| && IsArrayIndex(keys[j]) ==>
               IsArrayIndex(keys[i]) && DecimalValue(keys[i]) < DecimalValue(keys[j])
    ensures Valid(Object(keys, o.props[k := v]))
  {
    assert o.keys == o.keys[..p] + o.keys[p..];
    forall x
      ensures x in o.props[k := v] <==> x in keys
    {
      assert x in keys <==> x in o.keys[..p] || x == k || x in o.keys[p..];
    }
  }

  /** A new key that is not an array index goes last. */
  lemma PutNameValid<V>(o: Object<V>, k: string, v: V)
    requires Valid(o) && k !in o.props && !IsArrayIndex(k)
    ensures Valid(Object(o.keys + [k], o.props[k := v]))
    ensures o.keys + [k] == o.keys[..|o.keys|] + [k] + o.keys[|o.keys|..]
  {
    var keys := o.keys + [k];
    assert k !in o.keys;
    forall i, j | 0 <= i < j < |keys|
      ensures keys[i] != keys[j]
    {
      if j < |o.keys| {
        assert keys[i] == o.keys[i] && keys[j] == o.keys[j];
      } else {
        assert keys[i] == o.keys[i];
      }
    }
    forall i, j | 0 <= i < j < |keys| && IsArrayIndex(keys[j])
      ensures IsArrayIndex(keys[i]) && DecimalValue(keys[i]) < DecimalValue(keys[j])
    {
      assert j < |o.keys|;
      assert keys[i] == o.keys[i] && keys[j] == o.keys[j];
    }
  }

  lemma PutIndexValid<V>(o: Object<V>, k: string, p: nat, keys: seq<string>)
    requires Valid(o) && k !in o.props && IsArrayIndex(k)
    requires p == IndexPosition(o.keys, k) && keys == o.keys[..p] + [k] + o.keys[p..]
    ensures forall i, j :: 0 <= i < j < |keys| ==> keys[i] != keys[j]
    ensures forall i, j :: 0 <= i < j < |keys| && IsArrayIndex(keys[j]) ==>
              IsArrayIndex(keys[i]) && DecimalValue(keys[i]) < DecimalValue(keys[j])
  {
    PutIndexDistinct(o, k, p, keys);
    PutIndexOrdered(o, k, p, keys);
  }

  /** Position i of the spliced key list holds old key i before p, k at p,
      and old key i - 1 after p. */
  lemma Splice(oldKeys: seq<string>, k: string, p: nat, keys: seq<string>)
    requires p <= |oldKeys| && keys == oldKeys[..p] + [k] + oldKeys[p..]
    ensures |keys| == |oldKeys| + 1 && keys[p] == k
    ensures forall i :: 0 <= i < p ==> keys[i] == oldKeys[i]
    ensures forall i :: p < i < |keys| ==> keys[i] == oldKeys[i - 1]
  {
  }

  lemma PutIndexDistinct<V>(o: Object<V>, k: string, p: nat, keys: seq<string>)
    requires Valid(o) && k !in o.props && p <= |o.keys|
    requires keys == o.keys[..p] + [k] + o.keys[p..]
    ensures forall i, j :: 0 <= i < j < |keys| ==> keys[i] != keys[j]
  {
    Splice(o.keys, k, p, keys);
    assert k !in o.keys;
    forall i, j | 0 <= i < j < |keys|
      ensures keys[i] != keys[j]
    {
      if j < p || i > p {
      } else if j == p || i == p {
      } else {
        assert keys[i] == o.keys[i] && keys[j] == o.keys[j - 1];
      }
    }
  }

  lemma PutIndexOrdered<V>(o: Object<V>, k: string, p: nat, keys: seq<string>)
    requires Valid(o) && k !in o.props && IsArrayIndex(k)
    requires p == IndexPosition(o.keys, k) && keys == o.keys[..p] + [k] + o.keys[p..]
    ensures forall i, j :: 0 <= i < j < |keys| && IsArrayIndex(keys[j]) ==>
              IsArrayIndex(keys[i]) && DecimalValue(keys[i]) < DecimalValue(keys[j])
  {
    Splice(o.keys, k, p, keys);
    LaterIndexKeysLarger(o, k, p);
    forall i, j | 0 <= i < j < |keys| && IsArrayIndex(keys[j])
      ensures IsArrayIndex(keys[i]) && DecimalValue(keys[i]) < DecimalValue(keys[j])
    {
      if j < p {
      } else if j == p {
      } else if i < p {
        assert keys[i] == o.keys[i] && keys[j] == o.keys[j - 1];
      } else if i == p {
      } else {
        assert keys[i] == o.keys[i - 1] && keys[j] == o.keys[j - 1];
      }
    }
  }

  /** Every array-index key from position p on is larger than the new key k. */
  lemma LaterIndexKeysLarger<V>(o: Object<V>, k: string, p: nat)
    requires Valid(o) && k !in o.props && IsArrayIndex(k)
    requires p == IndexPosition(o.keys, k)
    ensures forall i :: p <= i < |o.keys| && IsArrayIndex(o.keys[i]) ==> DecimalValue(k) < DecimalValue(o.keys[i])
  {
    forall i | p <= i < |o.keys| && IsArrayIndex(o.keys[i])
      ensures DecimalValue(k) < DecimalValue(o.keys[i])
    {
      assert IsArrayIndex(o.keys[p]);
      assert DecimalValue(k) <= DecimalValue(o.keys[p]);
      if i > p {
        assert DecimalValue(o.keys[p]) < DecimalValue(o.keys[i]);
      }
      assert o.keys[i] in o.keys;
      DecimalInjective(k, o.keys[i]);
    }
  }

  /** `Object.values(o)`. */
  function Values<V>(o: Object<V>): (vs: seq<V>)
    requires Valid(o)
    ensures |vs| == |o.keys|
    ensures forall i :: 0 <= i < |vs| ==> vs[i] == o.props[o.keys[i]]
  {
    seq(|o.keys|, i requires 0 <= i < |o.keys| => o.props[o.keys[i]])
  }

  /** `Object.entries(o)`. */
  function Entries<V>(o: Object<V>): (es: seq<(string, V)>)
    requires Valid(o)
    ensures |es| == |o.keys|
    ensures forall i :: 0 <= i < |es| ==> es[i] == (o.keys[i], o.props[o.keys[i]])
  {
    seq(|o.keys|, i requires 0 <= i < |o.keys| => (o.keys[i], o.props[o.keys[i]]))
  }

  /** `Object.fromEntries(es)`: the entries are stored one after another. */
  function FromEntries<V>(es: seq<(string, V)>): (o: Object<V>)
    ensures Valid(o)
  {
    if |es| == 0 then Empty()
    else Put(FromEntries(es[..|es| - 1]), es[|es| - 1].0, es[|es| - 1].1)
  }

  /** The keys of the object built from entries are exactly the entries' keys. */
  lemma {:induction false} FromEntriesKeys<V>(es: seq<(string, V)>)
    ensures forall k :: k in FromEntries(es).props <==> exists i :: 0 <= i < |es| && es[i].0 == k
  {
    if |es| > 0 {
      var init := es[..|es| - 1];
      FromEntriesKeys(init);
      assert forall i :: 0 <= i < |init| ==> init[i] == es[i];
      forall k | k in FromEntries(es).props
        ensures exists i :: 0 <= i < |es| && es[i].0 == k
      {
        if k != es[|es| - 1].0 {
          var i :| 0 <= i < |init| && init[i].0 == k;
          assert es[i].0 == k;
        }
      }
    }
  }

  /** Every property of the object built from entries holds a value that was
      paired with its key. */
  lemma {:induction false} FromEntriesValues<V>(es: seq<(string, V)>)
    ensures forall k :: k in FromEntries(es).props ==> (k, FromEntries(es).props[k]) in es
  {
    if |es| > 0 {
      var init := es[..|es| - 1];
      var last := es[|es| - 1];
      FromEntriesValues(init);
      var prev := FromEntries(init);
      var o := FromEntries(es);
      forall k | k in o.props
        ensures (k, o.props[k]) in es
      {
        if k != last.0 {
          assert (k, prev.props[k]) in init;
          var i :| 0 <= i < |init| && init[i] == (k, prev.props[k]);
          assert es[i] == (k, o.props[k]);
        }
      }
    }
  }

  /** When keys repeat, the last entry with a key is the one the object keeps. */
  lemma {:induction false} FromEntriesLastWins<V>(es: seq<(string, V)>, i: nat)
    requires i < |es|
    requires forall j :: i < j < |es| ==> es[j].0 != es[i].0
    ensures es[i].0 in FromEntries(es).props && FromEntries(es).props[es[i].0] == es[i].1
  {
    if i < |es| - 1 {
      var init := es[..|es| - 1];
      assert init[i] == es[i];
      assert forall j :: i < j < |init| ==> init[j] == es[j];
      FromEntriesLastWins(init, i);
    }
  }
}
