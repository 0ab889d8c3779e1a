/**
 * Enumeration order of a plain JavaScript object used as a dictionary.
 *
 * `Object.keys`, `Object.values` and `Object.entries` list the keys that are
 * array indices (canonical decimal numerals below 2^32 - 1) first, in
 * ascending numeric order, and every other key after them, in the order in
 * which it was first added. The composer groups by billing code into such an
 * object, and the codes ("97535", "97110", ...) are array indices, so this
 * order decides the order of the paragraphs and the tie-breaks of the counts.
 */
module JsKeys {
  import opened Text

  predicate IsDigit(c: char)
  {
    '0' <= c <= '9'
  }

  predicate AllDigits(s: string)
  {
    forall i :: 0 <= i < |s| ==> IsDigit(s[i])
  }

  /** The number a string of decimal digits denotes. */
  function DecimalValue(s: string): nat
    requires AllDigits(s)
  {
    if s == [] then 0
    else 10 * DecimalValue(s[..|s| - 1]) + (s[|s| - 1] as int - '0' as int)
  }

  /** A key the engine treats as an array index: the canonical numeral of an
      integer below 2^32 - 1 (no sign, no leading zero except "0" itself). */
  predicate IsArrayIndex(k: string)
  {
    && |k| > 0
    && AllDigits(k)
    && (k[0] != '0' || |k| == 1)
    && DecimalValue(k) < 0xFFFF_FFFF
  }

  /** Every array index is listed before any later array index of larger or
      equal value, and before every other key. */
  predicate InKeyOrder(keys: seq<string>)
  {
    forall i, j :: 0 <= i < j < |keys| && IsArrayIndex(keys[j]) ==>
      IsArrayIndex(keys[i]) && DecimalValue(keys[i]) <= DecimalValue(keys[j])
  }

  /** The keys that are not array indices, in their listed order. */
  function OtherKeys(keys: seq<string>): (r: seq<string>)
    ensures forall x :: x in r <==> x in keys && !IsArrayIndex(x)
  {
    if keys == [] then []
    else
      var last := keys[|keys| - 1];
      OtherKeys(keys[..|keys| - 1]) + (if IsArrayIndex(last) then [] else [last])
  }

  lemma OtherKeysAppend(a: seq<string>, b: seq<string>)
    ensures OtherKeys(a + b) == OtherKeys(a) + OtherKeys(b)
  {
    if b != [] {
      assert (a + b)[..|a + b| - 1] == a + b[..|b| - 1];
      OtherKeysAppend(a, b[..|b| - 1]);
    } else {
      assert a + b == a;
    }
  }

  /** Where an array-index key lands when it is added: after the smaller indices. */
  function InsertIndex(keys: seq<string>, k: string): (r: seq<string>)
    requires IsArrayIndex(k)
    ensures |r| == |keys| + 1
    ensures forall x :: x in r <==> x in keys || x == k
  {
    if keys != [] && IsArrayIndex(keys[0]) && DecimalValue(keys[0]) < DecimalValue(k) then
      [keys[0]] + InsertIndex(keys[1..], k)
    else
      [k] + keys
  }

  lemma {:induction false} InsertIndexDistinct(keys: seq<string>, k: string)
    requires IsArrayIndex(k)
    ensures Distinct(keys) && k !in keys ==> Distinct(InsertIndex(keys, k))
  {
    if !(Distinct(keys) && k !in keys) {
    } else if keys != [] && IsArrayIndex(keys[0]) && DecimalValue(keys[0]) < DecimalValue(k) {
      var rest := InsertIndex(keys[1..], k);
      InsertIndexDistinct(keys[1..], k);
      assert keys[0] !in keys[1..];
      assert keys[0] !in rest;
      var r := [keys[0]] + rest;
      forall i, j | 0 <= i < j < |r| ensures r[i] != r[j] {
        if i > 0 {
          assert r[i] == rest[i - 1] && r[j] == rest[j - 1];
        } else {
          assert r[j] in rest;
        }
      }
    }
  }

  lemma {:induction false} InsertIndexOthers(keys: seq<string>, k: string)
    requires IsArrayIndex(k)
    ensures OtherKeys(InsertIndex(keys, k)) == OtherKeys(keys)
  {
    if keys != [] && IsArrayIndex(keys[0]) && DecimalValue(keys[0]) < DecimalValue(k) {
      var rest := InsertIndex(keys[1..], k);
      InsertIndexOthers(keys[1..], k);
      assert keys == [keys[0]] + keys[1..];
      OtherKeysAppend([keys[0]], keys[1..]);
      OtherKeysAppend([keys[0]], rest);
    } else {
      OtherKeysAppend([k], keys);
      assert OtherKeys([k]) == [];
    }
  }

  lemma {:induction false} InsertIndexInOrder(keys: seq<string>, k: string)
    requires IsArrayIndex(k)
    ensures InKeyOrder(keys) ==> InKeyOrder(InsertIndex(keys, k))
  {
    var r := InsertIndex(keys, k);
    if !InKeyOrder(keys) {
    } else if keys != [] && IsArrayIndex(keys[0]) && DecimalValue(keys[0]) < DecimalValue(k) {
      var rest := InsertIndex(keys[1..], k);
      InsertIndexInOrder(keys[1..], k);
      assert r == [keys[0]] + rest;
      forall j | 0 < j < |r| && IsArrayIndex(r[j])
        ensures DecimalValue(keys[0]) <= DecimalValue(r[j])
      {
        assert r[j] == rest[j - 1];
        assert r[j] in rest;
        if r[j] != k {
          assert r[j] in keys[1..];
          var m :| 0 <= m < |keys[1..]| && keys[1..][m] == r[j];
          assert keys[m + 1] == r[j];
        }
      }
      assert InKeyOrder(r);
    } else {
      assert r == [k] + keys;
      forall j | 0 < j < |r| && IsArrayIndex(r[j])
        ensures DecimalValue(k) <= DecimalValue(r[j])
      {
        assert r[j] == keys[j - 1];
        assert IsArrayIndex(keys[0]) && DecimalValue(keys[0]) <= DecimalValue(keys[j - 1]);
      }
      assert InKeyOrder(r);
    }
  }

  /** Where a key lands when it is added to an object that lacks it. */
  function InsertKey(keys: seq<string>, k: string): (r: seq<string>)
    ensures |r| == |keys| + 1
    ensures forall x :: x in r <==> x in keys || x == k
    ensures Distinct(keys) && k !in keys ==> Distinct(r)
    ensures InKeyOrder(keys) ==> InKeyOrder(r)
    ensures OtherKeys(r) == OtherKeys(keys) + (if IsArrayIndex(k) then [] else [k])
  {
    if IsArrayIndex(k) then
      InsertIndexInOrder(keys, k);
      InsertIndexOthers(keys, k);
      InsertIndexDistinct(keys, k);
      InsertIndex(keys, k)
    else
      OtherKeysAppend(keys, [k]);
      keys + [k]
  }

  /** `Object.keys` of an object whose keys were assigned in the order `xs`
      (repetitions included). */
  function KeyOrder(xs: seq<string>): (r: seq<string>)
    ensures forall x :: x in r <==> x in xs
    ensures Distinct(r)
    ensures InKeyOrder(r)
  {
    if xs == [] then []
    else
      var keys := KeyOrder(xs[..|xs| - 1]);
      var x := xs[|xs| - 1];
      if x in keys then keys else InsertKey(keys, x)
  }

  lemma KeyOrderSnoc(xs: seq<string>, x: string)
    ensures KeyOrder(xs + [x]) == if x in KeyOrder(xs) then KeyOrder(xs) else InsertKey(KeyOrder(xs), x)
  {
    assert (xs + [x])[..|xs|] == xs;
  }

  /** The keys that are not array indices keep the order in which they were
      first assigned. */
  lemma {:induction false} KeyOrderOthers(xs: seq<string>)
    ensures OtherKeys(KeyOrder(xs)) == Dedup(OtherKeys(xs))
  {
    if xs != [] {
      var init := xs[..|xs| - 1];
      var x := xs[|xs| - 1];
      assert xs == init + [x];
      KeyOrderOthers(init);
      OtherKeysAppend(init, [x]);
      if !IsArrayIndex(x) {
        assert OtherKeys(xs) == OtherKeys(init) + [x];
        DedupSnoc(OtherKeys(init), x);
      } else {
        assert OtherKeys(xs) == OtherKeys(init);
      }
    }
  }

  /** When no key is an array index, enumeration order is first-assignment order. */
  lemma {:induction false} KeyOrderNoIndices(xs: seq<string>)
    requires forall x :: x in xs ==> !IsArrayIndex(x)
    ensures KeyOrder(xs) == Dedup(xs)
  {
    if xs != [] {
      var init := xs[..|xs| - 1];
      var x := xs[|xs| - 1];
      assert xs == init + [x];
      KeyOrderNoIndices(init);
      DedupSnoc(init, x);
    }
  }

  /** A plain object used as a dictionary: its keys in enumeration order and
      the value stored under each. */
  datatype Record<V> = Record(keys: seq<string>, entries: map<string, V>)
  {
    ghost predicate Valid()
    {
      && Distinct(keys)
      && InKeyOrder(keys)
      && (forall k :: k in entries <==> k in keys)
    }

    /** `obj[k] = v`. */
    function Set(k: string, v: V): (r: Record<V>)
      requires Valid()
      ensures r.Valid()
      ensures r.entries == entries[k := v]
      ensures r.keys == if k in entries then keys else InsertKey(keys, k)
    {
      if k in entries then Record(keys, entries[k := v])
      else Record(InsertKey(keys, k), entries[k := v])
    }

    /** `Object.values(obj)`. */
    function Values(): (vs: seq<V>)
      requires Valid()
      ensures |vs| == |keys|
      ensures forall i :: 0 <= i < |keys| ==> vs[i] == entries[keys[i]]
    {
      seq(|keys|, i requires 0 <= i < |keys| => entries[keys[i]])
    }
  }

  /** Assigning `obj[k]` on an object whose keys were assigned in the order
      `xs` gives the key order of `xs` followed by `k`. */
  lemma SetKeyOrder<V>(r: Record<V>, xs: seq<string>, k: string, v: V)
    requires r.Valid() && r.keys == KeyOrder(xs)
    ensures (k in r.entries <==> k in xs)
    ensures r.Set(k, v).keys == KeyOrder(xs + [k])
  {
    assert k in r.entries <==> k in KeyOrder(xs);
    KeyOrderSnoc(xs, k);
  }

  /** `{}`. */
  function EmptyRecord<V>(): (r: Record<V>)
    ensures r.Valid() && r.keys == []
  {
    Record([], map[])
  }
}
