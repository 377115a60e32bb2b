/** The order in which `Object.entries` lists the own properties of a plain
    JavaScript object (section 10.1.11.1, OrdinaryOwnPropertyKeys, of ECMAScript):
    first the keys that are array indices, in ascending numeric order, then the
    other string keys in the order the properties were created. */
module PropertyOrder {

  /** The largest array index, 2^32 - 2. */
  const MaxArrayIndex: nat := 4294967294

  predicate IsDigit(c: char) {
    '0' <= c <= '9'
  }

  predicate AllDigits(s: string) {
    forall i :: 0 <= i < |s| ==> IsDigit(s[i])
  }

  /** The number a string of decimal digits denotes. */
  function DecimalValue(s: string): nat
    requires AllDigits(s)
  {
    if |s| == 0 then 0
    else DecimalValue(s[..|s| - 1]) * 10 + (s[|s| - 1] as int - '0' as int)
  }

  /** A key is an array index when it is the canonical decimal form (no leading
      zero) of an integer between 0 and 2^32 - 2. */
  predicate IsArrayIndex(key: string) {
    && |key| > 0
    && AllDigits(key)
    && (key[0] == '0' ==> |key| == 1)
    && DecimalValue(key) <= MaxArrayIndex
  }

  predicate AllArrayIndices(keys: seq<string>) {
    forall i :: 0 <= i < |keys| ==> IsArrayIndex(keys[i])
  }

  predicate AscendingIndices(keys: seq<string>) {
    && AllArrayIndices(keys)
    && forall i, j :: 0 <= i < j < |keys| ==> DecimalValue(keys[i]) <= DecimalValue(keys[j])
  }

  /** Inserts an array-index key into a sequence of them sorted by value. */
  function InsertByIndex(key: string, sorted: seq<string>): (r: seq<string>)
    requires IsArrayIndex(key) && AscendingIndices(sorted)
    ensures multiset(r) == multiset(sorted) + multiset{key}
    ensures forall i :: 0 <= i < |r| ==> r[i] == key || r[i] in sorted
    ensures AscendingIndices(r)
  {
    if |sorted| == 0 then [key]
    else if DecimalValue(key) <= DecimalValue(sorted[0]) then
      AscendingCons(key, sorted);
      [key] + sorted
    else
      var rest := InsertByIndex(key, sorted[1..]);
      assert sorted == [sorted[0]] + sorted[1..];
      HeadBelowRest(key, sorted, rest);
      AscendingCons(sorted[0], rest);
      [sorted[0]] + rest
  }

  /** The head of an ascending sequence is no greater than any key of its tail,
      nor than a larger key inserted there. */
  lemma HeadBelowRest(key: string, sorted: seq<string>, rest: seq<string>)
    requires |sorted| > 0 && IsArrayIndex(key) && AscendingIndices(sorted)
    requires DecimalValue(sorted[0]) < DecimalValue(key)
    requires forall i :: 0 <= i < |rest| ==> rest[i] == key || rest[i] in sorted[1..]
    ensures forall i :: 0 <= i < |rest| ==> DecimalValue(sorted[0]) <= DecimalValue(rest[i])
  {
    forall i | 0 <= i < |rest|
      ensures DecimalValue(sorted[0]) <= DecimalValue(rest[i])
    {
      if rest[i] != key {
        var j :| 0 <= j < |sorted[1..]| && sorted[1..][j] == rest[i];
        assert sorted[j + 1] == rest[i];
      }
    }
  }

  /** A key no greater than every key of an ascending sequence can be put in front. */
  lemma AscendingCons(key: string, sorted: seq<string>)
    requires IsArrayIndex(key) && AscendingIndices(sorted)
    requires forall i :: 0 <= i < |sorted| ==> DecimalValue(key) <= DecimalValue(sorted[i])
    ensures AscendingIndices([key] + sorted)
  {
    var r := [key] + sorted;
    forall i, j | 0 <= i < j < |r| ensures DecimalValue(r[i]) <= DecimalValue(r[j]) {
      assert r[j] == sorted[j - 1];
      if i > 0 {
        assert r[i] == sorted[i - 1];
      }
    }
  }

  function SortByIndex(keys: seq<string>): (r: seq<string>)
    requires AllArrayIndices(keys)
    ensures multiset(r) == multiset(keys)
    ensures AscendingIndices(r)
  {
    if |keys| == 0 then []
    else
      assert keys == [keys[0]] + keys[1..];
      InsertByIndex(keys[0], SortByIndex(keys[1..]))
  }

  /** The keys that are (index == true) or are not (index == false) array
      indices, in their original order. */
  function KeysWhere(keys: seq<string>, index: bool): (r: seq<string>)
    ensures forall i :: 0 <= i < |r| ==> IsArrayIndex(r[i]) == index
  {
    if |keys| == 0 then []
    else (if IsArrayIndex(keys[0]) == index then [keys[0]] else []) + KeysWhere(keys[1..], index)
  }

  /** Each selected key is kept as often as it occurs; the others are dropped. */
  lemma {:induction false} KeysWhereCount(keys: seq<string>, index: bool, k: string)
    ensures multiset(KeysWhere(keys, index))[k] == if IsArrayIndex(k) == index then multiset(keys)[k] else 0
  {
    if |keys| > 0 {
      assert keys == [keys[0]] + keys[1..];
      KeysWhereCount(keys[1..], index, k);
    }
  }

  /** Array indices sorted by value, followed by keys that are not array
      indices, put every array index before every other key, in ascending order. */
  lemma IndicesFirst(indices: seq<string>, named: seq<string>)
    requires AscendingIndices(indices)
    requires forall i :: 0 <= i < |named| ==> !IsArrayIndex(named[i])
    ensures forall i, j :: 0 <= i < j < |indices + named| && IsArrayIndex((indices + named)[j]) ==>
      IsArrayIndex((indices + named)[i]) && DecimalValue((indices + named)[i]) <= DecimalValue((indices + named)[j])
  {
    var r := indices + named;
    forall i, j | 0 <= i < j < |r| && IsArrayIndex(r[j])
      ensures IsArrayIndex(r[i]) && DecimalValue(r[i]) <= DecimalValue(r[j])
    {
      assert r[i] == indices[i] && r[j] == indices[j];
    }
  }

  /** The order in which `Object.entries` visits the own keys of an object whose
      keys were created in the order `keys`: the same keys, each as often. */
  function EnumerationOrder(keys: seq<string>): (r: seq<string>)
    ensures multiset(r) == multiset(keys)
  {
    var indexKeys := KeysWhere(keys, true);
    var named := KeysWhere(keys, false);
    var indices := SortByIndex(indexKeys);
    assert multiset(indices) + multiset(named) == multiset(keys) by {
      forall k ensures multiset(indexKeys)[k] + multiset(named)[k] == multiset(keys)[k] {
        KeysWhereCount(keys, true, k);
        KeysWhereCount(keys, false, k);
      }
    }
    indices + named
  }

  /** In enumeration order every array index comes before every other key, and
      array indices come in ascending numeric order. */
  lemma EnumerationOrderIndicesFirst(keys: seq<string>)
    ensures var r := EnumerationOrder(keys);
      forall i, j :: 0 <= i < j < |r| && IsArrayIndex(r[j]) ==>
        IsArrayIndex(r[i]) && DecimalValue(r[i]) <= DecimalValue(r[j])
  {
    IndicesFirst(SortByIndex(KeysWhere(keys, true)), KeysWhere(keys, false));
  }

  /** Keys that are not array indices keep their creation order. */
  lemma EnumerationOrderNamedKeys(keys: seq<string>)
    ensures var r := EnumerationOrder(keys);
      r[|r| - |KeysWhere(keys, false)|..] == KeysWhere(keys, false)
  {
  }

  /** Selecting keys respects concatenation, so the selected keys keep the
      relative order they had. */
  lemma {:induction false} KeysWhereConcat(a: seq<string>, b: seq<string>, index: bool)
    ensures KeysWhere(a + b, index) == KeysWhere(a, index) + KeysWhere(b, index)
  {
    if |a| == 0 {
      assert a + b == b;
    } else {
      var ab := a + b;
      assert ab[0] == a[0] && ab[1..] == a[1..] + b;
      KeysWhereConcat(a[1..], b, index);
    }
  }

  /** Keys that all have the requested status are all selected, in order. */
  lemma {:induction false} KeysWhereAll(keys: seq<string>, index: bool)
    requires forall i :: 0 <= i < |keys| ==> IsArrayIndex(keys[i]) == index
    ensures KeysWhere(keys, index) == keys
    ensures KeysWhere(keys, !index) == []
  {
    if |keys| > 0 {
      KeysWhereAll(keys[1..], index);
    }
  }

  /** An object none of whose keys is an array index is enumerated in exactly
      the order its keys were created. */
  lemma EnumerationOrderNoIndices(keys: seq<string>)
    requires forall i :: 0 <= i < |keys| ==> !IsArrayIndex(keys[i])
    ensures EnumerationOrder(keys) == keys
  {
    KeysWhereAll(keys, false);
    assert SortByIndex([]) == [];
  }
}
