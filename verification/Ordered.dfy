/** Maps kept as a vector of ascending keys beside a vector of values. */
module Ordered {
  import opened Wrappers

  datatype Map<V> = Map(keys: seq<int>, values: seq<V>)

  ghost predicate Ascending(keys: seq<int>) {
    forall i, j :: 0 <= i < j < |keys| ==> keys[i] < keys[j]
  }

  ghost predicate SortedByKey<V>(items: seq<(int, V)>) {
    forall i, j :: 0 <= i < j < |items| ==> items[i].0 <= items[j].0
  }

  /** The value of the first item with key k. */
  function FirstValue<V>(items: seq<(int, V)>, k: int): Option<V> {
    if items == [] then None else if items[0].0 == k then Some(items[0].1) else FirstValue(items[1..], k)
  }

  lemma {:induction false} FirstValueMeaning<V>(items: seq<(int, V)>, k: int)
    ensures FirstValue(items, k).None? <==> forall i :: 0 <= i < |items| ==> items[i].0 != k
    ensures FirstValue(items, k).Some? ==>
      exists i :: 0 <= i < |items| && items[i] == (k, FirstValue(items, k).value) &&
        forall j :: 0 <= j < i ==> items[j].0 != k
  {
    if items != [] && items[0].0 != k {
      var rest := items[1..];
      FirstValueMeaning(rest, k);
      if FirstValue(rest, k).Some? {
        var i :| 0 <= i < |rest| && rest[i] == (k, FirstValue(rest, k).value) &&
          forall j :: 0 <= j < i ==> rest[j].0 != k;
        assert items[i + 1] == rest[i];
        assert forall j :: 1 <= j < i + 1 ==> items[j] == rest[j - 1];
      } else {
        assert forall i :: 1 <= i < |items| ==> items[i] == rest[i - 1];
      }
    } else if items != [] {
      assert items[0] == (k, FirstValue(items, k).value);
    }
  }

  // ---------- The stable sort ----------

  function Insert<V>(items: seq<(int, V)>, item: (int, V)): seq<(int, V)> {
    if items == [] then [item]
    else if items[0].0 <= item.0 then [items[0]] + Insert(items[1..], item)
    else [item] + items
  }

  /** `sort_by` on the keys, stable. */
  function SortByKey<V>(items: seq<(int, V)>): seq<(int, V)> {
    if items == [] then [] else Insert(SortByKey(items[..|items| - 1]), items[|items| - 1])
  }

  lemma {:induction false} InsertSorted<V>(items: seq<(int, V)>, item: (int, V), low: int)
    requires SortedByKey(items) && low <= item.0 && forall i :: 0 <= i < |items| ==> low <= items[i].0
    ensures SortedByKey(Insert(items, item))
    ensures forall i :: 0 <= i < |Insert(items, item)| ==> low <= Insert(items, item)[i].0
  {
    if items != [] && items[0].0 <= item.0 {
      InsertSorted(items[1..], item, items[0].0);
    }
  }

  lemma {:induction false} InsertFirst<V>(items: seq<(int, V)>, item: (int, V), k: int)
    requires SortedByKey(items)
    ensures FirstValue(Insert(items, item), k) ==
            if FirstValue(items, k).Some? then FirstValue(items, k) else if item.0 == k then Some(item.1) else None
  {
    if items == [] {
      assert [item][1..] == [];
    } else if items[0].0 <= item.0 {
      InsertFirst(items[1..], item, k);
    } else {
      assert ([item] + items)[1..] == items;
      if item.0 == k { AbsentBelow(items, k); }
    }
  }

  lemma {:induction false} AbsentBelow<V>(items: seq<(int, V)>, k: int)
    requires forall i :: 0 <= i < |items| ==> items[i].0 > k
    ensures FirstValue(items, k) == None
  {
    if items != [] { AbsentBelow(items[1..], k); }
  }

  lemma {:induction false} FirstAppend<V>(items: seq<(int, V)>, item: (int, V), k: int)
    ensures FirstValue(items + [item], k) ==
            if FirstValue(items, k).Some? then FirstValue(items, k) else if item.0 == k then Some(item.1) else None
  {
    if items == [] {
      assert (items + [item])[1..] == [];
    } else {
      assert (items + [item])[1..] == items[1..] + [item];
      FirstAppend(items[1..], item, k);
    }
  }

  /** Sorting keeps, for every key, the first value. */
  lemma {:induction false} SortKeeps<V>(items: seq<(int, V)>, k: int)
    ensures SortedByKey(SortByKey(items))
    ensures FirstValue(SortByKey(items), k) == FirstValue(items, k)
  {
    if items != [] {
      var front, last := items[..|items| - 1], items[|items| - 1];
      SortKeeps(front, k);
      var sorted := SortByKey(front);
      InsertSorted(sorted, last, if sorted != [] && sorted[0].0 < last.0 then sorted[0].0 else last.0);
      InsertFirst(SortByKey(front), last, k);
      FirstAppend(front, last, k);
      assert front + [last] == items;
    }
  }

  // ---------- Building and reading a map ----------

  /** The map of a list of pairs: ascending keys, each with the value of its first pair. */
  ghost predicate MapOf<V>(m: Map<V>, items: seq<(int, V)>) {
    |m.keys| == |m.values| && Ascending(m.keys) &&
    (forall k :: FirstValue(items, k).Some? ==> k in m.keys) &&
    (forall i :: 0 <= i < |m.keys| ==> FirstValue(items, m.keys[i]) == Some(m.values[i]))
  }

  /** Sort by key, drop all but the first of equal keys, and split into keys and values. */
  method FromIterDedup<V>(iter: seq<(int, V)>) returns (m: Map<V>)
    ensures MapOf(m, iter)
  {
    hide SortByKey, FirstValue;
    var items := SortByKey(iter);
    SortKeeps(iter, 0);
    var deduped := Dedup(items);
    m := Split(deduped);
    forall k
      ensures FirstValue(deduped, k) == FirstValue(iter, k)
    {
      SortKeeps(iter, k);
    }
    MapOfSame(m, deduped, iter);
  }

  lemma MapOfSame<V>(m: Map<V>, a: seq<(int, V)>, b: seq<(int, V)>)
    requires MapOf(m, a) && forall k :: FirstValue(a, k) == FirstValue(b, k)
    ensures MapOf(m, b)
  {
    hide FirstValue;
  }

  ghost predicate AscendingItems<V>(items: seq<(int, V)>) {
    forall i, j :: 0 <= i < j < |items| ==> items[i].0 < items[j].0
  }

  method Dedup<V>(items: seq<(int, V)>) returns (out: seq<(int, V)>)
    ensures SortedByKey(items) ==> AscendingItems(out)
    ensures SortedByKey(items) ==> forall k :: FirstValue(out, k) == FirstValue(items, k)
  {
    hide FirstValue;
    out := [];
    assert items[..0] == [];
    for i := 0 to |items|
      invariant out != [] ==> i > 0 && out[|out| - 1].0 == items[i - 1].0
      invariant i > 0 ==> out != []
      invariant SortedByKey(items) ==> AscendingItems(out)
      invariant SortedByKey(items) ==> forall k :: FirstValue(out, k) == FirstValue(items[..i], k)
    {
      assert items[..i + 1] == items[..i] + [items[i]];
      forall k
        ensures FirstValue(items[..i + 1], k) ==
                if FirstValue(items[..i], k).Some? then FirstValue(items[..i], k)
                else if items[i].0 == k then Some(items[i].1) else None
      {
        FirstAppend(items[..i], items[i], k);
      }
      if out == [] || out[|out| - 1].0 != items[i].0 {
        forall k
          ensures FirstValue(out + [items[i]], k) ==
                  if FirstValue(out, k).Some? then FirstValue(out, k)
                  else if items[i].0 == k then Some(items[i].1) else None
        {
          FirstAppend(out, items[i], k);
        }
        if SortedByKey(items) { AppendAscending(out, items[i]); }
        out := out + [items[i]];
      } else {
        PresentLast(out);
      }
    }
    assert items[..|items|] == items;
  }

  lemma AppendAscending<V>(out: seq<(int, V)>, item: (int, V))
    requires AscendingItems(out) && (out != [] ==> out[|out| - 1].0 < item.0)
    ensures AscendingItems(out + [item])
  {}

  lemma PresentLast<V>(out: seq<(int, V)>)
    requires out != []
    ensures FirstValue(out, out[|out| - 1].0).Some?
  {}

  method Split<V>(items: seq<(int, V)>) returns (m: Map<V>)
    ensures AscendingItems(items) ==> MapOf(m, items)
  {
    var keys: seq<int>, values: seq<V> := [], [];
    for i := 0 to |items|
      invariant |keys| == |values| == i
      invariant forall j :: 0 <= j < i ==> keys[j] == items[j].0 && values[j] == items[j].1
    {
      keys := keys + [items[i].0];
      values := values + [items[i].1];
    }
    m := Map(keys, values);
    if AscendingItems(items) {
      forall i | 0 <= i < |keys|
        ensures FirstValue(items, keys[i]) == Some(values[i])
      {
        FirstAt(items, i);
      }
      forall k | FirstValue(items, k).Some?
        ensures k in keys
      {
        var i := FirstIndex(items, k);
        assert keys[i] == k;
      }
    }
  }

  lemma {:induction false} FirstAt<V>(items: seq<(int, V)>, i: nat)
    requires AscendingItems(items) && i < |items|
    ensures FirstValue(items, items[i].0) == Some(items[i].1)
  {
    if i > 0 { FirstAt(items[1..], i - 1); }
  }

  lemma {:induction false} FirstIndex<V>(items: seq<(int, V)>, k: int) returns (i: nat)
    requires FirstValue(items, k).Some?
    ensures i < |items| && items[i] == (k, FirstValue(items, k).value)
  {
    if items[0].0 == k {
      i := 0;
    } else {
      i := FirstIndex(items[1..], k);
      i := i + 1;
    }
  }

  /** Ascending vectors with the same members are the same vector: the order of the pairs does not matter. */
  lemma {:induction false} AscendingUnique(a: seq<int>, b: seq<int>)
    requires Ascending(a) && Ascending(b) && forall k :: k in a <==> k in b
    ensures a == b
  {
    assert b == [] || b[0] in b;
    if a != [] {
      assert a[0] in a;
      assert b != [] && b[0] in b;
      var i :| 0 <= i < |b| && b[i] == a[0];
      var j :| 0 <= j < |a| && a[j] == b[0];
      assert a[0] == b[0];
      forall k
        ensures k in a[1..] <==> k in b[1..]
      {
        MemberTail(a, k);
        MemberTail(b, k);
      }
      AscendingUnique(a[1..], b[1..]);
      assert a == [a[0]] + a[1..] && b == [b[0]] + b[1..];
    }
  }

  lemma MemberTail(a: seq<int>, k: int)
    requires Ascending(a) && a != []
    ensures k in a[1..] <==> k in a && k != a[0]
  {}

  /** `Set::position`: binary search. */
  method Position(keys: seq<int>, item: int) returns (r: Option<nat>)
    requires Ascending(keys)
    ensures r.None? <==> item !in keys
    ensures r.Some? ==> r.value < |keys| && keys[r.value] == item
  {
    var lo, hi := 0, |keys|;
    while lo < hi
      invariant 0 <= lo <= hi <= |keys|
      invariant forall i :: 0 <= i < lo ==> keys[i] < item
      invariant forall i :: hi <= i < |keys| ==> keys[i] > item
    {
      var mid := (lo + hi) / 2;
      if keys[mid] < item {
        lo := mid + 1;
      } else if item < keys[mid] {
        hi := mid;
      } else {
        return Some(mid);
      }
    }
    return None;
  }

  /** `Map::get_value`: the first value given for the key. */
  method GetValue<V>(m: Map<V>, key: int, ghost items: seq<(int, V)>) returns (r: Option<V>)
    requires MapOf(m, items)
    ensures r == FirstValue(items, key)
  {
    var position := Position(m.keys, key);
    if position.None? {
      return None;
    }
    r := Some(m.values[position.value]);
  }
}
