/** A set of items with priorities, kept twice: ordered entries and an index from item to priority. */
module PrioritySet {
  import opened Wrappers

  datatype Entry = Entry(item: int, priority: int)

  /** Entries are ordered by priority, then by item. */
  predicate Below(a: Entry, b: Entry) {
    a.priority < b.priority || (a.priority == b.priority && a.item < b.item)
  }

  ghost predicate IsFirst(e: Entry, entries: set<Entry>) {
    e in entries && forall other :: other in entries && other != e ==> Below(e, other)
  }

  lemma {:induction false} FirstExists(entries: set<Entry>)
    requires entries != {}
    ensures exists e :: IsFirst(e, entries)
    decreases |entries|
  {
    var some :| some in entries;
    var rest := entries - {some};
    assert forall other :: other in entries && other != some ==> other in rest;
    if rest == {} {
      assert IsFirst(some, entries);
    } else {
      FirstExists(rest);
      var e :| IsFirst(e, rest);
      assert IsFirst(if Below(e, some) then e else some, entries);
    }
  }

  /** Both halves describe the same map. */
  ghost predicate InStep(entries: set<Entry>, keys: map<int, int>) {
    forall e :: e in entries <==> e.item in keys && keys[e.item] == e.priority
  }

  /** Both halves have the same size. */
  lemma {:induction false} SameSize(entries: set<Entry>, keys: map<int, int>)
    requires InStep(entries, keys)
    ensures |entries| == |keys.Keys|
    decreases |entries|
  {
    if entries == {} {
      Emptied(keys);
    } else {
      var e :| e in entries;
      Removed(entries, keys, e.item);
      SameSize(entries - {e}, keys - {e.item});
      assert keys.Keys == (keys - {e.item}).Keys + {e.item};
    }
  }

  lemma Removed(entries: set<Entry>, keys: map<int, int>, item: int)
    requires InStep(entries, keys) && item in keys
    ensures InStep(entries - {Entry(item, keys[item])}, keys - {item})
  {}

  lemma Added(entries: set<Entry>, keys: map<int, int>, e: Entry)
    requires InStep(entries, keys) && e.item !in keys
    ensures InStep(entries + {e}, keys[e.item := e.priority])
  {}

  class PrioritySet {
    var entries: set<Entry>
    var keys: map<int, int>

    ghost predicate Valid() reads this {
      InStep(entries, keys)
    }

    constructor ()
      ensures Valid() && keys == map[]
    {
      entries, keys := {}, map[];
    }

    method Put(item: int, priority: int)
      requires Valid()
      modifies this
      ensures Valid() && keys == old(keys)[item := priority]
    {
      hide InStep;
      if item in keys {
        Removed(entries, keys, item);
        entries := entries - {Entry(item, keys[item])};
        keys := keys - {item};
      }
      Added(entries, keys, Entry(item, priority));
      keys := keys[item := priority];
      entries := entries + {Entry(item, priority)};
    }

    method Get(item: int) returns (r: Option<int>)
      requires Valid()
      ensures r.Some? ==> Entry(item, r.value) in entries
      ensures r.None? ==> forall e :: e in entries ==> e.item != item
    {
      r := if item in keys then Some(keys[item]) else None;
    }

    method Remove(item: int) returns (present: bool)
      requires Valid()
      modifies this
      ensures Valid() && (present <==> item in old(keys)) && keys == old(keys) - {item}
    {
      if item !in keys {
        return false;
      }
      var entry := Entry(item, keys[item]);
      Removed(entries, keys, item);
      keys := keys - {item};
      assert entry in entries;
      entries := entries - {entry};
      present := true;
    }

    /** Keeps exactly the items of `keep`: those present with their priority, the others with the default. */
    method Reconcile(keep: seq<int>, initial: int)
      requires Valid()
      modifies this
      ensures Valid() && forall k :: k in keys <==> k in keep
      ensures forall k :: k in keys ==> keys[k] == if k in old(keys) then old(keys)[k] else initial
    {
      hide InStep;
      var toRemove, retained := Unwanted(keep);
      ghost var before := keys;
      while toRemove != {}
        invariant Valid() && (forall k :: k in toRemove ==> k in keys) && (forall k :: k in keys ==> k in before)
        invariant forall k :: k in keys ==> keys[k] == before[k] && (k in keep || k in toRemove)
        invariant forall k :: k in before && k in keep ==> k in keys
        invariant forall k :: k in toRemove ==> k !in keep
        decreases |toRemove|
      {
        Member(toRemove);
        var item :| item in toRemove;
        toRemove := toRemove - {item};
        Removed(entries, keys, item);
        entries := entries - {Entry(item, keys[item])};
        keys := keys - {item};
      }
      while retained != {}
        invariant Valid() && forall k :: k in retained ==> k in keep && k !in before
        invariant forall k :: k in keep ==> k in keys || k in retained
        invariant forall k :: k in keys ==> k in keep && keys[k] == if k in before then before[k] else initial
        decreases |retained|
      {
        Member(retained);
        var item :| item in retained;
        retained := retained - {item};
        Put(item, initial);
      }
    }

    /** The items to remove, and those of `keep` that are new. */
    method Unwanted(keep: seq<int>) returns (toRemove: set<int>, retained: set<int>)
      ensures forall k :: k in toRemove <==> k in keys && k !in keep
      ensures forall k :: k in retained <==> k in keep && k !in keys
    {
      retained := set k | k in keep;
      toRemove := {};
      var pending := keys.Keys;
      while pending != {}
        invariant pending <= keys.Keys
        invariant forall k :: k in toRemove <==> k in keys && k !in pending && k !in keep
        invariant forall k :: k in retained <==> k in keep && (k !in keys || k in pending)
        decreases |pending|
      {
        Member(pending);
        var item :| item in pending;
        pending := pending - {item};
        if item in retained {
          retained := retained - {item};
        } else {
          toRemove := toRemove + {item};
        }
      }
    }

    method Retain(predicate': int -> bool)
      requires Valid()
      modifies this
      ensures Valid() && keys == map k | k in old(keys) && predicate'(k) :: old(keys)[k]
    {
      entries := set e | e in entries && predicate'(e.item);
      keys := map k | k in keys && predicate'(k) :: keys[k];
    }

    method Contains(item: int) returns (r: bool)
      requires Valid()
      ensures r <==> exists e :: e in entries && e.item == item
    {
      r := item in keys;
      if r { assert Entry(item, keys[item]) in entries; }
    }

    method Peek() returns (r: Option<Entry>)
      ensures r.None? <==> entries == {}
      ensures r.Some? ==> IsFirst(r.value, entries)
      ensures r.Some? ==> r.value in entries && forall e :: e in entries && e != r.value ==>
                r.value.priority < e.priority || (r.value.priority == e.priority && r.value.item < e.item)
    {
      if entries == {} {
        return None;
      }
      FirstExists(entries);
      var first :| first in entries && forall other :: other in entries && other != first ==> Below(first, other);
      r := Some(first);
    }

    method Pop() returns (r: Option<Entry>)
      requires Valid()
      modifies this
      ensures Valid() && (r.None? <==> old(entries) == {})
      ensures r.None? ==> keys == old(keys) && entries == {}
      ensures r.Some? ==> IsFirst(r.value, old(entries)) && entries == old(entries) - {r.value}
      ensures r.Some? ==> r.value in old(entries) && forall e :: e in entries ==>
                r.value.priority < e.priority || (r.value.priority == e.priority && r.value.item < e.item)
      ensures r.Some? ==> r.value.item in old(keys) && keys == old(keys) - {r.value.item}
    {
      hide IsFirst;
      r := Peek();
      if r.Some? {
        FirstIn(r.value, entries);
        Removed(entries, keys, r.value.item);
        entries := entries - {r.value};
        keys := keys - {r.value.item};
      }
    }

    method Clear()
      modifies this
      ensures Valid() && keys == map[]
    {
      entries, keys := {}, map[];
    }

    method Len() returns (n: nat)
      requires Valid()
      ensures n == |keys.Keys|
    {
      SameSize(entries, keys);
      n := |entries|;
    }

    /** Popping until nothing is left lists every item once, lowest priority first and items in order within it. */
    method PopAll() returns (out: seq<Entry>)
      requires Valid()
      modifies this
      ensures Valid() && keys == map[]
      ensures forall i, j :: 0 <= i < j < |out| ==> out[i].priority <= out[j].priority
      ensures forall i, j :: 0 <= i < j < |out| && out[i].priority == out[j].priority ==> out[i].item < out[j].item
      ensures |out| == |old(keys).Keys|
      ensures forall e :: e in out <==> e.item in old(keys) && old(keys)[e.item] == e.priority
    {
      hide IsFirst, Below;
      SameSize(entries, keys);
      out := [];
      while true
        invariant Valid() && entries <= old(entries) && |out| + |entries| == |old(entries)|
        invariant forall i, j :: 0 <= i < j < |out| ==> Below(out[i], out[j])
        invariant forall i, e :: 0 <= i < |out| && e in entries ==> Below(out[i], e)
        invariant forall e :: e in old(entries) <==> e in out || e in entries
        decreases |entries|
      {
        ghost var before := entries;
        var r := Pop();
        if r.None? {
          Emptied(keys);
          InOrder(out);
          return;
        }
        FirstIn(r.value, before);
        out := out + [r.value];
      }
    }
  }

  lemma InOrder(out: seq<Entry>)
    requires forall i, j :: 0 <= i < j < |out| ==> Below(out[i], out[j])
    ensures forall i, j :: 0 <= i < j < |out| ==> out[i].priority <= out[j].priority
    ensures forall i, j :: 0 <= i < j < |out| && out[i].priority == out[j].priority ==> out[i].item < out[j].item
  {}

  lemma FirstIn(e: Entry, entries: set<Entry>)
    requires IsFirst(e, entries)
    ensures e in entries && forall other :: other in entries && other != e ==> Below(e, other)
  {}

  lemma Emptied(keys: map<int, int>)
    requires InStep({}, keys)
    ensures keys == map[]
  {
    var none: set<Entry> := {};
    assert forall k :: k in keys ==> Entry(k, keys[k]) in none;
  }

  lemma Member(s: set<int>)
    requires s != {}
    ensures exists k :: k in s
  {
    assert (forall k :: k !in s) ==> s == {};
  }
}
