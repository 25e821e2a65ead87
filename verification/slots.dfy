/**
 * The discipline the pending table (src/transfer.c) and the snapshot table (src/monitor.c) share: a
 * fixed array of slots, searched front to back, that behaves like a map of bounded size.
 */
module Slots {
  import opened Bytes

  /** A C record with its `used` flag; Free is the all-zero record. */
  datatype Slot<V> = Free | Used(key: text, value: V)

  // ---- Searching ---------------------------------------------------------------------------

  /** The first used slot with this key, or -1. */
  function Find<V>(s: seq<Slot<V>>, key: text): (i: int)
    ensures -1 <= i < |s|
    ensures i >= 0 ==> s[i].Used? && s[i].key == key
    ensures forall j :: 0 <= j < (if i < 0 then |s| else i) ==> s[j].Free? || s[j].key != key
  {
    if s == [] then -1
    else
      var i := Find(s[..|s| - 1], key);
      if i >= 0 then i else if s[|s| - 1].Used? && s[|s| - 1].key == key then |s| - 1 else -1
  }

  /** The first unused slot, or -1. */
  function FirstFree<V>(s: seq<Slot<V>>): (i: int)
    ensures -1 <= i < |s|
    ensures i >= 0 ==> s[i].Free?
    ensures forall j :: 0 <= j < (if i < 0 then |s| else i) ==> s[j].Used?
  {
    if s == [] then -1
    else
      var i := FirstFree(s[..|s| - 1]);
      if i >= 0 then i else if s[|s| - 1].Free? then |s| - 1 else -1
  }

  function Put<V>(s: seq<Slot<V>>, key: text, value: V): (t: seq<Slot<V>>)
    ensures |t| == |s|
  {
    var found := Find(s, key);
    var i := if found >= 0 then found else FirstFree(s);
    if i < 0 then s else s[i := Used(key, value)]
  }

  function Clear<V>(s: seq<Slot<V>>, key: text): (t: seq<Slot<V>>)
    ensures |t| == |s|
  {
    var i := Find(s, key);
    if i < 0 then s else s[i := Free]
  }

  // ---- The map a table stands for ------------------------------------------------------------

  ghost predicate Unique<V>(s: seq<Slot<V>>) {
    forall i, j :: 0 <= i < j < |s| && s[i].Used? && s[j].Used? ==> s[i].key != s[j].key
  }

  ghost function Keys<V>(s: seq<Slot<V>>): set<text> {
    set i | 0 <= i < |s| && s[i].Used? :: s[i].key
  }

  lemma KeysAt<V>(s: seq<Slot<V>>, key: text)
    ensures key in Keys(s) <==> exists i :: 0 <= i < |s| && s[i].Used? && s[i].key == key
  {
  }

  ghost function At<V>(s: seq<Slot<V>>, key: text): Option<V> {
    if Find(s, key) >= 0 then Some(s[Find(s, key)].value) else None
  }

  ghost function View<V>(s: seq<Slot<V>>): (m: map<text, V>)
    ensures m.Keys == Keys(s)
    ensures forall k :: At(s, k) == if k in m then Some(m[k]) else None
  {
    map k | k in Keys(s) :: At(s, k).value
  }

  lemma ViewAt<V>(s: seq<Slot<V>>, i: nat)
    requires Unique(s) && i < |s| && s[i].Used?
    ensures s[i].key in View(s) && View(s)[s[i].key] == s[i].value
  {
    hide Find;
    var j := Find(s, s[i].key);
  }

  /** There is a free slot exactly when the map is smaller than the array. */
  lemma {:induction false} FreeIffRoom<V>(s: seq<Slot<V>>)
    requires Unique(s)
    ensures |Keys(s)| <= |s| && (FirstFree(s) >= 0 <==> |Keys(s)| < |s|)
  {
    if s != [] {
      var init, last := s[..|s| - 1], s[|s| - 1];
      FreeIffRoom(init);
      if last.Free? {
        assert Keys(s) == Keys(init);
      } else {
        assert last.key !in Keys(init);
        assert Keys(s) == Keys(init) + {last.key};
      }
    }
  }

  lemma ViewSize<V>(s: seq<Slot<V>>, key: text)
    ensures |View(s)| == |Keys(s)| && (key in View(s) <==> Find(s, key) >= 0)
  {
    hide Keys;
    assert |View(s)| == |View(s).Keys|;
    assert At(s, key).Some? <==> key in View(s);
  }

  lemma Overwrite<V>(m: map<text, V>, key: text, value: V)
    ensures (m - {key})[key := value] == m[key := value]
  {
  }

  /** Updating the array updates the map; only a new key in a full table is lost. */
  lemma PutIsUpdate<V>(s: seq<Slot<V>>, key: text, value: V)
    requires Unique(s)
    ensures Unique(Put(s, key, value))
    ensures View(Put(s, key, value)) == if key in View(s) || |View(s)| < |s| then View(s)[key := value] else View(s)
  {
    hide Find, FirstFree, Keys, View;
    FreeIffRoom(s);
    ViewSize(s, key);
    var found := Find(s, key);
    var i := if found >= 0 then found else FirstFree(s);
    if i >= 0 {
      WriteIsUpdate(s, i, Used(key, value));
      Overwrite(View(s), key, value);
    }
  }

  lemma WriteAt<V>(s: seq<Slot<V>>, i: nat, slot: Slot<V>, k: text)
    requires Unique(s) && i < |s|
    requires slot.Used? ==> forall j :: 0 <= j < |s| && j != i && s[j].Used? ==> s[j].key != slot.key
    ensures At(s[i := slot], k) ==
      if slot.Used? && k == slot.key then Some(slot.value)
      else if s[i].Used? && k == s[i].key then None
      else At(s, k)
  {
    hide Find;
    var t := s[i := slot];
    assert t[i] == slot;
    assert forall j :: 0 <= j < |s| && j != i ==> t[j] == s[j];
  }

  /** Writing one slot changes the map at the old and the new key only. */
  lemma WriteIsUpdate<V>(s: seq<Slot<V>>, i: nat, slot: Slot<V>)
    requires Unique(s) && i < |s|
    requires slot.Used? ==> forall j :: 0 <= j < |s| && j != i && s[j].Used? ==> s[j].key != slot.key
    ensures Unique(s[i := slot])
    ensures View(s[i := slot]) == WithEntry(if s[i].Used? then View(s) - {s[i].key} else View(s), slot)
  {
    hide Find, Keys, At;
    var rest := if s[i].Used? then View(s) - {s[i].key} else View(s);
    var want := WithEntry(rest, slot);
    forall k
      ensures k in View(s[i := slot]) <==> k in want
      ensures k in want ==> View(s[i := slot])[k] == want[k]
    {
      WriteAt(s, i, slot, k);
    }
  }

  ghost function WithEntry<V>(m: map<text, V>, slot: Slot<V>): map<text, V> {
    if slot.Used? then m[slot.key := slot.value] else m
  }

  lemma ClearIsRemove<V>(s: seq<Slot<V>>, key: text)
    requires Unique(s)
    ensures Unique(Clear(s, key)) && View(Clear(s, key)) == View(s) - {key}
  {
    var i := Find(s, key);
    if i >= 0 {
      WriteIsUpdate(s, i, Free);
    }
  }

  // ---- The array --------------------------------------------------------------------------------

  class Table<V(0)> {
    const slots: array<Slot<V>>

    constructor (capacity: nat)
      ensures fresh(slots) && slots.Length == capacity
      ensures forall i :: 0 <= i < capacity ==> slots[i].Free?
    {
      slots := new Slot<V>[capacity](_ => Free);
    }

    /** pending_find and snapshot_find. */
    method Lookup(key: text) returns (idx: int)
      ensures idx == Find(slots[..], key)
    {
      for i := 0 to slots.Length
        invariant Find(slots[..i], key) == -1
      {
        assert slots[..i + 1][..i] == slots[..i];
        if slots[i].Used? && slots[i].key == key {
          assert Find(slots[..], key) == i by { FindInPrefix(slots[..], i + 1, key); }
          return i;
        }
      }
      assert slots[..slots.Length] == slots[..];
      idx := -1;
    }

    /** snapshot_alloc, and the search inside pending_update_or_insert. */
    method Allocate() returns (idx: int)
      ensures idx == FirstFree(slots[..])
    {
      for i := 0 to slots.Length
        invariant forall j :: 0 <= j < i ==> slots[j].Used?
      {
        if slots[i].Free? {
          return i;
        }
      }
      idx := -1;
    }
  }

  lemma FindInPrefix<V>(s: seq<Slot<V>>, n: nat, key: text)
    requires n <= |s| && Find(s[..n], key) >= 0
    ensures Find(s, key) == Find(s[..n], key)
  {
  }
}
