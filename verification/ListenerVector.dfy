/**
 The container of the listeners: a vector of identifiers and listeners, sorted
 by identifier, and the map it stands for.
 */
module ListenerVector {
  import opened ComposerModel

  datatype Item = Item(key: int, value: Listener)

  predicate Sorted(v: seq<Item>) {
    forall i, j :: 0 <= i < j < |v| ==> v[i].key < v[j].key
  }

  function AsMap(v: seq<Item>): map<int, Listener> {
    if |v| == 0 then map[] else AsMap(v[..|v| - 1])[v[|v| - 1].key := v[|v| - 1].value]
  }

  predicate HasKey(v: seq<Item>, key: int) {
    exists i :: 0 <= i < |v| && v[i].key == key
  }

  lemma HasKeyFront(v: seq<Item>, key: int)
    requires |v| > 0
    ensures HasKey(v, key) <==> HasKey(v[..|v| - 1], key) || v[|v| - 1].key == key
  {
    var front := v[..|v| - 1];
    if HasKey(front, key) {
      var i :| 0 <= i < |front| && front[i].key == key;
      assert v[i].key == key;
    }
    if HasKey(v, key) {
      var i :| 0 <= i < |v| && v[i].key == key;
      assert i < |front| ==> front[i].key == key;
    }
  }

  /** The map holds exactly the items of the vector. */
  lemma {:induction false} AsMapMeaning(v: seq<Item>)
    requires Sorted(v)
    ensures forall i :: 0 <= i < |v| ==> v[i].key in AsMap(v) && AsMap(v)[v[i].key] == v[i].value
    ensures forall k :: k in AsMap(v) <==> HasKey(v, k)
    ensures |AsMap(v)| == |v|
  {
    if |v| > 0 {
      var n := |v| - 1;
      var front := v[..n];
      AsMapMeaning(front);
      assert !HasKey(front, v[n].key);
      forall k ensures HasKey(v, k) <==> HasKey(front, k) || k == v[n].key {
        HasKeyFront(v, k);
      }
    }
  }

  /** A vector stands for a map when they agree item by item. */
  lemma StandsFor(v: seq<Item>, m: map<int, Listener>)
    requires Sorted(v)
    requires forall i :: 0 <= i < |v| ==> v[i].key in m && m[v[i].key] == v[i].value
    requires forall k :: k in m ==> HasKey(v, k)
    ensures AsMap(v) == m
  {
    AsMapMeaning(v);
    forall k | k in m ensures k in AsMap(v) && AsMap(v)[k] == m[k] {
      var i :| 0 <= i < |v| && v[i].key == k;
    }
    forall k | k in AsMap(v) ensures k in m {
      var i :| 0 <= i < |v| && v[i].key == k;
    }
  }

  /** `w` is `v` with the item put in at position `at`. */
  predicate Inserted(v: seq<Item>, at: nat, item: Item, w: seq<Item>) {
    && at <= |v| && |w| == |v| + 1
    && (forall i :: 0 <= i < at ==> w[i] == v[i])
    && w[at] == item
    && (forall i :: at <= i < |v| ==> w[i + 1] == v[i])
  }

  lemma InsertMeaning(v: seq<Item>, at: nat, item: Item, w: seq<Item>)
    requires Sorted(v) && Inserted(v, at, item, w)
    requires forall i :: 0 <= i < at ==> v[i].key < item.key
    requires forall i :: at <= i < |v| ==> item.key < v[i].key
    ensures Sorted(w) && AsMap(w) == AsMap(v)[item.key := item.value]
  {
    var m := AsMap(v)[item.key := item.value];
    InsertSorted(v, at, item, w);
    AsMapMeaning(v);
    forall k | k in m ensures HasKey(w, k) {
      if k != item.key {
        var i :| 0 <= i < |v| && v[i].key == k;
        assert i < at ==> w[i].key == k;
        assert i >= at ==> w[i + 1].key == k;
      }
    }
    forall i | 0 <= i < |w| ensures w[i].key in m && m[w[i].key] == w[i].value {
      assert i > at ==> w[i] == w[(i - 1) + 1] == v[i - 1];
    }
    StandsFor(w, m);
  }

  lemma InsertSorted(v: seq<Item>, at: nat, item: Item, w: seq<Item>)
    requires Sorted(v) && Inserted(v, at, item, w)
    requires forall i :: 0 <= i < at ==> v[i].key < item.key
    requires forall i :: at <= i < |v| ==> item.key < v[i].key
    ensures Sorted(w)
  {
    forall i, j | 0 <= i < j < |w| ensures w[i].key < w[j].key {
      assert i > at ==> w[i] == w[(i - 1) + 1] == v[i - 1];
      assert j > at ==> w[j] == w[(j - 1) + 1] == v[j - 1];
    }
  }

  lemma RemoveMeaning(v: seq<Item>, at: nat, w: seq<Item>)
    requires Sorted(v) && at < |v| && Inserted(w, at, v[at], v)
    ensures Sorted(w) && AsMap(w) == AsMap(v) - {v[at].key}
  {
    var m := AsMap(v) - {v[at].key};
    AsMapMeaning(v);
    forall k | k in m ensures HasKey(w, k) {
      var i :| 0 <= i < |v| && v[i].key == k;
      assert i < at ==> w[i].key == k;
      assert i > at ==> v[(i - 1) + 1] == w[i - 1];
    }
    forall i, j | 0 <= i < j < |w| ensures w[i].key < w[j].key {
      assert v[if i < at then i else i + 1].key < v[if j < at then j else j + 1].key;
    }
    forall i | 0 <= i < |w| ensures w[i].key in m && m[w[i].key] == w[i].value {
      var j := if i < at then i else i + 1;
      assert w[i] == v[j] && v[j].key != v[at].key;
    }
    StandsFor(w, m);
  }

  lemma KeyMeaning(v: seq<Item>, key: int)
    requires Sorted(v)
    ensures key in AsMap(v) <==> HasKey(v, key)
  {
    AsMapMeaning(v);
  }

  lemma AbsentMeaning(v: seq<Item>, key: int)
    requires Sorted(v) && !HasKey(v, key)
    ensures AsMap(v) - {key} == AsMap(v)
  {
    AsMapMeaning(v);
  }

  lemma BroadcastMeaning(v: seq<Item>, w: seq<Item>, mode: Mode, skip: bool)
    requires Sorted(v) && |w| == |v|
    requires forall i :: 0 <= i < |v| ==> w[i] == Item(v[i].key, Told(v[i].value, mode, skip))
    ensures Sorted(w) && AsMap(w) == Broadcast(AsMap(v), mode, skip)
  {
    var m := Broadcast(AsMap(v), mode, skip);
    AsMapMeaning(v);
    forall k | k in m ensures HasKey(w, k) {
      var i :| 0 <= i < |v| && v[i].key == k;
      assert w[i].key == k;
    }
    StandsFor(w, m);
  }

  /** The scan of the vector for an identifier: its position, or the length. */
  method Find(v: seq<Item>, key: int) returns (i: nat)
    ensures i <= |v|
    ensures i < |v| ==> v[i].key == key
    ensures i == |v| <==> !HasKey(v, key)
  {
    i := 0;
    while i < |v|
      invariant i <= |v| && forall k :: 0 <= k < i ==> v[k].key != key
    {
      if v[i].key == key {
        return;
      }
      i := i + 1;
    }
  }

  /** Adding an item whose identifier is new, at its place in the order. */
  method Insert(v: seq<Item>, item: Item) returns (w: seq<Item>)
    requires Sorted(v) && !HasKey(v, item.key)
    ensures Sorted(w) && AsMap(w) == AsMap(v)[item.key := item.value]
  {
    var at := 0;
    while at < |v| && v[at].key < item.key
      invariant at <= |v| && forall i :: 0 <= i < at ==> v[i].key < item.key
    {
      at := at + 1;
    }
    w := v[..at] + [item] + v[at..];
    InsertMeaning(v, at, item, w);
  }

  /** Identifiers of a vector within a range. */
  lemma KeysInRange(v: seq<Item>, lo: int, hi: int)
    requires Sorted(v)
    ensures (forall i :: 0 <= i < |v| ==> lo <= v[i].key < hi) <==> (forall k :: k in AsMap(v) ==> lo <= k < hi)
  {
    AsMapMeaning(v);
  }
}
