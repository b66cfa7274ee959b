/**
 What the image store means: an ordered list of entries, and through it a map
 from names to entries.
 */
module OsipView {
  import opened Options
  import opened Bytes
  import opened OsipFormat

  /** A stored image: its descriptor without the placement, and its payload. */
  datatype Entry = Entry(
    revMinor: u16, revMajor: u16, ddr: u32, entry: u32, attribute: byte, reserved: u24,
    payload: seq<byte>)

  /** Images are named by attribute class and by instance within the class, from 1. */
  datatype Key = Key(cls: byte, instance: nat)

  // ---------------------------------------------------------------- names

  /** `get_named_osii_attr`, with the instance it reports. */
  function NamedKey(name: string): Option<Key> {
    if name == "boot" then Some(Key(SIGNED_KERNEL, 1))
    else if name == "recovery" then Some(Key(SIGNED_ROS, 1))
    else if name == "fastboot" || name == "droidboot" then Some(Key(SIGNED_POS, 1))
    else if name == "splashscreen" then Some(Key(SIGNED_SPLASHSCREEN, 1))
    else if name == "splashscreen2" then Some(Key(SIGNED_SPLASHSCREEN, 2))
    else if name == "splashscreen3" then Some(Key(SIGNED_SPLASHSCREEN, 3))
    else if name == "splashscreen4" then Some(Key(SIGNED_SPLASHSCREEN, 4))
    else if name == "silentlake" then Some(Key(SIGNED_FW, 1))
    else if name == "ramdump" then Some(Key(SIGNED_RAMDUMPOS, 1))
    else None
  }

  /** Names are aliases only of themselves, except that "fastboot" and
      "droidboot" mean the same image. */
  lemma NamesShareExactly(a: string, b: string)
    requires NamedKey(a).Some? && NamedKey(b).Some?
    ensures NamedKey(a) == NamedKey(b) <==> a == b || {a, b} == {"fastboot", "droidboot"}
  {
    assert "fastboot"[0] != "droidboot"[0];
    assert a in {a, b} && b in {a, b};
    assert "fastboot" in {"fastboot", "droidboot"};
  }

  // ---------------------------------------------------------------- positions

  /** How many of the attributes belong to the class. */
  function Count(attrs: seq<byte>, c: byte): nat {
    if |attrs| == 0 then 0
    else Count(attrs[..|attrs| - 1], c) + if Class(attrs[|attrs| - 1]) == c then 1 else 0
  }

  function KeyAt(attrs: seq<byte>, i: nat): Key
    requires i < |attrs|
  {
    Key(Class(attrs[i]), Count(attrs[..i], Class(attrs[i])) + 1)
  }

  /** Position of the key, or -1. */
  function Lookup(attrs: seq<byte>, key: Key): (r: int)
    ensures -1 <= r < |attrs|
  {
    LookupFrom(attrs, key, 0)
  }

  function LookupFrom(attrs: seq<byte>, key: Key, i: nat): (r: int)
    requires i <= |attrs|
    ensures r == -1 || i <= r < |attrs|
    decreases |attrs| - i
  {
    if i == |attrs| then -1 else if KeyAt(attrs, i) == key then i else LookupFrom(attrs, key, i + 1)
  }

  /** The position a write to the key goes to: its own, the end if it would be
      the next instance of its class, or -1. */
  function WriteIndex(attrs: seq<byte>, key: Key): int {
    if Lookup(attrs, key) >= 0 then Lookup(attrs, key)
    else if key.instance == Count(attrs, key.cls) + 1 then |attrs|
    else -1
  }

  lemma {:induction false} CountPrefix(attrs: seq<byte>, i: nat, j: nat, c: byte)
    requires i <= j <= |attrs|
    ensures Count(attrs[..i], c) <= Count(attrs[..j], c)
  {
    if i < j {
      CountPrefix(attrs, i, j - 1, c);
      assert attrs[..j][..j - 1] == attrs[..j - 1];
    }
  }

  lemma CountNext(attrs: seq<byte>, i: nat, c: byte)
    requires i < |attrs|
    ensures Count(attrs[..i + 1], c) == Count(attrs[..i], c) + if Class(attrs[i]) == c then 1 else 0
  {
    assert attrs[..i + 1][..i] == attrs[..i];
  }

  /** Different positions carry different keys. */
  lemma KeysDiffer(attrs: seq<byte>, i: nat, j: nat)
    requires i < j < |attrs|
    ensures KeyAt(attrs, i) != KeyAt(attrs, j)
  {
    CountNext(attrs, i, Class(attrs[i]));
    CountPrefix(attrs, i + 1, j, Class(attrs[i]));
  }

  lemma {:induction false} LookupFromMeaning(attrs: seq<byte>, key: Key, i: nat)
    requires i <= |attrs|
    ensures LookupFrom(attrs, key, i) >= 0 ==> KeyAt(attrs, LookupFrom(attrs, key, i)) == key
    ensures LookupFrom(attrs, key, i) < 0 ==> forall k :: i <= k < |attrs| ==> KeyAt(attrs, k) != key
    decreases |attrs| - i
  {
    if i < |attrs| && KeyAt(attrs, i) != key {
      LookupFromMeaning(attrs, key, i + 1);
    }
  }

  /** Lookup inverts `KeyAt`. */
  lemma LookupMeaning(attrs: seq<byte>, key: Key)
    ensures Lookup(attrs, key) >= 0 ==> KeyAt(attrs, Lookup(attrs, key)) == key
    ensures forall i :: 0 <= i < |attrs| ==> (KeyAt(attrs, i) == key <==> Lookup(attrs, key) == i)
  {
    LookupFromMeaning(attrs, key, 0);
    forall i | 0 <= i < |attrs| ensures KeyAt(attrs, i) == key <==> Lookup(attrs, key) == i {
      var r := Lookup(attrs, key);
      if KeyAt(attrs, i) == key && r != i {
        if r < i { KeysDiffer(attrs, r, i); } else { KeysDiffer(attrs, i, r); }
      }
    }
  }

  /** Attributes that agree class by class give the same keys. */
  lemma {:induction false} CountSameClasses(a: seq<byte>, b: seq<byte>, c: byte)
    requires |a| == |b| && forall i :: 0 <= i < |a| ==> Class(a[i]) == Class(b[i])
    ensures Count(a, c) == Count(b, c)
  {
    if |a| > 0 { CountSameClasses(a[..|a| - 1], b[..|b| - 1], c); }
  }

  lemma KeySameClasses(a: seq<byte>, b: seq<byte>, i: nat)
    requires i < |a| && i < |b| && forall k :: 0 <= k <= i ==> Class(a[k]) == Class(b[k])
    ensures KeyAt(a, i) == KeyAt(b, i)
  {
    CountSameClasses(a[..i], b[..i], Class(a[i]));
  }

  /** Writing to the position `WriteIndex` names keeps every key at its position
      and gives the written position the wanted key. */
  lemma WriteKeepsKeys(attrs: seq<byte>, key: Key, a: byte)
    requires WriteIndex(attrs, key) >= 0 && Class(a) == key.cls
    ensures var i := WriteIndex(attrs, key);
            var after := if i < |attrs| then attrs[i := a] else attrs + [a];
            && KeyAt(after, i) == key
            && (forall k :: 0 <= k < |attrs| ==> KeyAt(after, k) == KeyAt(attrs, k))
            && (i < |attrs| ==> Class(attrs[i]) == key.cls)
  {
    var i := WriteIndex(attrs, key);
    var after := if i < |attrs| then attrs[i := a] else attrs + [a];
    LookupMeaning(attrs, key);
    forall k | 0 <= k < |attrs| ensures KeyAt(after, k) == KeyAt(attrs, k) {
      KeySameClasses(after, attrs, k);
    }
    if i == |attrs| {
      assert after[..i] == attrs;
    }
  }

  // ---------------------------------------------------------------- the map

  function Attrs(v: seq<Entry>): (r: seq<byte>)
    ensures |r| == |v|
  {
    seq(|v|, i requires 0 <= i < |v| => v[i].attribute)
  }

  function EntryKey(v: seq<Entry>, i: nat): Key
    requires i < |v|
  {
    KeyAt(Attrs(v), i)
  }

  function KeySet(v: seq<Entry>): set<Key> {
    set i | 0 <= i < |v| :: EntryKey(v, i)
  }

  /** The entries by key. */
  function AsMap(v: seq<Entry>): map<Key, Entry> {
    map k | k in KeySet(v) && Lookup(Attrs(v), k) >= 0 :: v[Lookup(Attrs(v), k)]
  }

  /** A key is in the map exactly when the lookup finds it. */
  lemma MapLookup(v: seq<Entry>, key: Key)
    ensures key in AsMap(v) <==> Lookup(Attrs(v), key) >= 0
  {
    LookupMeaning(Attrs(v), key);
    var r := Lookup(Attrs(v), key);
    if r >= 0 {
      assert EntryKey(v, r) == key;
    }
  }

  /** The map holds exactly the entries, each under its own key. */
  lemma AsMapMeaning(v: seq<Entry>, i: nat)
    requires i < |v|
    ensures EntryKey(v, i) in AsMap(v) && AsMap(v)[EntryKey(v, i)] == v[i]
  {
    LookupMeaning(Attrs(v), EntryKey(v, i));
    MapLookup(v, EntryKey(v, i));
  }

  function Put(v: seq<Entry>, i: nat, e: Entry): seq<Entry>
    requires i <= |v|
  {
    if i < |v| then v[i := e] else v + [e]
  }

  /** After a write every other key is found where it was. */
  lemma LookupAfterWrite(attrs: seq<byte>, key: Key, a: byte, k: Key)
    requires WriteIndex(attrs, key) >= 0 && Class(a) == key.cls
    ensures var i := WriteIndex(attrs, key);
            var after := if i < |attrs| then attrs[i := a] else attrs + [a];
            Lookup(after, k) == if k == key then i else Lookup(attrs, k)
  {
    var i := WriteIndex(attrs, key);
    var after := if i < |attrs| then attrs[i := a] else attrs + [a];
    WriteKeepsKeys(attrs, key, a);
    LookupMeaning(after, k);
    LookupMeaning(attrs, k);
    if k != key {
      var r := Lookup(attrs, k);
      if r >= 0 {
        assert KeyAt(after, r) == KeyAt(attrs, r);
      } else {
        forall m | 0 <= m < |after| ensures KeyAt(after, m) != k {
          if m < |attrs| { assert KeyAt(after, m) == KeyAt(attrs, m); }
        }
      }
    }
  }

  lemma PutAt(v: seq<Entry>, key: Key, e: Entry, k: Key)
    requires WriteIndex(Attrs(v), key) >= 0 && Class(e.attribute) == key.cls
    ensures var m, m' := AsMap(v), AsMap(Put(v, WriteIndex(Attrs(v), key), e));
            && (k in m' <==> k in m || k == key)
            && (k in m' ==> m'[k] == if k == key then e else m[k])
  {
    var i := WriteIndex(Attrs(v), key);
    var w := Put(v, i, e);
    assert Attrs(w) == if i < |v| then Attrs(v)[i := e.attribute] else Attrs(v) + [e.attribute];
    LookupAfterWrite(Attrs(v), key, e.attribute, k);
    LookupMeaning(Attrs(v), k);
    LookupMeaning(Attrs(w), k);
    MapLookup(v, k);
    MapLookup(w, k);
    var r := Lookup(Attrs(w), k);
    if k == key {
      assert r == i && w[i] == e;
    } else if r >= 0 {
      assert r != i ==> w[r] == v[r];
      WriteKeepsKeys(Attrs(v), key, e.attribute);
    }
  }

  /** Storing an entry at the position of a key updates the map at that key only. */
  lemma PutIsMapUpdate(v: seq<Entry>, key: Key, e: Entry)
    requires WriteIndex(Attrs(v), key) >= 0 && Class(e.attribute) == key.cls
    ensures AsMap(Put(v, WriteIndex(Attrs(v), key), e)) == AsMap(v)[key := e]
  {
    var w := Put(v, WriteIndex(Attrs(v), key), e);
    var m, m' := AsMap(v), AsMap(w);
    forall k: Key ensures (k in m' <==> k in m || k == key) && (k in m' ==> m'[k] == if k == key then e else m[k]) {
      PutAt(v, key, e, k);
    }
    MapsEqual(m, m', key, e);
  }

  lemma MapsEqual(m: map<Key, Entry>, m': map<Key, Entry>, key: Key, e: Entry)
    requires forall k :: (k in m' <==> k in m || k == key) && (k in m' ==> m'[k] == if k == key then e else m[k])
    ensures m' == m[key := e]
  {
  }
}
