/** Lua values, the bridge's own values, and what it means for one to carry the other. */
module LuaValues {
  import opened Text

  datatype Pointer = Null | MapAt(id: nat) | ArrayAt(number: int) | Foreign(address: int)

  /** A table key; one that is not a string is known by its identity only. */
  datatype Key = StringKey(s: string) | OtherKey(identity: int)

  datatype Entry = Entry(key: Key, value: LuaValue)

  /** A finite Lua value. A table lists its entries in traversal order. Opaque is a function, a thread, or, on the
      stack, a key that is not a string. Floats are exact. */
  datatype LuaValue =
    | Nil
    | Boolean(b: bool)
    | Integer(n: int)
    | Float(x: real)
    | String(s: string)
    | Table(entries: seq<Entry>)
    | LightUserdata(p: Pointer)
    | Userdata(p: Pointer)
    | Opaque(identity: int)

  predicate DistinctKeys(entries: seq<Entry>) {
    forall i, j :: 0 <= i < j < |entries| ==> entries[i].key != entries[j].key
  }

  /** Tables have distinct keys and no nil values, at every depth. */
  predicate Proper(v: LuaValue) {
    v.Table? ==>
      && DistinctKeys(v.entries)
      && forall i :: 0 <= i < |v.entries| ==> v.entries[i].value != Nil && Proper(v.entries[i].value)
  }

  const NUL: char := 0 as char

  /** What is left of a string once it has passed through a `const char*`. */
  function CString(s: string): (c: string)
    ensures NUL !in c && c <= s && (|c| < |s| ==> s[|c|] == NUL)
  {
    s[..IndexOf(s, NUL, 0)]
  }

  lemma NulFreePasses(s: string)
    ensures NUL !in s <==> CString(s) == s
  {
  }

  /** A value inside the bridge; maps are shared objects named by number, and so are arrays, whose items never change. */
  datatype Value =
    | VNone
    | VInt(n: int)
    | VFloat(x: real)
    | VBool(b: bool)
    | VStr(s: string)
    | VMap(id: nat)
    | VArray(number: int, items: seq<Value>)
    | VPtr(p: Pointer)

  type Maps = map<nat, map<string, Value>>

  /** Entry `i` is the last one whose key reads as its C string. */
  predicate IsLatest(entries: seq<Entry>, i: nat)
    requires i < |entries|
  {
    && entries[i].key.StringKey?
    && forall j :: i < j < |entries| && entries[j].key.StringKey? ==> CString(entries[j].key.s) != CString(entries[i].key.s)
  }

  // What `from_lua` leaves in the bridge.

  /** `value` is what storing `v` in a map leaves there; nested maps have numbers above `lo`. */
  ghost predicate Holds(maps: Maps, lo: int, value: Value, v: LuaValue)
    decreases v
  {
    match v
    case Nil => value == VNone
    case Boolean(b) => value == VInt(if b then 1 else 0)
    case Integer(n) => value == VInt(n)
    case Float(x) => value == VFloat(x)
    case String(s) => value == VStr(CString(s))
    case Table(entries) =>
      && value.VMap? && lo < value.id && value.id in maps
      && KeysAreEntries(maps[value.id], entries)
      && forall i :: 0 <= i < |entries| && IsLatest(entries, i) ==>
           && CString(entries[i].key.s) in maps[value.id]
           && Holds(maps, value.id, maps[value.id][CString(entries[i].key.s)], entries[i].value)
    case LightUserdata(p) => value == VPtr(p)
    case Userdata(p) => value == VPtr(p)
    case Opaque(_) => value == VPtr(Null)
  }

  ghost predicate KeysAreEntries(m: map<string, Value>, entries: seq<Entry>) {
    forall k :: k in m ==> exists i :: 0 <= i < |entries| && IsLatest(entries, i) && CString(entries[i].key.s) == k
  }

  /** Map `id` holds the string-keyed entries. */
  ghost predicate HoldsTable(maps: Maps, id: nat, entries: seq<Entry>) {
    && id in maps
    && KeysAreEntries(maps[id], entries)
    && forall i :: 0 <= i < |entries| && IsLatest(entries, i) ==>
         && CString(entries[i].key.s) in maps[id]
         && Holds(maps, id, maps[id][CString(entries[i].key.s)], entries[i].value)
  }

  /** Changes to maps numbered `lo` or less do not show. */
  lemma {:induction false} HoldsFrame(maps: Maps, after: Maps, lo: int, value: Value, v: LuaValue)
    requires Holds(maps, lo, value, v)
    requires forall id :: id in maps && lo < id ==> id in after && after[id] == maps[id]
    ensures Holds(after, lo, value, v)
    decreases v
  {
    hide CString;
    if v.Table? {
      forall i | 0 <= i < |v.entries| && IsLatest(v.entries, i)
        ensures Holds(after, value.id, after[value.id][CString(v.entries[i].key.s)], v.entries[i].value)
      {
        HoldsFrame(maps, after, value.id, maps[value.id][CString(v.entries[i].key.s)], v.entries[i].value);
      }
    }
  }

  lemma TableFrame(maps: Maps, after: Maps, id: nat, entries: seq<Entry>)
    requires HoldsTable(maps, id, entries)
    requires forall n :: n in maps && id <= n ==> n in after && after[n] == maps[n]
    ensures HoldsTable(after, id, entries)
  {
    hide CString, Holds;
    forall i | 0 <= i < |entries| && IsLatest(entries, i)
      ensures Holds(after, id, after[id][CString(entries[i].key.s)], entries[i].value)
    {
      HoldsFrame(maps, after, id, maps[id][CString(entries[i].key.s)], entries[i].value);
    }
  }

  lemma TableHolds(maps: Maps, lo: int, id: nat, entries: seq<Entry>)
    requires HoldsTable(maps, id, entries) && lo < id
    ensures Holds(maps, lo, VMap(id), Table(entries))
  {
    hide CString;
  }

  lemma LatestGrows(entries: seq<Entry>, k: nat, i: nat)
    requires i <= k < |entries| && entries[k].key.StringKey?
    ensures IsLatest(entries[..k + 1], i) <==>
            i == k || (IsLatest(entries[..k], i) && CString(entries[i].key.s) != CString(entries[k].key.s))
  {
    hide CString;
    var done, more := entries[..k], entries[..k + 1];
    assert forall j :: 0 <= j < k ==> done[j] == entries[j] == more[j];
    assert more[k] == entries[k];
  }

  lemma StoredKeys(m: map<string, Value>, entries: seq<Entry>, k: nat, value: Value)
    requires k < |entries| && entries[k].key.StringKey? && KeysAreEntries(m, entries[..k])
    ensures KeysAreEntries(m[CString(entries[k].key.s) := value], entries[..k + 1])
  {
    hide CString;
    var key, done, more := CString(entries[k].key.s), entries[..k], entries[..k + 1];
    var after := m[key := value];
    LatestGrows(entries, k, k);
    forall name | name in after
      ensures exists i :: 0 <= i < |more| && IsLatest(more, i) && CString(more[i].key.s) == name
    {
      if name != key {
        var i :| 0 <= i < |done| && IsLatest(done, i) && CString(done[i].key.s) == name;
        LatestGrows(entries, k, i);
        assert more[i] == done[i];
      } else {
        assert more[k] == entries[k];
      }
    }
  }

  /** Storing entry `k` under its key, over whatever was there, takes the map one entry further. */
  lemma EntryStored(maps: Maps, id: nat, entries: seq<Entry>, k: nat, value: Value)
    requires k < |entries| && entries[k].key.StringKey? && HoldsTable(maps, id, entries[..k])
    requires Holds(maps, id, value, entries[k].value)
    ensures HoldsTable(maps[id := maps[id][CString(entries[k].key.s) := value]], id, entries[..k + 1])
  {
    hide CString, Holds, KeysAreEntries, IsLatest;
    var key := CString(entries[k].key.s);
    var after := maps[id := maps[id][key := value]];
    var done, more := entries[..k], entries[..k + 1];
    StoredKeys(maps[id], entries, k, value);
    HoldsFrame(maps, after, id, value, entries[k].value);
    TableValuesFrame(maps, after, id, done);
    forall i | 0 <= i < |more| && IsLatest(more, i)
      ensures more[i].key.StringKey? && CString(more[i].key.s) in after[id]
      ensures Holds(after, id, after[id][CString(more[i].key.s)], more[i].value)
    {
      LatestGrows(entries, k, i);
      LatestIsString(more, i);
      assert i < k ==> more[i] == done[i];
      assert i == k ==> more[i] == entries[k];
    }
  }

  lemma LatestIsString(entries: seq<Entry>, i: nat)
    requires i < |entries| && IsLatest(entries, i)
    ensures entries[i].key.StringKey?
  {
  }

  /** The values of a table survive a change to its own map object. */
  lemma TableValuesFrame(maps: Maps, after: Maps, id: nat, entries: seq<Entry>)
    requires HoldsTable(maps, id, entries)
    requires forall n :: n in maps && id < n ==> n in after && after[n] == maps[n]
    ensures forall i :: 0 <= i < |entries| && IsLatest(entries, i) ==>
              Holds(after, id, maps[id][CString(entries[i].key.s)], entries[i].value)
  {
    hide CString, Holds;
    forall i | 0 <= i < |entries| && IsLatest(entries, i)
      ensures Holds(after, id, maps[id][CString(entries[i].key.s)], entries[i].value)
    {
      HoldsFrame(maps, after, id, maps[id][CString(entries[i].key.s)], entries[i].value);
    }
  }

  lemma EntrySkipped(maps: Maps, id: nat, entries: seq<Entry>, k: nat)
    requires k < |entries| && !entries[k].key.StringKey? && HoldsTable(maps, id, entries[..k])
    ensures HoldsTable(maps, id, entries[..k + 1])
  {
    hide CString, Holds;
    var done, more := entries[..k], entries[..k + 1];
    assert forall j :: 0 <= j < k ==> more[j] == done[j];
    assert more[k] == entries[k];
    assert forall i :: 0 <= i < k ==> (IsLatest(more, i) <==> IsLatest(done, i));
  }

  // What `to_lua` makes of it. `aliases` tells the two readings of `map_get` on a nested map apart: true is a fresh
  // handle, as the bridge expects; false is a raw pointer, as the handle table gives.

  ghost predicate Mirrors(aliases: bool, maps: Maps, value: Value, u: LuaValue)
    decreases u
  {
    match value
    case VNone => u == Nil
    case VInt(n) => u == Integer(n)
    case VFloat(x) => u == Float(x)
    case VBool(b) => u == Boolean(b)
    case VStr(s) => u == String(CString(s))
    case VPtr(p) => u == LightUserdata(p)
    case VArray(number, _) => if aliases then u.LightUserdata? else u == LightUserdata(ArrayAt(number))
    case VMap(id) =>
      if !aliases then u == LightUserdata(MapAt(id))
      else
        && u.Table? && id in maps && DistinctKeys(u.entries)
        && KeysAreFields(maps[id], u.entries)
        && forall j :: 0 <= j < |u.entries| ==>
             && u.entries[j].key.StringKey? && u.entries[j].key.s in maps[id]
             && u.entries[j].value != Nil
             && Mirrors(aliases, maps, maps[id][u.entries[j].key.s], u.entries[j].value)
  }

  /** Every key whose value is not None is a field. */
  ghost predicate KeysAreFields(m: map<string, Value>, fields: seq<Entry>) {
    forall k :: k in m && m[k] != VNone ==> exists j :: 0 <= j < |fields| && fields[j].key == StringKey(k)
  }

  /** The fields are those of map `id`, whichever way nested maps come out. */
  ghost predicate MirrorsTable(aliases: bool, maps: Maps, id: nat, fields: seq<Entry>) {
    && id in maps && DistinctKeys(fields)
    && KeysAreFields(maps[id], fields)
    && forall j :: 0 <= j < |fields| ==>
         && fields[j].key.StringKey? && fields[j].key.s in maps[id]
         && fields[j].value != Nil
         && Mirrors(aliases, maps, maps[id][fields[j].key.s], fields[j].value)
  }

  // The round trip.

  ghost predicate HasKey(entries: seq<Entry>, key: Key) {
    exists j :: 0 <= j < |entries| && entries[j].key == key
  }

  /** The same string keys, and no others on the right. */
  ghost predicate SameKeys(entries: seq<Entry>, fields: seq<Entry>) {
    && (forall j :: 0 <= j < |fields| ==> fields[j].key.StringKey? && HasKey(entries, fields[j].key))
    && (forall i :: 0 <= i < |entries| && entries[i].key.StringKey? ==> HasKey(fields, entries[i].key))
  }

  /** `u` is `v` with the entries under non-string keys dropped at every depth; the order of entries does not count. */
  ghost predicate Agrees(v: LuaValue, u: LuaValue)
    decreases v
  {
    match v
    case Table(entries) =>
      && u.Table? && DistinctKeys(u.entries) && SameKeys(entries, u.entries)
      && forall i, j :: 0 <= i < |entries| && 0 <= j < |u.entries| && entries[i].key == u.entries[j].key ==>
           Agrees(entries[i].value, u.entries[j].value)
    case _ => u == v
  }

  /** What survives inside a table: numbers, light userdata, NUL-free strings and, if nested maps come back as handles,
      tables of such values under NUL-free string keys. */
  predicate Portable(aliases: bool, v: LuaValue)
    decreases v
  {
    match v
    case Integer(_) => true
    case Float(_) => true
    case LightUserdata(_) => true
    case String(s) => NUL !in s
    case Table(entries) =>
      aliases && forall i :: 0 <= i < |entries| && entries[i].key.StringKey? ==>
        NUL !in entries[i].key.s && Portable(aliases, entries[i].value)
    case _ => false
  }

  predicate PortableTable(aliases: bool, entries: seq<Entry>) {
    forall i :: 0 <= i < |entries| && entries[i].key.StringKey? ==>
      NUL !in entries[i].key.s && Portable(aliases, entries[i].value)
  }

  /** Where an entry and a field meet, the field agrees exactly if the entry's value is portable. */
  ghost predicate PairsSettled(aliases: bool, entries: seq<Entry>, fields: seq<Entry>) {
    forall i, j :: 0 <= i < |entries| && 0 <= j < |fields| && IsLatest(entries, i) &&
                   fields[j].key == StringKey(CString(entries[i].key.s)) ==>
      (Agrees(entries[i].value, fields[j].value) <==> Portable(aliases, entries[i].value))
  }

  /** With NUL-free string keys every entry is the latest for its key. */
  lemma AllAreLatest(entries: seq<Entry>, i: nat)
    requires DistinctKeys(entries) && i < |entries| && entries[i].key.StringKey?
    requires forall j :: 0 <= j < |entries| && entries[j].key.StringKey? ==> NUL !in entries[j].key.s
    ensures IsLatest(entries, i) && CString(entries[i].key.s) == entries[i].key.s
  {
    hide CString;
    forall j | 0 <= j < |entries| && entries[j].key.StringKey?
      ensures CString(entries[j].key.s) == entries[j].key.s
    {
      NulFreePasses(entries[j].key.s);
    }
  }

  /** The entry a field comes from. */
  lemma FieldComesFrom(aliases: bool, maps: Maps, id: nat, entries: seq<Entry>, fields: seq<Entry>, j: nat) returns (i: nat)
    requires HoldsTable(maps, id, entries) && MirrorsTable(aliases, maps, id, fields) && j < |fields|
    ensures i < |entries| && IsLatest(entries, i)
    ensures fields[j].key == StringKey(CString(entries[i].key.s))
  {
    hide Mirrors, Holds, CString;
    var k := fields[j].key.s;
    assert k in maps[id];
    i :| 0 <= i < |entries| && IsLatest(entries, i) && CString(entries[i].key.s) == k;
  }

  lemma PortableAgrees(aliases: bool, maps: Maps, id: nat, entries: seq<Entry>, fields: seq<Entry>)
    requires Proper(Table(entries)) && HoldsTable(maps, id, entries) && MirrorsTable(aliases, maps, id, fields)
    requires PairsSettled(aliases, entries, fields) && PortableTable(aliases, entries)
    ensures Agrees(Table(entries), Table(fields))
  {
    hide CString, Portable, Mirrors, Holds;
    forall j | 0 <= j < |fields|
      ensures HasKey(entries, fields[j].key)
    {
      var i := FieldComesFrom(aliases, maps, id, entries, fields, j);
      AllAreLatest(entries, i);
    }
    forall i | 0 <= i < |entries| && entries[i].key.StringKey?
      ensures HasKey(fields, entries[i].key) && IsLatest(entries, i) && CString(entries[i].key.s) == entries[i].key.s
    {
      AllAreLatest(entries, i);
      NeverNone(maps, id, maps[id][entries[i].key.s], entries[i].value);
    }
  }

  lemma NeverNone(maps: Maps, lo: int, value: Value, v: LuaValue)
    requires Holds(maps, lo, value, v) && v != Nil
    ensures value != VNone
  {
  }

  /** Fields only ever have NUL-free keys, so agreement shows that the entries have too. */
  lemma AgreedKeysAreNulFree(aliases: bool, maps: Maps, id: nat, entries: seq<Entry>, fields: seq<Entry>, i: nat)
    requires HoldsTable(maps, id, entries) && MirrorsTable(aliases, maps, id, fields)
    requires i < |entries| && entries[i].key.StringKey? && HasKey(fields, entries[i].key)
    ensures NUL !in entries[i].key.s
  {
    hide Mirrors, Holds, HoldsTable, MirrorsTable, IsLatest;
    var j :| 0 <= j < |fields| && fields[j].key == entries[i].key;
    var k := FieldComesFrom(aliases, maps, id, entries, fields, j);
  }

  lemma AgreesPortable(aliases: bool, maps: Maps, id: nat, entries: seq<Entry>, fields: seq<Entry>)
    requires Proper(Table(entries)) && HoldsTable(maps, id, entries) && MirrorsTable(aliases, maps, id, fields)
    requires PairsSettled(aliases, entries, fields) && Agrees(Table(entries), Table(fields))
    ensures PortableTable(aliases, entries)
  {
    hide CString, Portable, HoldsTable, MirrorsTable, IsLatest;
    forall i | 0 <= i < |entries| && entries[i].key.StringKey?
      ensures NUL !in entries[i].key.s
    {
      AgreedKeysAreNulFree(aliases, maps, id, entries, fields, i);
    }
    forall i | 0 <= i < |entries| && entries[i].key.StringKey?
      ensures Portable(aliases, entries[i].value)
    {
      AllAreLatest(entries, i);
      var j :| 0 <= j < |fields| && fields[j].key == entries[i].key;
    }
  }

  /** A table comes back as itself, without its non-string keys, exactly if every string-keyed entry is portable. */
  lemma {:induction false} TableRoundTrip(aliases: bool, maps: Maps, id: nat, entries: seq<Entry>, fields: seq<Entry>)
    requires Proper(Table(entries)) && HoldsTable(maps, id, entries) && MirrorsTable(aliases, maps, id, fields)
    ensures Agrees(Table(entries), Table(fields)) <==> PortableTable(aliases, entries)
    decreases Table(entries), 0
  {
    hide CString, Agrees, Portable;
    forall i, j | 0 <= i < |entries| && 0 <= j < |fields| && IsLatest(entries, i) &&
                  fields[j].key == StringKey(CString(entries[i].key.s))
      ensures Agrees(entries[i].value, fields[j].value) <==> Portable(aliases, entries[i].value)
    {
      ValueRoundTrip(aliases, maps, id, maps[id][fields[j].key.s], entries[i].value, fields[j].value);
    }
    if PortableTable(aliases, entries) {
      PortableAgrees(aliases, maps, id, entries, fields);
    }
    if Agrees(Table(entries), Table(fields)) {
      AgreesPortable(aliases, maps, id, entries, fields);
    }
  }

  lemma {:induction false} ValueRoundTrip(aliases: bool, maps: Maps, lo: int, value: Value, v: LuaValue, u: LuaValue)
    requires Proper(v) && v != Nil && Holds(maps, lo, value, v) && Mirrors(aliases, maps, value, u)
    ensures Agrees(v, u) <==> Portable(aliases, v)
    decreases v, 1
  {
    match v
    case Table(entries) =>
      if aliases {
        TableRoundTrip(aliases, maps, value.id, entries, u.entries);
      }
    case String(s) =>
      NulFreePasses(s);
      NulFreePasses(CString(s));
    case _ =>
  }

  /** A nested table is lost when `map_get` gives a raw pointer, and a boolean always: a table with such an entry under a
      string key never comes back equal. */
  lemma NotPortable(aliases: bool, maps: Maps, id: nat, entries: seq<Entry>, fields: seq<Entry>, i: nat)
    requires Proper(Table(entries)) && HoldsTable(maps, id, entries) && MirrorsTable(aliases, maps, id, fields)
    requires i < |entries| && entries[i].key.StringKey?
    requires entries[i].value.Boolean? || (entries[i].value.Table? && !aliases)
    ensures !Agrees(Table(entries), Table(fields))
  {
    hide Agrees, HoldsTable, MirrorsTable, Proper;
    TableRoundTrip(aliases, maps, id, entries, fields);
    assert !Portable(aliases, entries[i].value);
  }

  // What comes back, portable or not.

  /** `c` is `s` up to its first NUL. */
  predicate CutAtNul(c: string, s: string) {
    NUL !in c && c <= s && (|c| < |s| ==> s[|c|] == NUL)
  }

  /** What a value that is not inside a table comes back as. */
  predicate AloneComesBackAs(v: LuaValue, u: LuaValue)
    requires !v.Table?
  {
    match v
    case String(s) => u.String? && CutAtNul(u.s, s)
    case Userdata(p) => u == LightUserdata(p)
    case Opaque(_) => u == LightUserdata(Null)
    case _ => u == v
  }

  /** What a value inside a table comes back as: a boolean as an integer, a nested table as a table of its own or as the
      address of a map. */
  ghost predicate InsideComesBackAs(aliases: bool, v: LuaValue, u: LuaValue)
    decreases v
  {
    match v
    case Boolean(b) => u == Integer(if b then 1 else 0)
    case Table(entries) =>
      if !aliases then u.LightUserdata? && u.p.MapAt?
      else
        && u.Table? && FieldsOf(entries, u.entries)
        && forall i, j :: 0 <= i < |entries| && 0 <= j < |u.entries| && IsLatest(entries, i) &&
                          u.entries[j].key == StringKey(CString(entries[i].key.s)) ==>
             InsideComesBackAs(aliases, entries[i].value, u.entries[j].value)
    case _ => AloneComesBackAs(v, u)
  }

  /** One field, under its C string, for each string key; of keys that read alike, for the last. */
  ghost predicate FieldsOf(entries: seq<Entry>, fields: seq<Entry>) {
    DistinctKeys(fields) && NoOtherFields(entries, fields) && NoFieldMissing(entries, fields)
  }

  ghost predicate NoOtherFields(entries: seq<Entry>, fields: seq<Entry>) {
    forall j :: 0 <= j < |fields| ==> IsKeyOf(entries, fields[j].key)
  }

  ghost predicate IsKeyOf(entries: seq<Entry>, key: Key) {
    exists i :: 0 <= i < |entries| && IsLatest(entries, i) && key == StringKey(CString(entries[i].key.s))
  }

  ghost predicate NoFieldMissing(entries: seq<Entry>, fields: seq<Entry>) {
    forall i :: 0 <= i < |entries| && IsLatest(entries, i) ==> HasKey(fields, StringKey(CString(entries[i].key.s)))
  }

  /** What a table comes back as. */
  ghost predicate TableComesBackAs(aliases: bool, entries: seq<Entry>, fields: seq<Entry>) {
    && FieldsOf(entries, fields)
    && forall i, j :: 0 <= i < |entries| && 0 <= j < |fields| && IsLatest(entries, i) &&
                      fields[j].key == StringKey(CString(entries[i].key.s)) ==>
         InsideComesBackAs(aliases, entries[i].value, fields[j].value)
  }

  lemma HeldFields(aliases: bool, maps: Maps, id: nat, entries: seq<Entry>, fields: seq<Entry>)
    requires Proper(Table(entries)) && HoldsTable(maps, id, entries) && MirrorsTable(aliases, maps, id, fields)
    ensures FieldsOf(entries, fields)
  {
    hide CString, Mirrors, Holds;
    forall j | 0 <= j < |fields|
      ensures IsKeyOf(entries, fields[j].key)
    {
      var i := FieldComesFrom(aliases, maps, id, entries, fields, j);
    }
    forall i | 0 <= i < |entries| && IsLatest(entries, i)
      ensures HasKey(fields, StringKey(CString(entries[i].key.s)))
    {
      var k := CString(entries[i].key.s);
      NeverNone(maps, id, maps[id][k], entries[i].value);
      assert k in maps[id] && maps[id][k] != VNone;
    }
  }

  /** Every table that is held and mirrored has come back so. */
  lemma {:induction false} TableComesBack(aliases: bool, maps: Maps, id: nat, entries: seq<Entry>, fields: seq<Entry>)
    requires Proper(Table(entries)) && HoldsTable(maps, id, entries) && MirrorsTable(aliases, maps, id, fields)
    ensures TableComesBackAs(aliases, entries, fields)
    decreases Table(entries), 0
  {
    hide CString, FieldsOf, InsideComesBackAs, Holds, Mirrors;
    HeldFields(aliases, maps, id, entries, fields);
    forall i, j | 0 <= i < |entries| && 0 <= j < |fields| && IsLatest(entries, i) &&
                  fields[j].key == StringKey(CString(entries[i].key.s))
      ensures InsideComesBackAs(aliases, entries[i].value, fields[j].value)
    {
      ValueComesBack(aliases, maps, id, maps[id][fields[j].key.s], entries[i].value, fields[j].value);
    }
  }

  lemma {:induction false} ValueComesBack(aliases: bool, maps: Maps, lo: int, value: Value, v: LuaValue, u: LuaValue)
    requires Proper(v) && v != Nil && Holds(maps, lo, value, v) && Mirrors(aliases, maps, value, u)
    ensures InsideComesBackAs(aliases, v, u)
    decreases v, 1
  {
    match v
    case Table(entries) =>
      if aliases {
        TableComesBack(aliases, maps, value.id, entries, u.entries);
      }
    case String(s) =>
      NulFreePasses(CString(s));
    case _ =>
  }

  /** The other way round: what a stored value is stored as again once it has been pushed and read back. */
  lemma ValueReturns(aliases: bool, maps: Maps, value: Value, u: LuaValue, later: Maps, lo: int, again: Value)
    requires Mirrors(aliases, maps, value, u) && Holds(later, lo, again, u)
    ensures match value
            case VBool(b) => again == VInt(if b then 1 else 0)
            case VStr(s) => again.VStr? && CutAtNul(again.s, s)
            case VMap(id) => if aliases then again.VMap? else again == VPtr(MapAt(id))
            case VArray(number, _) => again.VPtr? && (!aliases ==> again.p == ArrayAt(number))
            case _ => again == value
  {
    if value.VStr? {
      NulFreePasses(CString(value.s));
    }
  }

  // Room on the Lua stack.

  /** `room` free slots are enough to read `v`: three for a table, of which two stay taken while an entry is read. */
  predicate FitsStack(v: LuaValue, room: int)
    decreases v
  {
    v.Table? ==>
      && room >= 3
      && forall i :: 0 <= i < |v.entries| && v.entries[i].key.StringKey? ==> FitsStack(v.entries[i].value, room - 2)
  }

  /** `room` free slots are enough to push map `id`: two, of which one stays taken while a nested handle is pushed. */
  ghost predicate MapFits(aliases: bool, maps: Maps, id: nat, room: int)
    decreases room
  {
    && room >= 2 && id in maps
    && forall k :: k in maps[id] && aliases && maps[id][k].VMap? ==> MapFits(aliases, maps, maps[id][k].id, room - 1)
  }

  /** The entries numbered by `path`, all under string keys, lead from `v` to a table. */
  predicate LeadsToTable(v: LuaValue, path: seq<nat>)
    decreases |path|
  {
    && v.Table?
    && (path == [] ||
        (path[0] < |v.entries| && v.entries[path[0]].key.StringKey? && LeadsToTable(v.entries[path[0]].value, path[1..])))
  }

  lemma {:induction false} PathNeedsRoom(v: LuaValue, room: int, path: seq<nat>)
    requires FitsStack(v, room) && LeadsToTable(v, path)
    ensures 3 + 2 * |path| <= room
    decreases |path|
  {
    if path != [] {
      PathNeedsRoom(v.entries[path[0]].value, room - 2, path[1..]);
    }
  }

  lemma {:induction false} DeepPath(v: LuaValue, room: int) returns (path: seq<nat>)
    requires !FitsStack(v, room)
    ensures LeadsToTable(v, path) && room < 3 + 2 * |path|
    decreases v
  {
    if room < 3 {
      path := [];
    } else {
      var i :| 0 <= i < |v.entries| && v.entries[i].key.StringKey? && !FitsStack(v.entries[i].value, room - 2);
      var rest := DeepPath(v.entries[i].value, room - 2);
      path := [i] + rest;
      assert path[1..] == rest;
    }
  }

  /** The deepest table decides: reading needs three slots for it and two for each table around it. */
  lemma DepthDecides(v: LuaValue, room: int)
    ensures FitsStack(v, room) <==> forall path :: LeadsToTable(v, path) ==> 3 + 2 * |path| <= room
  {
    hide FitsStack, LeadsToTable;
    if FitsStack(v, room) {
      forall path | LeadsToTable(v, path)
        ensures 3 + 2 * |path| <= room
      {
        PathNeedsRoom(v, room, path);
      }
    } else {
      var path := DeepPath(v, room);
    }
  }

  /** The keys of `path` lead from map `id` to a map. */
  ghost predicate LeadsToMap(maps: Maps, id: nat, path: seq<string>)
    decreases |path|
  {
    && id in maps
    && (path == [] ||
        (path[0] in maps[id] && maps[id][path[0]].VMap? && LeadsToMap(maps, maps[id][path[0]].id, path[1..])))
  }

  /** Every map that a map holds exists. */
  ghost predicate NoneMissing(maps: Maps) {
    forall id, k :: id in maps && k in maps[id] && maps[id][k].VMap? ==> maps[id][k].id in maps
  }

  lemma {:induction false} PathNeedsSlots(maps: Maps, id: nat, room: int, path: seq<string>)
    requires MapFits(true, maps, id, room) && LeadsToMap(maps, id, path)
    ensures 2 + |path| <= room
    decreases |path|
  {
    if path != [] {
      PathNeedsSlots(maps, maps[id][path[0]].id, room - 1, path[1..]);
    }
  }

  lemma {:induction false} DeepMapPath(maps: Maps, id: nat, room: int) returns (path: seq<string>)
    requires NoneMissing(maps) && id in maps && !MapFits(true, maps, id, room)
    ensures LeadsToMap(maps, id, path) && room < 2 + |path|
    decreases room
  {
    if room < 2 {
      path := [];
    } else {
      var k :| k in maps[id] && maps[id][k].VMap? && !MapFits(true, maps, maps[id][k].id, room - 1);
      var rest := DeepMapPath(maps, maps[id][k].id, room - 1);
      path := [k] + rest;
      assert path[1..] == rest;
    }
  }

  /** Pushing a map needs two slots for the deepest map that is pushed as a table and one for each map around it. With raw
      pointers no nested map is. */
  lemma MapDepthDecides(aliases: bool, maps: Maps, id: nat, room: int)
    requires NoneMissing(maps) && id in maps
    ensures MapFits(aliases, maps, id, room) <==>
            room >= 2 && (aliases ==> forall path :: LeadsToMap(maps, id, path) ==> 2 + |path| <= room)
  {
    if aliases {
      hide MapFits, LeadsToMap, NoneMissing;
      if MapFits(aliases, maps, id, room) {
        forall path | LeadsToMap(maps, id, path)
          ensures 2 + |path| <= room
        {
          PathNeedsSlots(maps, id, room, path);
        }
        SelfIsMap(maps, id);
      } else {
        var path := DeepMapPath(maps, id, room);
      }
    }
  }

  lemma SelfIsMap(maps: Maps, id: nat)
    requires id in maps
    ensures LeadsToMap(maps, id, [])
  {
  }

  lemma {:induction false} MoreRoomFits(aliases: bool, maps: Maps, id: nat, room: int, more: int)
    requires MapFits(aliases, maps, id, room) && room <= more
    ensures MapFits(aliases, maps, id, more)
    decreases room
  {
    forall k | k in maps[id] && aliases && maps[id][k].VMap?
      ensures MapFits(aliases, maps, maps[id][k].id, more - 1)
    {
      MoreRoomFits(aliases, maps, maps[id][k].id, room - 1, more - 1);
    }
  }

  /** A stored map can only be a table that was held. */
  lemma HeldMapIsTable(maps: Maps, lo: int, value: Value, v: LuaValue)
    requires Holds(maps, lo, value, v) && value.VMap?
    ensures v.Table? && HoldsTable(maps, value.id, v.entries)
  {
    hide CString;
  }

  lemma TableIsThere(maps: Maps, id: nat, entries: seq<Entry>)
    requires HoldsTable(maps, id, entries)
    ensures id in maps
  {
  }

  /** The entry a key of the map comes from. */
  lemma EntryHeldAt(maps: Maps, id: nat, entries: seq<Entry>, k: string) returns (v: LuaValue)
    requires HoldsTable(maps, id, entries) && k in maps[id]
    ensures exists i :: 0 <= i < |entries| && entries[i].key.StringKey? && entries[i].value == v
    ensures Holds(maps, id, maps[id][k], v)
  {
    hide CString, Holds;
    var i :| 0 <= i < |entries| && IsLatest(entries, i) && CString(entries[i].key.s) == k;
    v := entries[i].value;
  }

  /** A table that could be read in some room can be pushed back in that room. */
  lemma {:induction false} HeldTableFits(aliases: bool, maps: Maps, id: nat, entries: seq<Entry>, room: int)
    requires HoldsTable(maps, id, entries) && FitsStack(Table(entries), room)
    ensures MapFits(aliases, maps, id, room)
    decreases Table(entries)
  {
    hide CString, Holds, HoldsTable;
    assert id in maps by { TableIsThere(maps, id, entries); }
    forall k | k in maps[id] && aliases && maps[id][k].VMap?
      ensures MapFits(aliases, maps, maps[id][k].id, room - 1)
    {
      var v := EntryHeldAt(maps, id, entries, k);
      HeldMapIsTable(maps, id, maps[id][k], v);
      assert FitsStack(v, room - 2);
      HeldTableFits(aliases, maps, maps[id][k].id, v.entries, room - 2);
      MoreRoomFits(aliases, maps, maps[id][k].id, room - 2, room - 1);
    }
  }

  /** The tables in `v`, itself included, that are reached through string keys. */
  function Tables(v: LuaValue): nat
    decreases v, if v.Table? then |v.entries| + 1 else 0
  {
    if v.Table? then 1 + TablesIn(v, |v.entries|) else 0
  }

  /** The tables in the first `n` entries of `v`. */
  function TablesIn(v: LuaValue, n: nat): nat
    requires v.Table? && n <= |v.entries|
    decreases v, n
  {
    if n == 0 then 0
    else TablesIn(v, n - 1) + (if v.entries[n - 1].key.StringKey? then Tables(v.entries[n - 1].value) else 0)
  }

  // The table of the regression test, nested to any depth.

  function Nested(depth: nat): LuaValue {
    if depth == 0 then Table([Entry(StringKey("leaf"), Integer(42))])
    else Table([Entry(StringKey("inner"), Nested(depth - 1))])
  }

  /** It is portable at every depth if nested maps come back as handles, and only unnested if they come back as pointers;
      it needs two slots a level and three for the innermost table. */
  lemma {:induction false} NestedIs(depth: nat, room: int)
    ensures Proper(Nested(depth)) && Nested(depth).Table?
    ensures Portable(true, Nested(depth))
    ensures forall aliases :: PortableTable(aliases, Nested(depth).entries) <==> aliases || depth == 0
    ensures FitsStack(Nested(depth), room) <==> room >= 3 + 2 * depth
    ensures Tables(Nested(depth)) == depth + 1
  {
    assert NUL !in "inner" && NUL !in "leaf";
    var t := Nested(depth);
    assert Tables(t) == 1 + TablesIn(t, 1);
    assert TablesIn(t, 0) == 0;
    if depth > 0 {
      NestedIs(depth - 1, room - 2);
      assert t.entries[0].value == Nested(depth - 1);
      assert !Portable(false, Nested(depth - 1));
    }
  }
}
