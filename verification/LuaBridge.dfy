/** The Lua bridge: `from_lua` and `to_lua` over the Lua stack and the handle table. */
module LuaBridge {
  import opened LuaValues
  import opened Text

  /** A value crossing the bridge; a null C string is None. */
  datatype Any =
    | CgNone
    | CgInt(n: int)
    | CgBool(n: int)
    | CgFloat(x: real)
    | CgPtr(p: Pointer)
    | CgStr(cstr: Option<string>)
    | CgMap(id: nat)
    | CgArray(number: int, items: seq<Value>)
    | CgMapHandle(handle: int)
    | CgArrayHandle(handle: int)

  /** What a handle refers to: a shared map, or an array of values. */
  datatype Object = MapObject(id: nat) | ArrayObject(number: int, items: seq<Value>)

  datatype Outcome<+T> = Done(value: T) | Thrown

  // Stack positions, as Lua counts them: from 1 upwards, or from -1 downwards.

  predicate IsIndex(stack: seq<LuaValue>, index: int) {
    1 <= index <= |stack| || -|stack| <= index <= -1
  }

  function Position(stack: seq<LuaValue>, index: int): (k: nat)
    requires IsIndex(stack, index)
    ensures k < |stack|
  {
    if index < 0 then |stack| + index else index - 1
  }

  function At(stack: seq<LuaValue>, index: int): LuaValue
    requires IsIndex(stack, index)
  {
    stack[Position(stack, index)]
  }

  function KeyOnStack(key: Key): LuaValue {
    match key case StringKey(s) => String(s) case OtherKey(id) => Opaque(id)
  }

  /** `t[key] = value`: nil removes, a known key is replaced, a new one added. */
  function SetField(entries: seq<Entry>, key: Key, value: LuaValue): seq<Entry> {
    if entries == [] then (if value == Nil then [] else [Entry(key, value)])
    else if entries[0].key == key then (if value == Nil then entries[1..] else [Entry(key, value)] + entries[1..])
    else [entries[0]] + SetField(entries[1..], key, value)
  }

  lemma {:induction false} NewField(entries: seq<Entry>, key: Key, value: LuaValue)
    requires !HasKey(entries, key)
    ensures SetField(entries, key, value) == if value == Nil then entries else entries + [Entry(key, value)]
  {
    if entries != [] {
      assert forall j :: 0 <= j < |entries[1..]| ==> entries[1..][j] == entries[j + 1];
      NewField(entries[1..], key, value);
    }
  }

  // Values inside the bridge and across it.

  /** `AnyConverter::from_any`: booleans become integers. */
  function FromAny(any: Any): Value {
    match any
    case CgNone => VNone
    case CgInt(n) => VInt(n)
    case CgBool(n) => VInt(n)
    case CgFloat(x) => VFloat(x)
    case CgStr(cstr) => VStr(match cstr case None => "" case Some(s) => s)
    case CgMap(id) => VMap(id)
    case CgArray(number, items) => VArray(number, items)
    case CgPtr(p) => VPtr(p)
    case CgMapHandle(h) => VPtr(Foreign(h))
    case CgArrayHandle(h) => VPtr(Foreign(h))
  }

  /** `AnyConverter::to_any_borrow`: a nested map or array is a raw pointer. */
  function ToAnyBorrow(value: Value): Any {
    match value
    case VNone => CgNone
    case VInt(n) => CgInt(n)
    case VBool(b) => CgBool(if b then 1 else 0)
    case VFloat(x) => CgFloat(x)
    case VStr(s) => CgStr(Some(CString(s)))
    case VMap(id) => CgMap(id)
    case VArray(number, items) => CgArray(number, items)
    case VPtr(p) => CgPtr(p)
  }

  /** What `from_lua` makes of a value that is not a table. */
  function ScalarAny(v: LuaValue): Any {
    match v
    case Boolean(b) => CgBool(if b then 1 else 0)
    case Integer(n) => CgInt(n)
    case Float(x) => CgFloat(x)
    case String(s) => CgStr(Some(CString(s)))
    case LightUserdata(p) => CgPtr(p)
    case Userdata(p) => CgPtr(p)
    case Opaque(_) => CgPtr(Null)
    case _ => CgNone
  }

  /** What `to_lua` pushes for anything but a map handle. */
  function ScalarPush(any: Any): LuaValue {
    match any
    case CgBool(n) => Boolean(n % 0x1_0000_0000 != 0)
    case CgInt(n) => Integer(n)
    case CgFloat(x) => Float(x)
    case CgStr(cstr) => String(match cstr case None => "" case Some(s) => s)
    case CgPtr(p) => LightUserdata(p)
    case CgMap(id) => LightUserdata(MapAt(id))
    case CgArray(number, _) => LightUserdata(ArrayAt(number))
    case CgArrayHandle(h) => LightUserdata(Foreign(h))
    case _ => Nil
  }

  /** Scalars at the top of the bridge come back as they went in, strings up to their first NUL. */
  lemma ScalarRoundTrip(v: LuaValue)
    requires !v.Table?
    ensures ScalarPush(ScalarAny(v)) == v <==> !v.Userdata? && !v.Opaque? && (v.String? ==> NUL !in v.s)
  {
    if v.String? {
      NulFreePasses(v.s);
    }
  }

  /** The other way round: what is pushed for a value that is no map handle is read as that value again, unless it is an
      odd boolean, a null or cut string, or a raw map, array or array handle. */
  lemma AnyRoundTrip(any: Any)
    requires !any.CgMapHandle?
    ensures ScalarAny(ScalarPush(any)) == any <==>
            match any
            case CgBool(n) => n == 0 || n == 1
            case CgStr(cstr) => cstr.Some? && NUL !in cstr.value
            case CgMap(_) => false
            case CgArray(_, _) => false
            case CgArrayHandle(_) => false
            case _ => true
  {
    if any.CgStr? && any.cstr.Some? {
      NulFreePasses(any.cstr.value);
    }
  }

  /** What is pushed where that is not so: a boolean is false exactly on a multiple of 2^32, a null string is empty, and the
      rest are addresses. */
  lemma PushedOtherwise(any: Any)
    ensures any.CgBool? ==> ScalarPush(any).Boolean? && (ScalarPush(any).b <==> any.n % 4294967296 != 0)
    ensures any.CgStr? ==> ScalarPush(any).String? && (any.cstr == None ==> ScalarPush(any).s == "")
    ensures any.CgMap? ==> ScalarPush(any) == LightUserdata(MapAt(any.id))
    ensures any.CgArray? ==> ScalarPush(any) == LightUserdata(ArrayAt(any.number))
    ensures any.CgArrayHandle? ==> ScalarPush(any) == LightUserdata(Foreign(any.handle))
  {
  }

  lemma ScalarComesBack(v: LuaValue)
    requires !v.Table?
    ensures AloneComesBackAs(v, ScalarPush(ScalarAny(v)))
  {
    hide CString;
  }

  // What every operation keeps.

  /** Nested maps exist and have higher numbers; keys are C strings. */
  ghost predicate MapsOk(maps: Maps, nextMap: nat) {
    forall id :: id in maps ==> id < nextMap && MapOk(maps, id)
  }

  ghost predicate MapOk(maps: Maps, id: nat)
    requires id in maps
  {
    forall k :: k in maps[id] ==>
      && NUL !in k
      && (maps[id][k].VMap? ==> id < maps[id][k].id && maps[id][k].id in maps)
  }

  ghost predicate HandlesOk(handles: map<int, Object>, nextHandle: int, maps: Maps) {
    forall h :: h in handles ==> h < nextHandle && (handles[h].MapObject? ==> handles[h].id in maps)
  }

  /** Nothing that was there has changed. */
  ghost predicate Grown<K, V>(before: map<K, V>, after: map<K, V>) {
    forall k :: k in before ==> k in after && after[k] == before[k]
  }

  class Bridge {
    /** Whether `map_get` answers with a fresh handle for a nested map. */
    const aliases: bool
    /** The most slots the Lua stack can ever have. */
    const limit: nat
    var stack: seq<LuaValue>
    /** Slots ensured so far; a push beyond them is not allowed. */
    var capacity: nat
    var handles: map<int, Object>
    var nextHandle: int
    var maps: Maps
    var nextMap: nat

    ghost predicate Valid()
      reads this
    {
      && |stack| <= capacity <= limit
      && MapsOk(maps, nextMap)
      && HandlesOk(handles, nextHandle, maps)
    }

    /** A new Lua state has twenty free slots. */
    constructor (aliases: bool, limit: nat)
      requires limit >= 20
      ensures Valid() && this.aliases == aliases && this.limit == limit
      ensures stack == [] && capacity == 20 && handles == map[] && maps == map[]
    {
      this.aliases, this.limit := aliases, limit;
      stack, capacity := [], 20;
      handles, nextHandle := map[], 1;
      maps, nextMap := map[], 0;
    }

    // The Lua API.

    method Push(v: LuaValue)
      requires |stack| < capacity
      modifies this`stack
      ensures stack == old(stack) + [v]
    {
      stack := stack + [v];
    }

    method Pop()
      requires stack != []
      modifies this`stack
      ensures stack == old(stack)[..|old(stack)| - 1]
    {
      stack := stack[..|stack| - 1];
    }

    method CheckStack(n: nat) returns (ok: bool)
      requires capacity <= limit
      modifies this`capacity
      ensures old(capacity) <= capacity <= limit
      ensures ok <==> |stack| + n <= limit
      ensures ok ==> |stack| + n <= capacity
    {
      ok := |stack| + n <= limit;
      if ok && capacity < |stack| + n {
        capacity := |stack| + n;
      }
    }

    /** `lua_next` on the table at `index`, where the key on top is nil or the key of entry `k - 1`. */
    method Next(index: int, ghost k: nat) returns (more: bool)
      requires IsIndex(stack, index) && Position(stack, index) < |stack| - 1 && At(stack, index).Table?
      requires Proper(At(stack, index)) && k <= |At(stack, index).entries|
      requires stack[|stack| - 1] == if k == 0 then Nil else KeyOnStack(At(stack, index).entries[k - 1].key)
      requires |stack| < capacity
      modifies this`stack
      ensures more <==> k < |old(At(stack, index)).entries|
      ensures stack == old(stack)[..|old(stack)| - 1] +
                       if more then var e := old(At(stack, index)).entries[k]; [KeyOnStack(e.key), e.value] else []
    {
      var entries := At(stack, index).entries;
      var key := stack[|stack| - 1];
      stack := stack[..|stack| - 1];
      var i := 0;
      if key != Nil {
        while KeyOnStack(entries[i].key) != key
          invariant 0 <= i < k
          decreases k - i
        {
          i := i + 1;
        }
        i := i + 1;
      }
      more := i < |entries|;
      if more {
        stack := stack + [KeyOnStack(entries[i].key), entries[i].value];
      }
    }

    // The handle table.

    method Insert(item: Object) returns (h: int)
      requires HandlesOk(handles, nextHandle, maps) && (item.MapObject? ==> item.id in maps)
      modifies this`handles, this`nextHandle
      ensures h == old(nextHandle) && h !in old(handles) && nextHandle == h + 1
      ensures handles == old(handles)[h := item]
      ensures HandlesOk(handles, nextHandle, maps)
    {
      h := nextHandle;
      nextHandle := nextHandle + 1;
      handles := handles[h := item];
    }

    method MapCreate() returns (h: int)
      requires Valid()
      modifies this
      ensures Valid() && stack == old(stack) && capacity == old(capacity)
      ensures h !in old(handles) && handles == old(handles)[h := MapObject(old(nextMap))]
      ensures old(nextMap) !in old(maps) && maps == old(maps)[old(nextMap) := map[]] && nextMap == old(nextMap) + 1
    {
      var id := nextMap;
      maps := maps[id := map[]];
      nextMap := nextMap + 1;
      h := Insert(MapObject(id));
    }

    /** `map_set`; false when a handle is not live or of the wrong kind, on which the lookup throws. */
    method MapSet(h: int, key: string, any: Any) returns (ok: bool)
      requires HandlesOk(handles, nextHandle, maps)
      modifies this`maps
      ensures ok <==> h in handles && handles[h].MapObject? && IsStorable(handles, any)
      ensures !ok ==> maps == old(maps)
      ensures ok ==>
        var id := handles[h].id;
        id in old(maps) && maps == old(maps)[id := old(maps)[id][key := StoredValue(handles, any)]]
    {
      ok := h in handles && handles[h].MapObject?;
      if !ok {
        return;
      }
      var id := handles[h].id;
      if any.CgMapHandle? {
        ok := any.handle in handles && handles[any.handle].MapObject?;
        if ok {
          maps := maps[id := maps[id][key := VMap(handles[any.handle].id)]];
        }
      } else if any.CgArrayHandle? {
        ok := any.handle in handles && handles[any.handle].ArrayObject?;
        if ok {
          maps := maps[id := maps[id][key := VArray(handles[any.handle].number, handles[any.handle].items)]];
        }
      } else {
        maps := maps[id := maps[id][key := FromAny(any)]];
      }
    }

    /** A snapshot of a map's keys, in any order. */
    method ListKeys(m: map<string, Value>) returns (keys: seq<string>)
      ensures NoRepeats(keys) && |keys| == |m| && forall k :: k in keys <==> k in m
    {
      keys := [];
      var todo := m.Keys;
      while todo != {}
        invariant todo <= m.Keys && NoRepeats(keys) && |keys| + |todo| == |m|
        invariant forall k :: k in keys <==> k in m && k !in todo
        decreases todo
      {
        var k :| k in todo;
        keys := keys + [k];
        todo := todo - {k};
      }
    }

    // The two directions.

    /** Reads the value at `index`, exactly if the stack can grow enough for its depth. The stack is left as it was found;
        a table becomes a fresh map holding its string-keyed entries, and nothing that existed before has changed. Each
        table read leaves one more live handle. */
    method FromLua(index: int) returns (r: Outcome<Any>)
      requires Valid() && IsIndex(stack, index) && Proper(At(stack, index))
      modifies this
      ensures old(At(stack, index)) == if index > 0 then old(stack)[index - 1] else old(stack)[|old(stack)| + index]
      ensures Valid() && old(capacity) <= capacity && old(nextMap) <= nextMap
      ensures Grown(old(maps), maps) && Grown(old(handles), handles)
      ensures r.Done? <==> FitsStack(old(At(stack, index)), limit - |old(stack)|)
      ensures r.Done? ==> stack == old(stack) && |handles| == |old(handles)| + Tables(old(At(stack, index)))
      ensures r.Done? && !old(At(stack, index)).Table? ==> r.value == ScalarAny(old(At(stack, index)))
      ensures r.Done? && old(At(stack, index)).Table? ==>
                Carries(handles, maps, old(nextMap), r.value, old(At(stack, index)).entries)
      decreases At(stack, index), 3
    {
      SlotOf(stack, index);
      hide Carries, MapsOk, HandlesOk, Grown, At, Position, IsIndex, Proper, ScalarAny;
      if !At(stack, index).Table? {
        GrownReflexive(maps);
        GrownReflexive(handles);
        return Done(ScalarAny(At(stack, index)));
      }
      r := ReadTable(index);
    }

    /** The table case of `from_lua`. */
    method ReadTable(index: int) returns (r: Outcome<Any>)
      requires Valid() && IsIndex(stack, index) && Proper(At(stack, index)) && At(stack, index).Table?
      modifies this
      ensures Valid() && old(capacity) <= capacity && old(nextMap) <= nextMap
      ensures Grown(old(maps), maps) && Grown(old(handles), handles)
      ensures r.Done? <==> FitsStack(old(At(stack, index)), limit - |old(stack)|)
      ensures r.Done? ==> stack == old(stack) && |handles| == |old(handles)| + Tables(old(At(stack, index)))
      ensures r.Done? ==> Carries(handles, maps, old(nextMap), r.value, old(At(stack, index)).entries)
      decreases At(stack, index), 2
    {
      hide HoldsTable, MapsOk, HandlesOk, Grown, KeyOnStack, At, Position, IsIndex, Proper;
      var ok := CheckStack(3);
      if !ok {
        GrownReflexive(maps);
        GrownReflexive(handles);
        return Thrown;
      }
      ghost var base, id := stack, nextMap;
      var h := MapCreate();
      GrownByOne<nat, map<string, Value>>(old(maps), id, maps[id]);
      assert maps == old(maps)[id := maps[id]];
      GrownByOne(old(handles), h, MapObject(id));
      EmptyTable(maps, id);
      Push(Nil);
      ok := FillMap(index, h, base, id, old(maps), old(handles));
      return if ok then Done(CgMapHandle(h)) else Thrown;
    }

    /** The loop in `from_lua`: with nil pushed, walks the table named by `index` and stores its entries in the map. */
    method FillMap(index: int, h: int, ghost base: seq<LuaValue>, ghost id: nat,
                   ghost maps0: Maps, ghost handles0: map<int, Object>) returns (ok: bool)
      requires Valid() && stack == base + [Nil] && |base| + 3 <= capacity
      requires IsIndex(base, index) && At(base, index).Table? && Proper(At(base, index))
      requires h in handles && handles[h] == MapObject(id) && id < nextMap && id !in maps0
      requires HoldsTable(maps, id, []) && Grown(maps0, maps) && Grown(handles0, handles)
      modifies this
      ensures Valid() && old(capacity) <= capacity && old(nextMap) <= nextMap
      ensures Grown(maps0, maps) && Grown(handles0, handles)
      ensures ok ==> stack == base && h in handles && handles[h] == MapObject(id)
      ensures ok ==> HoldsTable(maps, id, At(base, index).entries)
      ensures ok ==> |handles| == |old(handles)| + TablesIn(At(base, index), |At(base, index).entries|)
      ensures ok <==> FitsStack(At(base, index), limit - |base|)
      decreases At(base, index), 1
    {
      hide HoldsTable, MapsOk, HandlesOk, Grown, KeyOnStack, At, Position, IsIndex, Proper;
      var adjusted := if index < 0 then index - 1 else index;
      ghost var entries := At(base, index).entries;
      ghost var k := 0;
      assert entries[..0] == [];
      while true
        invariant Valid() && |base| + 3 <= capacity && old(capacity) <= capacity && id < old(nextMap) <= nextMap
        invariant k <= |entries| && stack == base + [if k == 0 then Nil else KeyOnStack(entries[k - 1].key)]
        invariant Grown(maps0, maps) && Grown(handles0, handles)
        invariant h in handles && handles[h] == MapObject(id)
        invariant HoldsTable(maps, id, entries[..k])
        invariant |handles| == |old(handles)| + TablesIn(At(base, index), k)
        invariant forall i :: 0 <= i < k && entries[i].key.StringKey? ==> FitsStack(entries[i].value, limit - |base| - 2)
        decreases |entries| - k
      {
        AdjustedIndex(base, stack[|base|], index);
        var more := Next(adjusted, k);
        if !more {
          break;
        }
        assert stack == base + [KeyOnStack(entries[k].key), entries[k].value];
        ok := StoreEntry(h, id, entries, k, maps0, handles0);
        if !ok {
          return;
        }
        Pop();
        k := k + 1;
      }
      assert entries[..k] == entries;
      assert stack == base;
      return true;
    }

    /** One round of the loop in `from_lua`: the entry on top of the stack is stored if its key is a string. */
    method StoreEntry(h: int, ghost id: nat, ghost entries: seq<Entry>, ghost k: nat,
                      ghost maps0: Maps, ghost handles0: map<int, Object>) returns (ok: bool)
      requires Valid() && k < |entries| && Proper(Table(entries)) && |stack| >= 2
      requires stack[|stack| - 2] == KeyOnStack(entries[k].key) && stack[|stack| - 1] == entries[k].value
      requires h in handles && handles[h] == MapObject(id) && id < nextMap && id !in maps0
      requires HoldsTable(maps, id, entries[..k]) && Grown(maps0, maps) && Grown(handles0, handles)
      modifies this
      ensures Valid() && old(capacity) <= capacity && old(nextMap) <= nextMap
      ensures Grown(maps0, maps) && Grown(handles0, handles)
      ensures ok ==> stack == old(stack) && h in handles && handles[h] == MapObject(id)
      ensures ok ==> id in maps && HoldsTable(maps, id, entries[..k + 1])
      ensures ok ==> |handles| == |old(handles)| + if entries[k].key.StringKey? then Tables(entries[k].value) else 0
      ensures ok <==> entries[k].key.StringKey? ==> FitsStack(entries[k].value, limit - |old(stack)|)
      decreases entries[k].value, 4
    {
      hide Holds, CString, IsLatest, MapsOk;
      if !stack[|stack| - 2].String? {
        EntrySkipped(maps, id, entries, k);
        return true;
      }
      var key := CString(stack[|stack| - 2].s);
      var dict := FromLua(-1);
      if dict.Thrown? {
        return false;
      }
      TableFrame(old(maps), maps, id, entries[..k]);
      ghost var value := StoredValue(handles, dict.value);
      StoredHolds(handles, maps, id, dict.value, entries[k].value);
      EntryStored(maps, id, entries, k, value);
      StoredKeepsOk(maps, nextMap, id, key, value);
      ok := MapSet(h, key, dict.value);
    }

    /** `map_get`: throws exactly on a handle that names no map; a missing key is None, a nested map or array a fresh
        handle or a raw pointer. */
    method MapGet(h: int, key: string) returns (r: Outcome<Any>)
      requires Valid()
      modifies this`handles, this`nextHandle
      ensures Valid() && old(nextHandle) <= nextHandle
      ensures r.Done? <==> h in old(handles) && old(handles)[h].MapObject?
      ensures r.Thrown? ==> handles == old(handles)
      ensures r.Done? ==> old(handles)[h].id in maps
      ensures r.Done? ==>
                var m := maps[old(handles)[h].id];
                if aliases && key in m && (m[key].VMap? || m[key].VArray?) then
                  && r.value == (if m[key].VMap? then CgMapHandle(old(nextHandle)) else CgArrayHandle(old(nextHandle)))
                  && old(nextHandle) !in old(handles)
                  && handles == old(handles)[old(nextHandle) := ObjectOf(m[key])]
                else handles == old(handles) && r.value == if key in m then ToAnyBorrow(m[key]) else CgNone
    {
      if h !in handles || !handles[h].MapObject? {
        return Thrown;
      }
      var m := maps[handles[h].id];
      assert MapOk(maps, handles[h].id);
      if key !in m {
        return Done(CgNone);
      }
      if aliases && (m[key].VMap? || m[key].VArray?) {
        var alias := Insert(ObjectOf(m[key]));
        return Done(if m[key].VMap? then CgMapHandle(alias) else CgArrayHandle(alias));
      }
      return Done(ToAnyBorrow(m[key]));
    }

    /** `lua_setfield` on the table below the top: the top becomes a field and is popped. */
    method SetFieldBelow(key: string)
      requires |stack| >= 2 && stack[|stack| - 2].Table?
      modifies this`stack
      ensures stack == old(stack)[..|old(stack)| - 2] +
                [Table(SetField(old(stack)[|old(stack)| - 2].entries, StringKey(key), old(stack)[|old(stack)| - 1]))]
    {
      var n := |stack|;
      stack := stack[..n - 2] + [Table(SetField(stack[n - 2].entries, StringKey(key), stack[n - 1]))];
    }

    ghost function Rank(any: Any): nat
      requires Valid()
      reads this
    {
      if any.CgMapHandle? && any.handle in handles && handles[any.handle].MapObject? then
        assert MapOk(maps, handles[any.handle].id);
        1 + nextMap - handles[any.handle].id
      else 0
    }

    /** Pushes exactly one value; throws exactly on a handle that names no map, or a map nested deeper than the stack can
        grow. A map handle becomes a table of the map's fields; no map is touched, and every handle made on the way has
        been freed. */
    method ToLua(any: Any) returns (r: Outcome<int>)
      requires Valid() && |stack| < capacity
      modifies this
      ensures Valid() && maps == old(maps) && nextMap == old(nextMap)
      ensures old(capacity) <= capacity && old(nextHandle) <= nextHandle
      ensures r.Done? <==>
                any.CgMapHandle? ==>
                  && any.handle in old(handles) && old(handles)[any.handle].MapObject?
                  && MapFits(aliases, maps, old(handles)[any.handle].id, limit - |old(stack)|)
      ensures r.Done? ==> r.value == 1 && handles == old(handles)
      ensures r.Done? ==> |stack| == |old(stack)| + 1 && stack[..|old(stack)|] == old(stack)
      ensures r.Done? && !any.CgMapHandle? ==> stack[|old(stack)|] == ScalarPush(any)
      ensures r.Done? && any.CgMapHandle? ==> any.handle in handles && handles[any.handle].MapObject?
      ensures r.Done? && any.CgMapHandle? ==>
                && stack[|old(stack)|].Table?
                && MirrorsTable(aliases, maps, handles[any.handle].id, stack[|old(stack)|].entries)
      decreases Rank(any), 0
    {
      hide MirrorsTable, MapsOk, HandlesOk, ScalarPush, NoRepeats, MapFits;
      if !any.CgMapHandle? {
        Push(ScalarPush(any));
        return Done(1);
      }
      var ok := CheckStack(2);
      if !ok {
        NoRoomForMap(aliases, maps, limit - |stack|);
        return Thrown;
      }
      ghost var base := stack;
      Push(Table([]));
      if any.handle !in handles || !handles[any.handle].MapObject? {
        return Thrown;
      }
      ghost var id := handles[any.handle].id;
      MapIsThere(handles, nextHandle, maps, nextMap, any.handle);
      var keys := ListKeys(maps[handles[any.handle].id]);
      var snapshot := ArrayObject(nextHandle, seq(|keys|, i requires 0 <= i < |keys| => VStr(keys[i])));
      var keysHandle := Insert(snapshot);
      ok := CopyFields(any.handle, keys, base, id);
      if !ok {
        return Thrown;
      }
      handles := handles - {keysHandle};
      assert handles == old(handles);
      HandlesStay(old(handles), old(nextHandle), nextHandle, maps);
      return Done(1);
    }

    /** The loop in `to_lua`: each key of the map becomes a field of the empty table on top of the stack. */
    method CopyFields(h: int, keys: seq<string>, ghost base: seq<LuaValue>, ghost id: nat) returns (ok: bool)
      requires Valid() && h in handles && handles[h] == MapObject(id) && KeysOf(maps, id, keys) && id < nextMap
      requires stack == base + [Table([])] && |base| + 2 <= capacity
      modifies this
      ensures Valid() && maps == old(maps) && nextMap == old(nextMap)
      ensures old(capacity) <= capacity && old(nextHandle) <= nextHandle
      ensures ok <==> MapFits(aliases, maps, id, limit - |base|)
      ensures ok ==> handles == old(handles) && |stack| == |base| + 1 && stack[..|base|] == base
      ensures ok ==> stack[|base|].Table? && MirrorsTable(aliases, maps, id, stack[|base|].entries)
      decreases nextMap - id, 2
    {
      hide MirrorsTable, Mirrors, MapsOk, HandlesOk, CopiedSoFar, MapOk, HasKey, FieldFits, MapFits, NoRepeats;
      ghost var fields: seq<Entry> := [];
      NothingCopied(aliases, maps, id, keys);
      for idx := 0 to |keys|
        invariant Valid() && |base| + 2 <= capacity && old(capacity) <= capacity
        invariant stack == base + [Table(fields)]
        invariant maps == old(maps) && nextMap == old(nextMap)
        invariant handles == old(handles) && old(nextHandle) <= nextHandle
        invariant CopiedSoFar(aliases, maps, id, keys, idx, fields)
        invariant forall i :: 0 <= i < idx ==> FieldFits(aliases, maps, id, keys[i], limit - |base| - 1)
      {
        ghost var u;
        NotYetCopied(aliases, maps, id, keys, idx, fields);
        ok, u := CopyField(h, keys[idx], base, fields);
        if !ok {
          OneDoesNotFit(aliases, maps, id, keys[idx], limit - |base|);
          return;
        }
        FieldCopied(aliases, maps, id, keys, idx, fields, u);
        fields := if u == Nil then fields else fields + [Entry(StringKey(keys[idx]), u)];
      }
      AllCopied(aliases, maps, id, keys, fields);
      AllFit(aliases, maps, id, keys, limit - |base|);
      return true;
    }

    /** One round of the loop in `to_lua`: one key of the map becomes a field of the table on top of the stack. */
    method CopyField(h: int, key: string, ghost base: seq<LuaValue>, ghost fields: seq<Entry>) returns (ok: bool, ghost u: LuaValue)
      requires Valid() && h in handles && handles[h].MapObject? && handles[h].id in maps && key in maps[handles[h].id]
      requires handles[h].id <= nextMap
      requires stack == base + [Table(fields)] && |base| + 2 <= capacity && !HasKey(fields, StringKey(key))
      modifies this
      ensures Valid() && maps == old(maps) && nextMap == old(nextMap)
      ensures old(capacity) <= capacity && old(nextHandle) <= nextHandle
      ensures ok <==> FieldFits(aliases, maps, old(handles)[h].id, key, limit - |base| - 1)
      ensures ok ==> handles == old(handles)
      ensures ok ==> Mirrors(aliases, maps, maps[handles[h].id][key], u)
      ensures ok ==> stack == base + [Table(if u == Nil then fields else fields + [Entry(StringKey(key), u)])]
      decreases nextMap - handles[h].id, 1
    {
      hide Mirrors, MirrorsTable, MapsOk, HandlesOk, ScalarPush, SetField, HasKey, MapFits, ToAnyBorrow;
      u := Nil;
      ghost var value := maps[handles[h].id][key];
      NestedIsAbove(maps, nextMap, handles[h].id, key);
      BorrowedIsNoHandle(value);
      var got := MapGet(h, key);
      var mapValue := got.value;
      var r := ToLua(mapValue);
      if r.Thrown? {
        return false, u;
      }
      u := stack[|stack| - 1];
      assert stack == base + [Table(fields), u];
      if mapValue.CgMapHandle? {
        TableMirrors(maps, handles[mapValue.handle].id, u);
      } else {
        ScalarMirrors(aliases, maps, value, mapValue);
      }
      SetFieldBelow(key);
      NewField(fields, StringKey(key), u);
      if mapValue.CgMapHandle? || mapValue.CgArrayHandle? {
        handles := handles - {mapValue.handle};
      }
      assert handles == old(handles);
      HandlesStay(old(handles), old(nextHandle), nextHandle, maps);
      return true, u;
    }

    /** Through the bridge and back, exactly if the stack can grow enough for the value's depth: one value is pushed, no
        handle that was live is lost, one is added for each table, and a table comes back equal, its non-string keys
        dropped, if and only if each of its string-keyed entries is portable. */
    method RoundTrip(index: int) returns (r: Outcome<int>)
      requires Valid() && IsIndex(stack, index) && Proper(At(stack, index)) && |stack| < capacity
      modifies this
      ensures old(At(stack, index)) == if index > 0 then old(stack)[index - 1] else old(stack)[|old(stack)| + index]
      ensures Valid()
      ensures r.Done? <==> FitsStack(old(At(stack, index)), limit - |old(stack)|)
      ensures r.Done? ==> Grown(old(handles), handles) && |handles| == |old(handles)| + Tables(old(At(stack, index)))
      ensures r.Done? ==> |stack| == |old(stack)| + 1 && stack[..|old(stack)|] == old(stack)
      ensures r.Done? && old(At(stack, index)).Table? ==>
                (Agrees(old(At(stack, index)), stack[|old(stack)|]) <==>
                 PortableTable(aliases, old(At(stack, index)).entries))
      ensures r.Done? && old(At(stack, index)).Table? ==>
                && stack[|old(stack)|].Table?
                && TableComesBackAs(aliases, old(At(stack, index)).entries, stack[|old(stack)|].entries)
      ensures r.Done? && !old(At(stack, index)).Table? ==> AloneComesBackAs(old(At(stack, index)), stack[|old(stack)|])
    {
      hide AloneComesBackAs, TableComesBackAs, ScalarAny;
      hide Agrees, PortableTable, HoldsTable, MirrorsTable, MapsOk, HandlesOk, Proper, FitsStack, MapFits, ScalarPush, Tables;
      ghost var v := At(stack, index);
      var any := FromLua(index);
      if any.Thrown? {
        return Thrown;
      }
      if v.Table? {
        HeldTableFits(aliases, maps, handles[any.value.handle].id, v.entries, limit - |stack|);
      } else {
        ScalarIsNoHandle(v);
        ScalarComesBack(v);
      }
      r := ToLua(any.value);
      if v.Table? {
        TableRoundTrip(aliases, maps, handles[any.value.handle].id, v.entries, stack[|old(stack)|].entries);
        TableComesBack(aliases, maps, handles[any.value.handle].id, v.entries, stack[|old(stack)|].entries);
      }
    }

    /** The regression test at any depth: given slots for its levels the nested table does make the round trip, leaves a
        handle for each level, and comes back equal if and only if nested maps are handles or nothing is nested. */
    method NestedRoundTrip(depth: nat) returns (r: Outcome<int>)
      requires Valid() && |stack| + 2 <= capacity
      modifies this
      ensures Valid()
      ensures r.Done? <==> |old(stack)| + 4 + 2 * depth <= limit
      ensures r.Done? ==> |handles| == |old(handles)| + depth + 1
      ensures r.Done? ==> |stack| == |old(stack)| + 2 && stack[..|stack| - 1] == old(stack) + [Nested(depth)]
      ensures r.Done? ==> (Agrees(Nested(depth), stack[|stack| - 1]) <==> aliases || depth == 0)
    {
      hide Agrees, PortableTable, MapsOk, HandlesOk, Proper, FitsStack, Tables, Nested;
      NestedIs(depth, limit - |stack| - 1);
      Push(Nested(depth));
      r := RoundTrip(|stack|);
    }
  }

  lemma ScalarIsNoHandle(v: LuaValue)
    requires !v.Table?
    ensures !ScalarAny(v).CgMapHandle?
  {
  }

  lemma BorrowedIsNoHandle(value: Value)
    ensures !ToAnyBorrow(value).CgMapHandle? && !ToAnyBorrow(value).CgArrayHandle?
  {
  }

  function ObjectOf(value: Value): Object
    requires value.VMap? || value.VArray?
  {
    if value.VMap? then MapObject(value.id) else ArrayObject(value.number, value.items)
  }

  lemma MapIsThere(handles: map<int, Object>, nextHandle: int, maps: Maps, nextMap: nat, h: int)
    requires HandlesOk(handles, nextHandle, maps) && MapsOk(maps, nextMap) && h in handles && handles[h].MapObject?
    ensures handles[h].id in maps && handles[h].id < nextMap
  {
  }

  lemma HandlesStay(handles: map<int, Object>, nextHandle: int, later: int, maps: Maps)
    requires HandlesOk(handles, nextHandle, maps) && nextHandle <= later
    ensures HandlesOk(handles, later, maps)
  {
  }

  lemma NestedIsAbove(maps: Maps, nextMap: nat, id: nat, key: string)
    requires MapsOk(maps, nextMap) && id in maps && key in maps[id]
    ensures maps[id][key].VMap? ==> id < maps[id][key].id < nextMap
    ensures NUL !in key
  {
    assert MapOk(maps, id);
  }

  lemma TableMirrors(maps: Maps, id: nat, u: LuaValue)
    requires u.Table? && MirrorsTable(true, maps, id, u.entries)
    ensures Mirrors(true, maps, VMap(id), u)
  {
  }

  lemma ScalarMirrors(aliases: bool, maps: Maps, value: Value, any: Any)
    requires aliases ==> !value.VMap?
    requires if aliases && value.VArray? then any.CgArrayHandle? else any == ToAnyBorrow(value)
    ensures Mirrors(aliases, maps, value, ScalarPush(any))
  {
  }

  /** The value under `key` of map `id` can be pushed in `room` free slots. */
  ghost predicate FieldFits(aliases: bool, maps: Maps, id: nat, key: string, room: int) {
    aliases && id in maps && key in maps[id] && maps[id][key].VMap? ==> MapFits(aliases, maps, maps[id][key].id, room)
  }

  lemma AllFit(aliases: bool, maps: Maps, id: nat, keys: seq<string>, room: int)
    requires room >= 2 && KeysOf(maps, id, keys)
    requires forall i :: 0 <= i < |keys| ==> FieldFits(aliases, maps, id, keys[i], room - 1)
    ensures MapFits(aliases, maps, id, room)
  {
    forall k | k in maps[id] && aliases && maps[id][k].VMap?
      ensures MapFits(aliases, maps, maps[id][k].id, room - 1)
    {
      assert k in keys;
      var i :| 0 <= i < |keys| && keys[i] == k;
      assert FieldFits(aliases, maps, id, keys[i], room - 1);
    }
  }

  lemma NoRoomForMap(aliases: bool, maps: Maps, room: int)
    requires room < 2
    ensures forall id :: !MapFits(aliases, maps, id, room)
  {
  }

  lemma OneDoesNotFit(aliases: bool, maps: Maps, id: nat, key: string, room: int)
    requires id in maps && key in maps[id] && !FieldFits(aliases, maps, id, key, room - 1)
    ensures !MapFits(aliases, maps, id, room)
  {
  }

  /** The keys of map `id`, each once. */
  ghost predicate KeysOf(maps: Maps, id: nat, keys: seq<string>) {
    id in maps && NoRepeats(keys) && forall k :: k in keys <==> k in maps[id]
  }

  /** Each field mirrors the value of one of the first `n` keys. */
  ghost predicate FieldsFrom(aliases: bool, maps: Maps, id: nat, keys: seq<string>, n: nat, fields: seq<Entry>) {
    && id in maps && n <= |keys|
    && forall j :: 0 <= j < |fields| ==>
         && fields[j].key.StringKey? && fields[j].key.s in keys[..n] && fields[j].key.s in maps[id]
         && fields[j].value != Nil
         && Mirrors(aliases, maps, maps[id][fields[j].key.s], fields[j].value)
  }

  /** The first `n` keys have a field, unless their value is None. */
  ghost predicate FieldsCover(maps: Maps, id: nat, keys: seq<string>, n: nat, fields: seq<Entry>) {
    && id in maps && n <= |keys|
    && forall i :: 0 <= i < n && keys[i] in maps[id] && maps[id][keys[i]] != VNone ==> HasKey(fields, StringKey(keys[i]))
  }

  /** The fields copied from the first `n` keys of map `id`. */
  ghost predicate CopiedSoFar(aliases: bool, maps: Maps, id: nat, keys: seq<string>, n: nat, fields: seq<Entry>) {
    && KeysOf(maps, id, keys) && DistinctKeys(fields)
    && FieldsFrom(aliases, maps, id, keys, n, fields)
    && FieldsCover(maps, id, keys, n, fields)
  }

  lemma NothingCopied(aliases: bool, maps: Maps, id: nat, keys: seq<string>)
    requires id in maps && NoRepeats(keys) && forall k :: k in keys <==> k in maps[id]
    ensures CopiedSoFar(aliases, maps, id, keys, 0, [])
  {
  }

  lemma NotYetCopied(aliases: bool, maps: Maps, id: nat, keys: seq<string>, n: nat, fields: seq<Entry>)
    requires CopiedSoFar(aliases, maps, id, keys, n, fields) && n < |keys|
    ensures !HasKey(fields, StringKey(keys[n])) && keys[n] in maps[id]
  {
    hide Mirrors, FieldsCover;
    var key := keys[n];
    assert key in keys;
    assert key !in keys[..n];
  }

  lemma FieldCopied(aliases: bool, maps: Maps, id: nat, keys: seq<string>, n: nat, fields: seq<Entry>, u: LuaValue)
    requires CopiedSoFar(aliases, maps, id, keys, n, fields) && n < |keys| && keys[n] in maps[id]
    requires Mirrors(aliases, maps, maps[id][keys[n]], u)
    ensures CopiedSoFar(aliases, maps, id, keys, n + 1,
                        if u == Nil then fields else fields + [Entry(StringKey(keys[n]), u)])
  {
    hide Mirrors, FieldsFrom, FieldsCover, DistinctKeys;
    NoneIsNil(aliases, maps, maps[id][keys[n]], u);
    NotYetCopied(aliases, maps, id, keys, n, fields);
    if u != Nil {
      FieldsGrow(fields, Entry(StringKey(keys[n]), u));
    }
    MoreFieldsFrom(aliases, maps, id, keys, n, fields, u);
    MoreFieldsCover(maps, id, keys, n, fields, if u == Nil then fields else fields + [Entry(StringKey(keys[n]), u)]);
  }

  lemma MoreFieldsFrom(aliases: bool, maps: Maps, id: nat, keys: seq<string>, n: nat, fields: seq<Entry>, u: LuaValue)
    requires FieldsFrom(aliases, maps, id, keys, n, fields) && n < |keys| && keys[n] in maps[id]
    requires Mirrors(aliases, maps, maps[id][keys[n]], u)
    ensures FieldsFrom(aliases, maps, id, keys, n + 1,
                       if u == Nil then fields else fields + [Entry(StringKey(keys[n]), u)])
  {
    hide Mirrors;
    assert keys[..n + 1] == keys[..n] + [keys[n]];
  }

  lemma MoreFieldsCover(maps: Maps, id: nat, keys: seq<string>, n: nat, fields: seq<Entry>, more: seq<Entry>)
    requires FieldsCover(maps, id, keys, n, fields) && n < |keys| && keys[n] in maps[id]
    requires forall key :: HasKey(fields, key) ==> HasKey(more, key)
    requires maps[id][keys[n]] != VNone ==> HasKey(more, StringKey(keys[n]))
    ensures FieldsCover(maps, id, keys, n + 1, more)
  {
    hide HasKey;
  }

  lemma FieldsGrow(fields: seq<Entry>, e: Entry)
    requires DistinctKeys(fields) && !HasKey(fields, e.key)
    ensures DistinctKeys(fields + [e]) && HasKey(fields + [e], e.key)
    ensures forall key :: HasKey(fields, key) ==> HasKey(fields + [e], key)
  {
    var more := fields + [e];
    assert more[|fields|] == e;
    forall key | HasKey(fields, key)
      ensures HasKey(more, key)
    {
      var j :| 0 <= j < |fields| && fields[j].key == key;
      assert more[j] == fields[j];
    }
  }

  lemma NoneIsNil(aliases: bool, maps: Maps, value: Value, u: LuaValue)
    requires Mirrors(aliases, maps, value, u)
    ensures u == Nil <==> value == VNone
  {
  }

  lemma AllCopied(aliases: bool, maps: Maps, id: nat, keys: seq<string>, fields: seq<Entry>)
    requires CopiedSoFar(aliases, maps, id, keys, |keys|, fields)
    ensures MirrorsTable(aliases, maps, id, fields)
  {
    hide Mirrors;
    assert keys[..|keys|] == keys;
    forall k | k in maps[id] && maps[id][k] != VNone
      ensures exists j :: 0 <= j < |fields| && fields[j].key == StringKey(k)
    {
      assert k in keys;
      var i :| 0 <= i < |keys| && keys[i] == k;
      assert HasKey(fields, StringKey(keys[i]));
    }
  }

  /** Lua counts slots from 1 upwards, and from the top downwards by negative numbers. */
  lemma SlotOf(stack: seq<LuaValue>, index: int)
    requires IsIndex(stack, index)
    ensures index > 0 ==> index <= |stack| && At(stack, index) == stack[index - 1]
    ensures index <= 0 ==> 0 <= |stack| + index < |stack| && At(stack, index) == stack[|stack| + index]
  {
  }

  /** With one value more on the stack, the adjusted index names the slot it named before. */
  lemma AdjustedIndex(stack: seq<LuaValue>, top: LuaValue, index: int)
    requires IsIndex(stack, index)
    ensures var adjusted := if index < 0 then index - 1 else index;
            && IsIndex(stack + [top], adjusted)
            && Position(stack + [top], adjusted) == Position(stack, index) < |stack|
            && At(stack + [top], adjusted) == At(stack, index)
  {
  }

  lemma GrownReflexive<K, V>(m: map<K, V>)
    ensures Grown(m, m)
  {
  }

  lemma GrownByOne<K, V>(m: map<K, V>, k: K, v: V)
    requires k !in m
    ensures Grown(m, m[k := v])
  {
  }

  lemma EmptyTable(maps: Maps, id: nat)
    requires id in maps && maps[id] == map[]
    ensures HoldsTable(maps, id, [])
  {
  }

  /** `any` is a live handle of a map, numbered `from` or above, that holds the entries. */
  ghost predicate Carries(handles: map<int, Object>, maps: Maps, from: nat, any: Any, entries: seq<Entry>) {
    && any.CgMapHandle? && any.handle in handles && handles[any.handle].MapObject?
    && from <= handles[any.handle].id
    && HoldsTable(maps, handles[any.handle].id, entries)
  }

  /** A handle that names an object of its kind, or no handle at all. */
  predicate IsStorable(handles: map<int, Object>, any: Any) {
    && (any.CgMapHandle? ==> any.handle in handles && handles[any.handle].MapObject?)
    && (any.CgArrayHandle? ==> any.handle in handles && handles[any.handle].ArrayObject?)
  }

  /** What `map_set` stores: the object a handle names, and anything else converted. */
  function StoredValue(handles: map<int, Object>, any: Any): Value
    requires IsStorable(handles, any)
  {
    match any
    case CgMapHandle(h) => VMap(handles[h].id)
    case CgArrayHandle(h) => VArray(handles[h].number, handles[h].items)
    case _ => FromAny(any)
  }

  lemma StoredHolds(handles: map<int, Object>, maps: Maps, id: nat, any: Any, v: LuaValue)
    requires if v.Table? then Carries(handles, maps, id + 1, any, v.entries) else any == ScalarAny(v)
    ensures Holds(maps, id, StoredValue(handles, any), v)
  {
    if v.Table? {
      TableHolds(maps, id, handles[any.handle].id, v.entries);
    }
  }

  lemma StoredKeepsOk(maps: Maps, nextMap: nat, id: nat, key: string, value: Value)
    requires MapsOk(maps, nextMap) && id in maps && NUL !in key
    requires value.VMap? ==> id < value.id && value.id in maps
    ensures MapsOk(maps[id := maps[id][key := value]], nextMap)
  {
    var after := maps[id := maps[id][key := value]];
    forall n | n in after
      ensures MapOk(after, n)
    {
      assert MapOk(maps, n);
    }
  }
}
