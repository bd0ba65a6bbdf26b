/** `$ref` resolution and example synthesis for JSON schemas (`RefResolver`, `example_inner`,
    `build_object`, `build_array` in crates/voleeo-import/src/util.rs). */
module RefExample {
  import opened Text
  import opened Sequences

  datatype Value =
    | Null
    | Bool(b: bool)
    | Num(n: int, float: bool)
    | Str(s: Bytes)
    | Arr(elems: seq<Value>)
    | Obj(fields: seq<Field>)

  datatype Field = Field(key: Bytes, value: Value)

  const REF: Bytes := [36, 114, 101, 102]
  const EXAMPLE: Bytes := [101, 120, 97, 109, 112, 108, 101]
  const DEFAULT: Bytes := [100, 101, 102, 97, 117, 108, 116]
  const ENUM: Bytes := [101, 110, 117, 109]
  const ALL_OF: Bytes := [97, 108, 108, 79, 102]
  const ONE_OF: Bytes := [111, 110, 101, 79, 102]
  const ANY_OF: Bytes := [97, 110, 121, 79, 102]
  const TYPE: Bytes := [116, 121, 112, 101]
  const PROPERTIES: Bytes := [112, 114, 111, 112, 101, 114, 116, 105, 101, 115]
  const ITEMS: Bytes := [105, 116, 101, 109, 115]
  const FORMAT: Bytes := [102, 111, 114, 109, 97, 116]
  const OBJECT: Bytes := [111, 98, 106, 101, 99, 116]
  const ARRAY: Bytes := [97, 114, 114, 97, 121]
  const INTEGER: Bytes := [105, 110, 116, 101, 103, 101, 114]
  const NUMBER: Bytes := [110, 117, 109, 98, 101, 114]
  const BOOLEAN: Bytes := [98, 111, 111, 108, 101, 97, 110]
  const STRING: Bytes := [115, 116, 114, 105, 110, 103]

  // ---- sizes, refs, fields ----

  function Size(v: Value): nat {
    match v
    case Arr(elems) => 1 + SizeAll(elems)
    case Obj(fields) => 1 + SizeFields(fields)
    case _ => 1
  }

  function SizeAll(vs: seq<Value>): nat {
    if vs == [] then 0 else 1 + Size(vs[0]) + SizeAll(vs[1..])
  }

  function SizeFields(fs: seq<Field>): nat {
    if fs == [] then 0 else 1 + Size(fs[0].value) + SizeFields(fs[1..])
  }

  /** The first field with this key; objects have each key once. */
  function Find(fs: seq<Field>, key: Bytes): (r: Option<Value>)
    ensures r.Some? ==> Size(r.value) < SizeFields(fs) && Refs(r.value) <= RefsFields(fs)
  {
    if fs == [] then None
    else if fs[0].key == key then Some(fs[0].value)
    else Find(fs[1..], key)
  }

  /** `Value::get(key)` */
  function Get(v: Value, key: Bytes): (r: Option<Value>)
    ensures r.Some? ==> Size(r.value) < Size(v)
  {
    if v.Obj? then Find(v.fields, key) else None
  }

  function AsStr(v: Option<Value>): Option<Bytes> {
    if v.Some? && v.value.Str? then Some(v.value.s) else None
  }

  function RefOf(v: Value): Option<Bytes> { AsStr(Get(v, REF)) }

  /** All `$ref` strings in a value. */
  function Refs(v: Value): set<Bytes> {
    match v
    case Arr(elems) => RefsAll(elems)
    case Obj(fields) => RefsFields(fields)
    case _ => {}
  }

  function RefsAll(vs: seq<Value>): set<Bytes> {
    if vs == [] then {} else Refs(vs[0]) + RefsAll(vs[1..])
  }

  function RefsFields(fs: seq<Field>): set<Bytes> {
    if fs == [] then {}
    else
      (if fs[0].key == REF && fs[0].value.Str? then {fs[0].value.s} else {}) + Refs(fs[0].value) + RefsFields(fs[1..])
  }

  lemma {:induction false} GetRefs(v: Value, key: Bytes)
    ensures var r := Get(v, key); r.Some? ==> Refs(r.value) <= Refs(v)
    ensures RefOf(v).Some? ==> RefOf(v).value in Refs(v)
  {
    if v.Obj? { FindRef(v.fields); }
  }

  lemma {:induction false} FindRef(fs: seq<Field>)
    ensures AsStr(Find(fs, REF)).Some? ==> AsStr(Find(fs, REF)).value in RefsFields(fs)
  {
    if fs != [] && fs[0].key != REF { FindRef(fs[1..]); }
  }

  // ---- JSON pointers ----

  const TILDE: Byte := 126
  const ONE: Byte := 49
  const ZERO: Byte := 48

  /** `replace` of a two-byte pattern by one byte, left to right. */
  function Replace(s: Bytes, a: Byte, b: Byte, with: Byte): Bytes {
    if s == [] then []
    else if |s| >= 2 && s[0] == a && s[1] == b then [with] + Replace(s[2..], a, b, with)
    else [s[0]] + Replace(s[1..], a, b, with)
  }

  function Unescape(raw: Bytes): Bytes { Replace(Replace(raw, TILDE, ONE, SLASH), TILDE, ZERO, TILDE) }

  function Walk(v: Value, keys: seq<Bytes>): Option<Value>
    decreases |keys|
  {
    if keys == [] then Some(v)
    else
      match Get(v, keys[0])
      case None => None
      case Some(next) => Walk(next, keys[1..])
  }

  /** `RefResolver::lookup` */
  function Lookup(root: Value, ptr: Bytes): Option<Value> {
    if StartsWith(ptr, [35, SLASH]) then Walk(root, Map(Split(ptr[2..], SLASH), Unescape)) else None
  }

  lemma {:induction false} WalkRefs(v: Value, keys: seq<Bytes>)
    ensures var r := Walk(v, keys); r.Some? ==> Refs(r.value) <= Refs(v)
    decreases |keys|
  {
    if keys != [] && Get(v, keys[0]).Some? {
      GetRefs(v, keys[0]);
      WalkRefs(Get(v, keys[0]).value, keys[1..]);
    }
  }

  /** Only pointers into the document itself are followed, and only through objects. */
  lemma LookupMisses(root: Value, ptr: Bytes)
    ensures (|ptr| < 2 || ptr[0] as char != '#' || ptr[1] as char != '/') ==> Lookup(root, ptr).None?
    ensures !root.Obj? ==> Lookup(root, ptr).None?
  {
    if |ptr| >= 2 { assert ptr[..2] == [ptr[0], ptr[1]]; }
  }

  method LookupLoop(root: Value, ptr: Bytes) returns (r: Option<Value>)
    ensures r == Lookup(root, ptr)
  {
    if !StartsWith(ptr, [35, SLASH]) {
      return None;
    }
    var parts := Split(ptr[2..], SLASH);
    ghost var keys := Map(parts, Unescape);
    var cur := root;
    assert keys[0..] == keys;
    for i := 0 to |parts|
      invariant Walk(root, keys) == Walk(cur, keys[i..])
    {
      var next := Get(cur, Unescape(parts[i]));
      assert keys[i..][1..] == keys[i + 1..];
      if next.None? {
        return None;
      }
      cur := next.value;
    }
    return Some(cur);
  }

  /** Section 3 of RFC 6901: `~` is written `~0` and `/` is written `~1`. */
  function EscapeByte(b: Byte): Bytes { if b == TILDE then [TILDE, ZERO] else if b == SLASH then [TILDE, ONE] else [b] }

  function Escape(key: Bytes): Bytes { if key == [] then [] else EscapeByte(key[0]) + Escape(key[1..]) }

  function TildeByte(b: Byte): Bytes { if b == TILDE then [TILDE, ZERO] else [b] }

  function EscapeTilde(key: Bytes): Bytes { if key == [] then [] else TildeByte(key[0]) + EscapeTilde(key[1..]) }

  lemma ReplaceKeeps(x: Byte, rest: Bytes, a: Byte, b: Byte, with: Byte)
    requires x != a || rest == [] || rest[0] != b
    ensures Replace([x] + rest, a, b, with) == [x] + Replace(rest, a, b, with)
  {
    assert ([x] + rest)[1..] == rest;
  }

  lemma ReplacePair(rest: Bytes, a: Byte, b: Byte, with: Byte)
    ensures Replace([a, b] + rest, a, b, with) == [with] + Replace(rest, a, b, with)
  {
    assert ([a, b] + rest)[2..] == rest;
  }

  lemma UnescapeByte(b: Byte, rest: Bytes)
    ensures Replace(EscapeByte(b) + rest, TILDE, ONE, SLASH) == TildeByte(b) + Replace(rest, TILDE, ONE, SLASH)
  {
    if b == TILDE {
      ReplaceKeeps(TILDE, [ZERO] + rest, TILDE, ONE, SLASH);
      ReplaceKeeps(ZERO, rest, TILDE, ONE, SLASH);
      assert [TILDE, ZERO] + rest == [TILDE] + ([ZERO] + rest);
      Regroup([TILDE], [ZERO], Replace(rest, TILDE, ONE, SLASH));
    } else if b == SLASH {
      ReplacePair(rest, TILDE, ONE, SLASH);
    } else {
      ReplaceKeeps(b, rest, TILDE, ONE, SLASH);
    }
  }

  lemma {:induction false} UnescapeSlashes(key: Bytes)
    ensures Replace(Escape(key), TILDE, ONE, SLASH) == EscapeTilde(key)
    ensures SLASH !in Escape(key)
  {
    if key != [] {
      UnescapeSlashes(key[1..]);
      UnescapeByte(key[0], Escape(key[1..]));
    }
  }

  lemma UntildeByte(b: Byte, rest: Bytes)
    ensures Replace(TildeByte(b) + rest, TILDE, ZERO, TILDE) == [b] + Replace(rest, TILDE, ZERO, TILDE)
  {
    if b == TILDE {
      ReplacePair(rest, TILDE, ZERO, TILDE);
    } else {
      ReplaceKeeps(b, rest, TILDE, ZERO, TILDE);
    }
  }

  lemma {:induction false} UnescapeTildes(key: Bytes)
    ensures Replace(EscapeTilde(key), TILDE, ZERO, TILDE) == key
  {
    if key != [] {
      UnescapeTildes(key[1..]);
      UntildeByte(key[0], EscapeTilde(key[1..]));
      assert [key[0]] + key[1..] == key;
    }
  }

  /** A pointer written for a path of keys, whatever bytes they hold, finds what the path finds. */
  lemma PointerRoundTrip(root: Value, keys: seq<Bytes>)
    requires keys != []
    ensures Lookup(root, [35, SLASH] + Join(Map(keys, Escape), SLASH)) == Walk(root, keys)
  {
    var escaped := Map(keys, Escape);
    forall i | 0 <= i < |keys| ensures SLASH !in escaped[i] && Unescape(escaped[i]) == keys[i] {
      UnescapeSlashes(keys[i]);
      UnescapeTildes(keys[i]);
    }
    SplitJoin(escaped, SLASH);
    var ptr := [35, SLASH] + Join(escaped, SLASH);
    assert ptr[..2] == [35, SLASH] && ptr[2..] == Join(escaped, SLASH);
    assert Map(escaped, Unescape) == keys;
  }

  // ---- resolving ----

  /** How many `$ref` strings can still be followed. */
  function Todo(root: Value, v: Value, seen: set<Bytes>): nat { |Refs(root) + Refs(v) - seen| }

  lemma TodoShrinks(root: Value, v: Value, seen: set<Bytes>, v': Value, seen': set<Bytes>)
    requires Refs(v') <= Refs(root) + Refs(v) && seen <= seen'
    ensures Todo(root, v', seen') <= Todo(root, v, seen)
    ensures (exists p :: p in seen' && p !in seen && p in Refs(root) + Refs(v)) ==>
        Todo(root, v', seen') < Todo(root, v, seen)
  {
    var small, big := Refs(root) + Refs(v') - seen', Refs(root) + Refs(v) - seen;
    assert small <= big;
    FewerElements(small, big);
    if p :| p in seen' && p !in seen && p in Refs(root) + Refs(v) {
      assert p in big && p !in small;
      FewerElements(small, big - {p});
    }
  }

  /** One step of a reference: mark it seen and look it up. */
  lemma FollowShrinks(root: Value, v: Value, seen: set<Bytes>)
    requires RefOf(v).Some? && RefOf(v).value !in seen && Lookup(root, RefOf(v).value).Some?
    ensures var next := Lookup(root, RefOf(v).value).value;
            Todo(root, next, seen + {RefOf(v).value}) < Todo(root, v, seen) && Refs(next) <= Refs(root)
  {
    var ptr := RefOf(v).value;
    GetRefs(v, REF);
    WalkRefs(root, Map(Split(ptr[2..], SLASH), Unescape));
    TodoShrinks(root, v, seen, Lookup(root, ptr).value, seen + {ptr});
  }

  /** `RefResolver::resolve`: the node reached and the references seen. */
  function Resolve(root: Value, v: Value, seen: set<Bytes>): (Value, set<Bytes>)
    decreases Todo(root, v, seen)
  {
    match RefOf(v)
    case None => (v, seen)
    case Some(ptr) =>
      if ptr in seen then (v, seen)
      else
        match Lookup(root, ptr)
        case None => (v, seen + {ptr})
        case Some(next) =>
          FollowShrinks(root, v, seen);
          Resolve(root, next, seen + {ptr})
  }

  /** The resolved node is the start, or costs references. */
  ghost predicate Shrinks(root: Value, v: Value, seen: set<Bytes>, cur: Value, seen': set<Bytes>) {
    && seen <= seen' <= seen + Refs(root) + Refs(v)
    && Refs(cur) <= Refs(root) + Refs(v)
    && Todo(root, cur, seen') <= Todo(root, v, seen)
    && (cur == v || Todo(root, cur, seen') < Todo(root, v, seen))
  }

  /** Resolving either stays at the node or uses up a reference. */
  lemma {:induction false} ResolveShrinks(root: Value, v: Value, seen: set<Bytes>)
    ensures Shrinks(root, v, seen, Resolve(root, v, seen).0, Resolve(root, v, seen).1)
    decreases Todo(root, v, seen)
  {
    if RefOf(v).Some? && RefOf(v).value !in seen {
      var ptr := RefOf(v).value;
      if Lookup(root, ptr).Some? {
        var next := Lookup(root, ptr).value;
        FollowShrinks(root, v, seen);
        ResolveShrinks(root, next, seen + {ptr});
        ShrinksOn(root, v, seen, ptr, next, Resolve(root, v, seen).0, Resolve(root, v, seen).1);
      } else {
        ShrinksByMark(root, v, seen, ptr);
      }
    }
  }

  lemma ShrinksByMark(root: Value, v: Value, seen: set<Bytes>, ptr: Bytes)
    requires RefOf(v) == Some(ptr) && ptr !in seen
    ensures Shrinks(root, v, seen, v, seen + {ptr})
  {
    GetRefs(v, REF);
    TodoShrinks(root, v, seen, v, seen + {ptr});
  }

  lemma ShrinksOn(root: Value, v: Value, seen: set<Bytes>, ptr: Bytes, next: Value, cur: Value, seen': set<Bytes>)
    requires RefOf(v) == Some(ptr) && Refs(next) <= Refs(root)
    requires Todo(root, next, seen + {ptr}) < Todo(root, v, seen) && Shrinks(root, next, seen + {ptr}, cur, seen')
    ensures Shrinks(root, v, seen, cur, seen')
  {
    GetRefs(v, REF);
  }

  method ResolveLoop(root: Value, value: Value, seen: set<Bytes>) returns (cur: Value, seen': set<Bytes>)
    ensures (cur, seen') == Resolve(root, value, seen)
  {
    cur, seen' := value, seen;
    while RefOf(cur).Some?
      invariant Resolve(root, cur, seen') == Resolve(root, value, seen)
      decreases Todo(root, cur, seen')
    {
      var ptr := RefOf(cur).value;
      if ptr in seen' {
        break;
      }
      var next := LookupLoop(root, ptr);
      if next.None? {
        seen' := seen' + {ptr};
        return;
      }
      FollowShrinks(root, cur, seen');
      seen' := seen' + {ptr};
      cur := next.value;
    }
  }

  // ---- example synthesis ----

  function First(elems: seq<Value>): Option<Value> { if elems == [] then None else Some(elems[0]) }

  /** The elements of the array under `key`, none if there is no array. */
  function ArrayAt(v: Value, key: Bytes): Option<seq<Value>> {
    match Get(v, key) case Some(Arr(elems)) => Some(elems) case _ => None
  }

  /** `schema.type`, or the first entry of a list of types. */
  function TypeOf(v: Value): Option<Bytes> {
    match Get(v, TYPE)
    case Some(Str(s)) => Some(s)
    case Some(Arr(elems)) => AsStr(First(elems))
    case _ => None
  }

  /** Inserting into an ordered map. */
  function Put(fs: seq<Field>, key: Bytes, v: Value): seq<Field> {
    if fs == [] then [Field(key, v)]
    else if fs[0].key == key then [Field(key, v)] + fs[1..]
    else if BytesLeq(key, fs[0].key) then [Field(key, v)] + fs
    else [fs[0]] + Put(fs[1..], key, v)
  }

  function PutAll(fs: seq<Field>, more: seq<Field>): seq<Field>
    decreases |more|
  {
    if more == [] then fs else PutAll(Put(fs, more[0].key, more[0].value), more[1..])
  }

  function Placeholder(schema: Value): Bytes {
    match AsStr(Get(schema, FORMAT))
    case None => []
    case Some(f) =>
      if f == Ascii("date-time") then Ascii("1970-01-01T00:00:00Z")
      else if f == Ascii("date") then Ascii("1970-01-01")
      else if f == Ascii("uuid") then Ascii("00000000-0000-0000-0000-000000000000")
      else if f == Ascii("email") then Ascii("user@example.com")
      else if f == Ascii("uri") || f == Ascii("url") then Ascii("https://example.com")
      else []
  }

  function TodoAll(root: Value, refs: set<Bytes>, seen: set<Bytes>): nat { |Refs(root) + refs - seen| }

  lemma TodoMonotone(root: Value, refs: set<Bytes>, seen: set<Bytes>, refs': set<Bytes>, seen': set<Bytes>)
    requires refs' <= refs && seen <= seen'
    ensures TodoAll(root, refs', seen') <= TodoAll(root, refs, seen)
  {
    FewerElements(Refs(root) + refs' - seen', Refs(root) + refs - seen);
  }

  /** `example_inner`: the example and the references seen. It terminates on every schema and document:
      each call lowers the number of references left to follow or, that staying equal, the schema. */
  function ExampleInner(root: Value, schema: Value, depth: nat, seen: set<Bytes>): (r: (Value, set<Bytes>))
    ensures seen <= r.1
    decreases TodoAll(root, Refs(schema), seen), Size(schema), 3
  {
    ResolveShrinks(root, schema, seen);
    var (cur, seen') := Resolve(root, schema, seen);
    Synthesize(root, cur, depth, seen')
  }

  /** An example, default or enumerated value that the schema itself offers. */
  function Literal(cur: Value): Option<Value> {
    if Get(cur, EXAMPLE).Some? then Get(cur, EXAMPLE)
    else if Get(cur, DEFAULT).Some? then Get(cur, DEFAULT)
    else if Enumerates(cur, ENUM) then Some(ArrayAt(cur, ENUM).value[0])
    else None
  }

  /** The part of `example_inner` after resolving. */
  function Synthesize(root: Value, cur: Value, depth: nat, seen: set<Bytes>): (r: (Value, set<Bytes>))
    ensures seen <= r.1
    decreases TodoAll(root, Refs(cur), seen), Size(cur), 2
  {
    if Literal(cur).Some? then (Literal(cur).value, seen)
    else if ArrayAt(cur, ALL_OF).Some? then
      SubRefs(root, cur, ALL_OF, seen);
      var (fields, seen') := MergeAll(root, ArrayAt(cur, ALL_OF).value, depth, seen, []);
      (Obj(fields), seen')
    else if Enumerates(cur, ONE_OF) then
      SubRefs(root, cur, ONE_OF, seen);
      ExampleInner(root, ArrayAt(cur, ONE_OF).value[0], depth, seen)
    else if Enumerates(cur, ANY_OF) then
      SubRefs(root, cur, ANY_OF, seen);
      ExampleInner(root, ArrayAt(cur, ANY_OF).value[0], depth, seen)
    else ByType(root, cur, depth, seen)
  }

  /** The final dispatch on `type`. */
  function ByType(root: Value, cur: Value, depth: nat, seen: set<Bytes>): (r: (Value, set<Bytes>))
    ensures seen <= r.1
    decreases TodoAll(root, Refs(cur), seen), Size(cur), 1
  {
    match TypeOf(cur)
    case None => if Get(cur, PROPERTIES).Some? then BuildObject(root, cur, depth, seen) else (Null, seen)
    case Some(ty) =>
      if ty == OBJECT then BuildObject(root, cur, depth, seen)
      else if ty == ARRAY then BuildArray(root, cur, depth, seen)
      else if ty == INTEGER then (Num(0, false), seen)
      else if ty == NUMBER then (Num(0, true), seen)
      else if ty == BOOLEAN then (Bool(false), seen)
      else if ty == STRING then (Str(Placeholder(cur)), seen)
      else (Null, seen)
  }

  function ObjectAt(v: Value, key: Bytes): Option<seq<Field>> {
    match Get(v, key) case Some(Obj(fields)) => Some(fields) case _ => None
  }

  predicate Enumerates(v: Value, key: Bytes) { ArrayAt(v, key).Some? && ArrayAt(v, key).value != [] }

  lemma SubRefs(root: Value, cur: Value, key: Bytes, seen: set<Bytes>)
    ensures var sub := Get(cur, key);
            sub.Some? ==>
              && Refs(sub.value) <= Refs(cur)
              && TodoAll(root, Refs(sub.value), seen) <= TodoAll(root, Refs(cur), seen)
    ensures Enumerates(cur, key) ==>
              && Size(ArrayAt(cur, key).value[0]) < Size(cur)
              && TodoAll(root, Refs(ArrayAt(cur, key).value[0]), seen) <= TodoAll(root, Refs(cur), seen)
  {
    GetRefs(cur, key);
    if Get(cur, key).Some? {
      TodoMonotone(root, Refs(cur), seen, Refs(Get(cur, key).value), seen);
      if Enumerates(cur, key) {
        var elems := ArrayAt(cur, key).value;
        assert Get(cur, key).value == Arr(elems);
        assert SizeAll(elems) == 1 + Size(elems[0]) + SizeAll(elems[1..]);
        TodoMonotone(root, Refs(cur), seen, Refs(elems[0]), seen);
      }
    }
  }

  /** The `allOf` loop. */
  function MergeAll(root: Value, subs: seq<Value>, depth: nat, seen: set<Bytes>, merged: seq<Field>)
    : (r: (seq<Field>, set<Bytes>))
    ensures seen <= r.1
    decreases TodoAll(root, RefsAll(subs), seen), SizeAll(subs), 1
  {
    if subs == [] then (merged, seen)
    else
      TodoMonotone(root, RefsAll(subs), seen, Refs(subs[0]), seen);
      var (v, seen') := ExampleInner(root, subs[0], depth, seen);
      TodoMonotone(root, RefsAll(subs), seen, RefsAll(subs[1..]), seen');
      MergeAll(root, subs[1..], depth, seen', Extended(merged, v))
  }

  /** `merged.extend(m)` for an object, nothing for any other value. */
  function Extended(merged: seq<Field>, v: Value): seq<Field> { if v.Obj? then PutAll(merged, v.fields) else merged }

  function BuildObject(root: Value, cur: Value, depth: nat, seen: set<Bytes>): (r: (Value, set<Bytes>))
    ensures seen <= r.1
    decreases TodoAll(root, Refs(cur), seen), Size(cur), 0
  {
    if depth == 0 then (Obj([]), seen)
    else
      match ObjectAt(cur, PROPERTIES)
      case Some(props) =>
        SubRefs(root, cur, PROPERTIES, seen);
        var (fields, seen') := BuildFields(root, props, depth - 1, seen, []);
        (Obj(fields), seen')
      case None => (Obj([]), seen)
  }

  /** The loop over `properties`, in the order of the map. */
  function BuildFields(root: Value, props: seq<Field>, depth: nat, seen: set<Bytes>, built: seq<Field>)
    : (r: (seq<Field>, set<Bytes>))
    ensures seen <= r.1
    decreases TodoAll(root, RefsFields(props), seen), SizeFields(props), 1
  {
    if props == [] then (built, seen)
    else
      TodoMonotone(root, RefsFields(props), seen, Refs(props[0].value), seen);
      var (v, seen') := ExampleInner(root, props[0].value, depth, seen);
      TodoMonotone(root, RefsFields(props), seen, RefsFields(props[1..]), seen');
      BuildFields(root, props[1..], depth, seen', Put(built, props[0].key, v))
  }

  function BuildArray(root: Value, cur: Value, depth: nat, seen: set<Bytes>): (r: (Value, set<Bytes>))
    ensures seen <= r.1
    decreases TodoAll(root, Refs(cur), seen), Size(cur), 0
  {
    if depth == 0 then (Arr([]), seen)
    else
      match Get(cur, ITEMS)
      case Some(items) =>
        SubRefs(root, cur, ITEMS, seen);
        var (v, seen') := ExampleInner(root, items, depth - 1, seen);
        (Arr([v]), seen')
      case None => (Arr([Null]), seen)
  }

  // ---- what one call follows ----

  /** The references followed between two states of `seen`, in order. */
  ghost predicate Chain(root: Value, v: Value, ptrs: seq<Bytes>, end: Value)
    decreases |ptrs|
  {
    if ptrs == [] then end == v
    else
      && RefOf(v) == Some(ptrs[0])
      && match Lookup(root, ptrs[0])
         case Some(next) => Chain(root, next, ptrs[1..], end)
         case None => |ptrs| == 1 && end == v
  }

  /** `ptrs` are exactly the references that resolving from `v` marks. */
  ghost predicate Marks(root: Value, v: Value, seen: set<Bytes>, ptrs: seq<Bytes>, cur: Value, seen': set<Bytes>) {
    && Chain(root, v, ptrs, cur) && NoDuplicates(ptrs)
    && seen' == seen + (set p | p in ptrs) && (forall p :: p in ptrs ==> p !in seen)
  }

  lemma MarksStep(root: Value, v: Value, seen: set<Bytes>, ptr: Bytes, next: Value, rest: seq<Bytes>, cur: Value,
                  seen': set<Bytes>)
    requires RefOf(v) == Some(ptr) && ptr !in seen && Lookup(root, ptr) == Some(next)
    requires Marks(root, next, seen + {ptr}, rest, cur, seen')
    ensures Marks(root, v, seen, [ptr] + rest, cur, seen')
  {
    var ptrs := [ptr] + rest;
    assert ptrs[1..] == rest;
    assert (set p | p in ptrs) == {ptr} + (set p | p in rest);
  }

  lemma MarksNothing(root: Value, v: Value, seen: set<Bytes>)
    ensures Marks(root, v, seen, [], v, seen)
    ensures RefOf(v).Some? && RefOf(v).value !in seen && Lookup(root, RefOf(v).value).None? ==>
              Marks(root, v, seen, [RefOf(v).value], v, seen + {RefOf(v).value})
  {
    var none: seq<Bytes> := [];
    assert (set p | p in none) == {};
    if RefOf(v).Some? {
      var one := [RefOf(v).value];
      assert (set p | p in one) == {RefOf(v).value};
    }
  }

  /** `resolve` follows a chain of new, pairwise different references, marks exactly those, and stops at a
      node that is no reference, whose reference was marked before, or whose reference leads nowhere. */
  lemma {:induction false} ResolveFollowsChain(root: Value, v: Value, seen: set<Bytes>) returns (ptrs: seq<Bytes>)
    ensures var (cur, seen') := Resolve(root, v, seen);
            Marks(root, v, seen, ptrs, cur, seen') && (RefOf(cur).Some? ==> RefOf(cur).value in seen')
    decreases Todo(root, v, seen)
  {
    MarksNothing(root, v, seen);
    ptrs := [];
    if RefOf(v).Some? && RefOf(v).value !in seen {
      var ptr := RefOf(v).value;
      if Lookup(root, ptr).None? {
        ptrs := [ptr];
      } else {
        var next := Lookup(root, ptr).value;
        FollowShrinks(root, v, seen);
        var rest := ResolveFollowsChain(root, next, seen + {ptr});
        var (cur, seen') := Resolve(root, next, seen + {ptr});
        MarksStep(root, v, seen, ptr, next, rest, cur, seen');
        ptrs := [ptr] + rest;
      }
    }
  }

  function BareRef(ptr: Bytes): Value { Obj([Field(REF, Str(ptr))]) }

  /** A reference is expanded once per call, whether or not it is part of a cycle: the example of a bare
      reference is its target's example the first time and `null` ever after. */
  lemma ReferenceExpandsOnce(root: Value, ptr: Bytes, depth: nat, seen: set<Bytes>)
    ensures ExampleInner(root, BareRef(ptr), depth, seen)
         == if ptr !in seen && Lookup(root, ptr).Some? then
              ExampleInner(root, Lookup(root, ptr).value, depth, seen + {ptr})
            else (Null, seen + {ptr})
  {
    var fields := [Field(REF, Str(ptr))];
    assert fields[1..] == [];
    assert Get(BareRef(ptr), REF) == Some(Str(ptr));
    assert ptr in seen ==> seen + {ptr} == seen;
    BareFields(fields);
    var bare := BareRef(ptr);
    if ptr !in seen && Lookup(root, ptr).Some? {
      var next := Lookup(root, ptr).value;
      assert Resolve(root, bare, seen) == Resolve(root, next, seen + {ptr});
      var (cur, seen') := Resolve(root, next, seen + {ptr});
      assert ExampleInner(root, next, depth, seen + {ptr}) == Synthesize(root, cur, depth, seen');
    } else {
      assert Resolve(root, bare, seen) == (bare, seen + {ptr});
      assert Synthesize(root, bare, depth, seen + {ptr}) == ByType(root, bare, depth, seen + {ptr})
          == (Null, seen + {ptr});
    }
  }

  lemma BareFields(fields: seq<Field>)
    requires |fields| == 1
    ensures forall k :: k != fields[0].key ==> Find(fields, k) == None
  {
    assert fields[1..] == [];
  }

  // ---- examples stay shallow ----

  function Max(a: nat, b: nat): nat { if a >= b then a else b }

  function Height(v: Value): nat {
    match v
    case Arr(elems) => 1 + HeightAll(elems)
    case Obj(fields) => 1 + HeightFields(fields)
    case _ => 1
  }

  function HeightAll(vs: seq<Value>): nat { if vs == [] then 0 else Max(Height(vs[0]), HeightAll(vs[1..])) }

  function HeightFields(fs: seq<Field>): nat {
    if fs == [] then 0 else Max(Height(fs[0].value), HeightFields(fs[1..]))
  }

  /** A literal an object offers as its example is at most `h` high. */
  predicate LiteralAtMost(f: Field, h: nat) {
    && (f.key == EXAMPLE || f.key == DEFAULT ==> Height(f.value) <= h)
    && (f.key == ENUM && f.value.Arr? && f.value.elems != [] ==> Height(f.value.elems[0]) <= h)
  }

  /** The same for every object anywhere in a value. */
  predicate LiteralsAtMost(v: Value, h: nat) {
    match v
    case Arr(elems) => LiteralsAll(elems, h)
    case Obj(fields) => LiteralsFields(fields, h)
    case _ => true
  }

  predicate LiteralsAll(vs: seq<Value>, h: nat) {
    vs != [] ==> LiteralsAtMost(vs[0], h) && LiteralsAll(vs[1..], h)
  }

  predicate LiteralsFields(fs: seq<Field>, h: nat) {
    fs != [] ==> LiteralAtMost(fs[0], h) && LiteralsAtMost(fs[0].value, h) && LiteralsFields(fs[1..], h)
  }

  lemma {:induction false} FindLiterals(fs: seq<Field>, key: Bytes, h: nat)
    requires LiteralsFields(fs, h) && Find(fs, key).Some?
    ensures LiteralsAtMost(Find(fs, key).value, h) && LiteralAtMost(Field(key, Find(fs, key).value), h)
  {
    if fs[0].key != key {
      FindLiterals(fs[1..], key, h);
    } else {
      assert Field(key, fs[0].value) == fs[0];
    }
  }

  lemma {:induction false} WalkLiterals(v: Value, keys: seq<Bytes>, h: nat)
    requires LiteralsAtMost(v, h) && Walk(v, keys).Some?
    ensures LiteralsAtMost(Walk(v, keys).value, h)
    decreases |keys|
  {
    if keys != [] {
      FindLiterals(v.fields, keys[0], h);
      WalkLiterals(Get(v, keys[0]).value, keys[1..], h);
    }
  }

  lemma {:induction false} ResolveLiterals(root: Value, v: Value, seen: set<Bytes>, h: nat)
    requires LiteralsAtMost(root, h) && LiteralsAtMost(v, h)
    ensures LiteralsAtMost(Resolve(root, v, seen).0, h)
    decreases Todo(root, v, seen)
  {
    if RefOf(v).Some? && RefOf(v).value !in seen && Lookup(root, RefOf(v).value).Some? {
      var ptr := RefOf(v).value;
      WalkLiterals(root, Map(Split(ptr[2..], SLASH), Unescape), h);
      FollowShrinks(root, v, seen);
      ResolveLiterals(root, Lookup(root, ptr).value, seen + {ptr}, h);
    }
  }

  lemma {:induction false} PutHeight(fs: seq<Field>, key: Bytes, v: Value)
    ensures HeightFields(Put(fs, key, v)) <= Max(HeightFields(fs), Height(v))
  {
    if fs != [] && fs[0].key != key {
      if BytesLeq(key, fs[0].key) {
        assert ([Field(key, v)] + fs)[1..] == fs;
      } else {
        PutHeight(fs[1..], key, v);
        assert ([fs[0]] + Put(fs[1..], key, v))[1..] == Put(fs[1..], key, v);
      }
    }
  }

  lemma {:induction false} PutAllHeight(fs: seq<Field>, more: seq<Field>)
    ensures HeightFields(PutAll(fs, more)) <= Max(HeightFields(fs), HeightFields(more))
    decreases |more|
  {
    if more != [] {
      PutHeight(fs, more[0].key, more[0].value);
      PutAllHeight(Put(fs, more[0].key, more[0].value), more[1..]);
    }
  }

  /** Examples stay shallow on every document: at most `depth` levels above the literals the document
      itself offers, although `allOf`, `oneOf` and references recurse without using up `depth`. */
  lemma {:induction false} ExampleHeight(root: Value, schema: Value, depth: nat, seen: set<Bytes>, h: nat)
    requires h >= 1 && LiteralsAtMost(root, h) && LiteralsAtMost(schema, h)
    ensures Height(ExampleInner(root, schema, depth, seen).0) <= depth + h
    decreases TodoAll(root, Refs(schema), seen), Size(schema), 4
  {
    ResolveShrinks(root, schema, seen);
    ResolveLiterals(root, schema, seen, h);
    var (cur, seen') := Resolve(root, schema, seen);
    SynthesizeHeight(root, cur, depth, seen', h);
  }

  lemma {:induction false} SynthesizeHeight(root: Value, cur: Value, depth: nat, seen: set<Bytes>, h: nat)
    requires h >= 1 && LiteralsAtMost(root, h) && LiteralsAtMost(cur, h)
    ensures Height(Synthesize(root, cur, depth, seen).0) <= depth + h
    decreases TodoAll(root, Refs(cur), seen), Size(cur), 3
  {
    if cur.Obj? {
      if Literal(cur).Some? {
        LiteralHeight(cur, h);
      } else if ArrayAt(cur, ALL_OF).Some? {
        FindLiterals(cur.fields, ALL_OF, h);
        SubRefs(root, cur, ALL_OF, seen);
        MergeHeight(root, ArrayAt(cur, ALL_OF).value, depth, seen, [], h);
      } else if Enumerates(cur, ONE_OF) {
        VariantHeight(root, cur, ONE_OF, depth, seen, h);
      } else if Enumerates(cur, ANY_OF) {
        VariantHeight(root, cur, ANY_OF, depth, seen, h);
      } else {
        ByTypeHeight(root, cur, depth, seen, h);
      }
    } else {
      assert Synthesize(root, cur, depth, seen) == ByType(root, cur, depth, seen) == (Null, seen);
    }
  }

  lemma {:induction false} ByTypeHeight(root: Value, cur: Value, depth: nat, seen: set<Bytes>, h: nat)
    requires h >= 1 && LiteralsAtMost(root, h) && LiteralsAtMost(cur, h) && cur.Obj?
    ensures Height(ByType(root, cur, depth, seen).0) <= depth + h
    decreases TodoAll(root, Refs(cur), seen), Size(cur), 2
  {
    ObjectHeight(root, cur, depth, seen, h);
    ArrayHeight(root, cur, depth, seen, h);
  }

  lemma LiteralHeight(cur: Value, h: nat)
    requires LiteralsAtMost(cur, h) && cur.Obj?
    ensures Literal(cur).Some? ==> Height(Literal(cur).value) <= h
  {
    if Get(cur, EXAMPLE).Some? { FindLiterals(cur.fields, EXAMPLE, h); }
    if Get(cur, DEFAULT).Some? { FindLiterals(cur.fields, DEFAULT, h); }
    if Enumerates(cur, ENUM) { FindLiterals(cur.fields, ENUM, h); }
  }

  lemma {:induction false} VariantHeight(root: Value, cur: Value, key: Bytes, depth: nat, seen: set<Bytes>, h: nat)
    requires h >= 1 && LiteralsAtMost(root, h) && LiteralsAtMost(cur, h) && cur.Obj? && Enumerates(cur, key)
    ensures Height(ExampleInner(root, ArrayAt(cur, key).value[0], depth, seen).0) <= depth + h
    decreases TodoAll(root, Refs(cur), seen), Size(cur), 0
  {
    FindLiterals(cur.fields, key, h);
    SubRefs(root, cur, key, seen);
    ExampleHeight(root, ArrayAt(cur, key).value[0], depth, seen, h);
  }

  lemma {:induction false} MergeHeight(root: Value, subs: seq<Value>, depth: nat, seen: set<Bytes>, merged: seq<Field>,
                                       h: nat)
    requires h >= 1 && LiteralsAtMost(root, h) && LiteralsAll(subs, h)
    requires HeightFields(merged) < depth + h
    ensures HeightFields(MergeAll(root, subs, depth, seen, merged).0) < depth + h
    decreases TodoAll(root, RefsAll(subs), seen), SizeAll(subs), 1
  {
    if subs != [] {
      TodoMonotone(root, RefsAll(subs), seen, Refs(subs[0]), seen);
      ExampleHeight(root, subs[0], depth, seen, h);
      var (v, seen') := ExampleInner(root, subs[0], depth, seen);
      TodoMonotone(root, RefsAll(subs), seen, RefsAll(subs[1..]), seen');
      ExtendedHeight(merged, v, depth + h);
      MergeHeight(root, subs[1..], depth, seen', Extended(merged, v), h);
    }
  }

  lemma ExtendedHeight(merged: seq<Field>, v: Value, limit: nat)
    requires HeightFields(merged) < limit && Height(v) <= limit
    ensures HeightFields(Extended(merged, v)) < limit
  {
    if v.Obj? { PutAllHeight(merged, v.fields); }
  }

  lemma {:induction false} ObjectHeight(root: Value, cur: Value, depth: nat, seen: set<Bytes>, h: nat)
    requires h >= 1 && LiteralsAtMost(root, h) && LiteralsAtMost(cur, h) && cur.Obj?
    ensures Height(BuildObject(root, cur, depth, seen).0) <= depth + h
    decreases TodoAll(root, Refs(cur), seen), Size(cur), 0
  {
    if depth > 0 && ObjectAt(cur, PROPERTIES).Some? {
      FindLiterals(cur.fields, PROPERTIES, h);
      SubRefs(root, cur, PROPERTIES, seen);
      FieldsHeight(root, ObjectAt(cur, PROPERTIES).value, depth - 1, seen, [], h);
    }
  }

  lemma {:induction false} FieldsHeight(root: Value, props: seq<Field>, depth: nat, seen: set<Bytes>, built: seq<Field>,
                                        h: nat)
    requires h >= 1 && LiteralsAtMost(root, h) && LiteralsFields(props, h)
    requires HeightFields(built) <= depth + h
    ensures HeightFields(BuildFields(root, props, depth, seen, built).0) <= depth + h
    decreases TodoAll(root, RefsFields(props), seen), SizeFields(props), 1
  {
    if props != [] {
      TodoMonotone(root, RefsFields(props), seen, Refs(props[0].value), seen);
      ExampleHeight(root, props[0].value, depth, seen, h);
      var (v, seen') := ExampleInner(root, props[0].value, depth, seen);
      TodoMonotone(root, RefsFields(props), seen, RefsFields(props[1..]), seen');
      PutHeight(built, props[0].key, v);
      FieldsHeight(root, props[1..], depth, seen', Put(built, props[0].key, v), h);
    }
  }

  lemma {:induction false} ArrayHeight(root: Value, cur: Value, depth: nat, seen: set<Bytes>, h: nat)
    requires h >= 1 && LiteralsAtMost(root, h) && LiteralsAtMost(cur, h) && cur.Obj?
    ensures Height(BuildArray(root, cur, depth, seen).0) <= depth + h
    decreases TodoAll(root, Refs(cur), seen), Size(cur), 1
  {
    if depth > 0 {
      if Get(cur, ITEMS).Some? {
        ItemsHeight(root, cur, depth - 1, seen, h);
        ArrayOfOne(ExampleInner(root, Get(cur, ITEMS).value, depth - 1, seen).0);
      } else {
        ArrayOfOne(Null);
      }
    }
  }

  lemma ArrayOfOne(v: Value)
    ensures Height(Arr([v])) == 1 + Height(v)
  {
    HeightOne(v);
  }

  lemma {:induction false} ItemsHeight(root: Value, cur: Value, depth: nat, seen: set<Bytes>, h: nat)
    requires h >= 1 && LiteralsAtMost(root, h) && LiteralsAtMost(cur, h) && cur.Obj? && Get(cur, ITEMS).Some?
    ensures Height(ExampleInner(root, Get(cur, ITEMS).value, depth, seen).0) <= depth + h
    decreases TodoAll(root, Refs(cur), seen), Size(cur), 0
  {
    FindLiterals(cur.fields, ITEMS, h);
    SubRefs(root, cur, ITEMS, seen);
    ExampleHeight(root, Get(cur, ITEMS).value, depth, seen, h);
  }

  lemma HeightOne(v: Value)
    ensures HeightAll([v]) == Height(v)
  {
    assert [v][1..] == [];
  }
}
