/** What a synthesised example holds (`example_inner`, `build_object`, `build_array`, `placeholder_string` in
    crates/voleeo-import/src/util.rs), read off the resolved schema. */
module ExampleMeaning {
  import opened Text
  import opened Sequences
  import opened RefExample

  // ---- what a schema says ----

  predicate IsArrayAt(v: Value, key: Bytes) { Get(v, key).Some? && Get(v, key).value.Arr? }

  predicate ListsAt(v: Value, key: Bytes) { IsArrayAt(v, key) && Get(v, key).value.elems != [] }

  function FirstAt(v: Value, key: Bytes): Value
    requires ListsAt(v, key)
  {
    Get(v, key).value.elems[0]
  }

  predicate OffersNothing(cur: Value) {
    Get(cur, EXAMPLE).None? && Get(cur, DEFAULT).None? && !ListsAt(cur, ENUM)
  }

  predicate NotComposed(cur: Value) { !IsArrayAt(cur, ALL_OF) && !ListsAt(cur, ONE_OF) && !ListsAt(cur, ANY_OF) }

  /** A schema whose example depends on its type alone. */
  predicate ByItsType(cur: Value) { OffersNothing(cur) && NotComposed(cur) }

  /** The type, or the first of a list of types. */
  predicate HasType(cur: Value, ty: Bytes) {
    Get(cur, TYPE) == Some(Str(ty)) || (ListsAt(cur, TYPE) && FirstAt(cur, TYPE) == Str(ty))
  }

  ghost predicate Untyped(cur: Value) { forall ty :: !HasType(cur, ty) }

  ghost predicate IsObjectSchema(cur: Value) {
    HasType(cur, OBJECT) || (Untyped(cur) && Get(cur, PROPERTIES).Some?)
  }

  lemma KeywordsSpelled()
    ensures REF == Ascii("$ref") && EXAMPLE == Ascii("example") && DEFAULT == Ascii("default") && ENUM == Ascii("enum")
    ensures ALL_OF == Ascii("allOf") && ONE_OF == Ascii("oneOf") && ANY_OF == Ascii("anyOf") && TYPE == Ascii("type")
    ensures PROPERTIES == Ascii("properties") && ITEMS == Ascii("items") && FORMAT == Ascii("format")
    ensures OBJECT == Ascii("object") && ARRAY == Ascii("array") && INTEGER == Ascii("integer")
    ensures NUMBER == Ascii("number") && BOOLEAN == Ascii("boolean") && STRING == Ascii("string")
  {
  }

  lemma TypeMeaning(cur: Value, ty: Bytes)
    ensures TypeOf(cur) == Some(ty) <==> HasType(cur, ty)
    ensures TypeOf(cur).None? <==> Untyped(cur)
  {
    if TypeOf(cur).Some? { assert HasType(cur, TypeOf(cur).value); }
  }

  lemma DispatchesByType(root: Value, schema: Value, depth: nat, seen: set<Bytes>)
    ensures var (cur, marked) := Resolve(root, schema, seen);
            ByItsType(cur) ==> ExampleInner(root, schema, depth, seen) == ByType(root, cur, depth, marked)
  {
  }

  // ---- literals and variants ----

  /** What the schema offers itself comes first: its example, then its default, then its first enumerated value. */
  lemma OfferedValueWins(root: Value, schema: Value, depth: nat, seen: set<Bytes>)
    ensures var (cur, marked) := Resolve(root, schema, seen);
            var r := ExampleInner(root, schema, depth, seen);
            && (Get(cur, EXAMPLE).Some? ==> r == (Get(cur, EXAMPLE).value, marked))
            && (Get(cur, EXAMPLE).None? && Get(cur, DEFAULT).Some? ==> r == (Get(cur, DEFAULT).value, marked))
            && (Get(cur, EXAMPLE).None? && Get(cur, DEFAULT).None? && ListsAt(cur, ENUM) ==>
              r == (FirstAt(cur, ENUM), marked))
  {
  }

  /** Without a literal and an `allOf`, the first variant of `oneOf` counts, and of `anyOf` if there is none. */
  lemma FirstVariantCounts(root: Value, schema: Value, depth: nat, seen: set<Bytes>)
    ensures var (cur, marked) := Resolve(root, schema, seen);
            OffersNothing(cur) && !IsArrayAt(cur, ALL_OF) ==>
              && (ListsAt(cur, ONE_OF) ==>
                ExampleInner(root, schema, depth, seen) == ExampleInner(root, FirstAt(cur, ONE_OF), depth, marked))
              && (!ListsAt(cur, ONE_OF) && ListsAt(cur, ANY_OF) ==>
                ExampleInner(root, schema, depth, seen) == ExampleInner(root, FirstAt(cur, ANY_OF), depth, marked))
  {
  }

  // ---- scalars ----

  ghost predicate IsPlaceholder(cur: Value, s: Bytes) {
    var format := Get(cur, FORMAT);
    if format == Some(Str(Ascii("date-time"))) then s == Ascii("1970-01-01T00:00:00Z")
    else if format == Some(Str(Ascii("date"))) then s == Ascii("1970-01-01")
    else if format == Some(Str(Ascii("uuid"))) then s == Ascii("00000000-0000-0000-0000-000000000000")
    else if format == Some(Str(Ascii("email"))) then s == Ascii("user@example.com")
    else if format in [Some(Str(Ascii("uri"))), Some(Str(Ascii("url")))] then s == Ascii("https://example.com")
    else s == []
  }

  /** Scalars have fixed examples, a string one by its format; an unknown type has `null`. */
  lemma ScalarExample(root: Value, schema: Value, depth: nat, seen: set<Bytes>)
    ensures var (cur, marked) := Resolve(root, schema, seen);
            var r := ExampleInner(root, schema, depth, seen);
            ByItsType(cur) ==>
              && (HasType(cur, INTEGER) ==> r == (Num(0, false), marked))
              && (HasType(cur, NUMBER) ==> r == (Num(0, true), marked))
              && (HasType(cur, BOOLEAN) ==> r == (Bool(false), marked))
              && (HasType(cur, STRING) ==> r.0.Str? && IsPlaceholder(cur, r.0.s) && r.1 == marked)
              && (Untyped(cur) && Get(cur, PROPERTIES).None? ==> r == (Null, marked))
              && (forall ty :: HasType(cur, ty) && ty !in KNOWN_TYPES ==> r == (Null, marked))
  {
    var (cur, marked) := Resolve(root, schema, seen);
    if ByItsType(cur) {
      DispatchesByType(root, schema, depth, seen);
      forall ty ensures TypeOf(cur) == Some(ty) <==> HasType(cur, ty) { TypeMeaning(cur, ty); }
      TypeMeaning(cur, []);
      TypesDiffer();
      PlaceholderMeaning(cur);
    }
  }

  const KNOWN_TYPES := [OBJECT, ARRAY, INTEGER, NUMBER, BOOLEAN, STRING]

  lemma TypesDiffer()
    ensures NoDuplicates(KNOWN_TYPES)
  {
    assert |OBJECT| == 6 && |ARRAY| == 5 && |INTEGER| == 7 && |NUMBER| == 6 && |BOOLEAN| == 7 && |STRING| == 6;
    assert OBJECT[0] == 111 && NUMBER[0] == 110 && STRING[0] == 115 && INTEGER[0] == 105 && BOOLEAN[0] == 98;
  }

  lemma PlaceholderMeaning(cur: Value)
    ensures IsPlaceholder(cur, Placeholder(cur))
  {
  }

  // ---- fields as a map ----

  /** What an object holds; a later field with the same key wins. */
  ghost function AsMap(fs: seq<Field>): map<Bytes, Value> {
    if fs == [] then map[] else AsMap(fs[..|fs| - 1])[fs[|fs| - 1].key := fs[|fs| - 1].value]
  }

  ghost predicate SortedKeys(fs: seq<Field>) { forall i, j :: 0 <= i < j < |fs| ==> Less(fs[i].key, fs[j].key) }

  lemma {:induction false} AsMapCons(f: Field, fs: seq<Field>)
    ensures AsMap([f] + fs) == map[f.key := f.value] + AsMap(fs)
  {
    var all := [f] + fs;
    if fs == [] {
      assert all == [f] && all[..0] == [];
    } else {
      AsMapCons(f, fs[..|fs| - 1]);
      assert all[..|all| - 1] == [f] + fs[..|fs| - 1];
    }
  }

  predicate HasKey(fs: seq<Field>, k: Bytes) { exists i :: 0 <= i < |fs| && fs[i].key == k }

  lemma {:induction false} AsMapKeys(fs: seq<Field>)
    ensures forall k :: k in AsMap(fs) <==> HasKey(fs, k)
  {
    if fs != [] {
      var before, last := fs[..|fs| - 1], fs[|fs| - 1];
      AsMapKeys(before);
      forall k ensures HasKey(fs, k) <==> HasKey(before, k) || k == last.key {
        if i :| 0 <= i < |before| && before[i].key == k { assert fs[i].key == k; }
        if i :| 0 <= i < |fs| && fs[i].key == k && i < |before| { assert before[i].key == k; }
        if k == last.key { assert fs[|fs| - 1].key == k; }
      }
    }
  }

  lemma {:induction false} AsMapValues(fs: seq<Field>, i: nat)
    requires i < |fs| && LastOf(fs, i)
    ensures fs[i].key in AsMap(fs) && AsMap(fs)[fs[i].key] == fs[i].value
  {
    var before := fs[..|fs| - 1];
    if i < |before| {
      assert fs[|fs| - 1].key != fs[i].key;
      AsMapValues(before, i);
    }
  }

  /** No later field has the key of field `i`. */
  predicate LastOf(fs: seq<Field>, i: nat)
    requires i < |fs|
  {
    forall j :: i < j < |fs| ==> fs[j].key != fs[i].key
  }

  lemma LessIsStrict(a: Bytes, b: Bytes)
    ensures !Less(a, a)
    ensures Less(a, b) || a == b || Less(b, a)
  {
    BytesLeqTotal(a, b);
    BytesLeqMeaning(a, b);
    BytesLeqMeaning(b, a);
  }

  lemma HeadIsNew(fs: seq<Field>)
    requires fs != [] && SortedKeys(fs)
    ensures fs[0].key !in AsMap(fs[1..])
  {
    AsMapKeys(fs[1..]);
    LessIsStrict(fs[0].key, fs[0].key);
    forall i | 0 <= i < |fs[1..]| ensures fs[1..][i].key != fs[0].key {
      assert fs[1..][i] == fs[i + 1] && Less(fs[0].key, fs[i + 1].key);
    }
  }

  /** Where keys are sorted, looking up a key is asking the map. */
  lemma {:induction false} FindInSorted(fs: seq<Field>, key: Bytes)
    requires SortedKeys(fs)
    ensures Find(fs, key) == if key in AsMap(fs) then Some(AsMap(fs)[key]) else None
  {
    if fs != [] {
      FindInSorted(fs[1..], key);
      AsMapCons(fs[0], fs[1..]);
      assert fs == [fs[0]] + fs[1..];
      HeadIsNew(fs);
    }
  }

  /** Inserting keeps the keys sorted and sets one of them. */
  lemma {:induction false} PutMeans(fs: seq<Field>, key: Bytes, v: Value)
    requires SortedKeys(fs)
    ensures SortedKeys(Put(fs, key, v)) && AsMap(Put(fs, key, v)) == AsMap(fs)[key := v]
  {
    if fs == [] {
      AsMapCons(Field(key, v), []);
      assert [Field(key, v)] + [] == [Field(key, v)];
    } else if fs[0].key == key {
      PutOver(fs, v);
    } else if BytesLeq(key, fs[0].key) {
      PutBefore(fs, key, v);
    } else {
      LessIsStrict(key, fs[0].key);
      BytesLeqMeaning(key, fs[0].key);
      PutMeans(fs[1..], key, v);
      PutAfter(fs, key, v, Put(fs[1..], key, v));
    }
  }

  lemma SortedCons(f: Field, fs: seq<Field>)
    requires SortedKeys(fs) && forall i :: 0 <= i < |fs| ==> Less(f.key, fs[i].key)
    ensures SortedKeys([f] + fs)
  {
  }

  lemma PutOver(fs: seq<Field>, v: Value)
    requires fs != [] && SortedKeys(fs)
    ensures var put := [Field(fs[0].key, v)] + fs[1..];
            SortedKeys(put) && AsMap(put) == AsMap(fs)[fs[0].key := v]
  {
    assert fs == [fs[0]] + fs[1..];
    AsMapCons(fs[0], fs[1..]);
    AsMapCons(Field(fs[0].key, v), fs[1..]);
    HeadIsNew(fs);
    SortedCons(Field(fs[0].key, v), fs[1..]);
  }

  lemma PutBefore(fs: seq<Field>, key: Bytes, v: Value)
    requires fs != [] && SortedKeys(fs) && BytesLeq(key, fs[0].key) && key != fs[0].key
    ensures var put := [Field(key, v)] + fs;
            SortedKeys(put) && AsMap(put) == AsMap(fs)[key := v]
  {
    BytesLeqMeaning(key, fs[0].key);
    AsMapCons(Field(key, v), fs);
    SmallerIsNew(key, fs);
    SortedCons(Field(key, v), fs);
  }

  /** Inserting into the tail, whose keys and the new one all come after the first. */
  lemma PutAfter(fs: seq<Field>, key: Bytes, v: Value, put: seq<Field>)
    requires fs != [] && SortedKeys(fs) && SortedKeys(put) && AsMap(put) == AsMap(fs[1..])[key := v]
    requires Less(fs[0].key, key)
    ensures SortedKeys([fs[0]] + put) && AsMap([fs[0]] + put) == AsMap(fs)[key := v]
  {
    assert fs == [fs[0]] + fs[1..];
    AsMapCons(fs[0], fs[1..]);
    AsMapCons(fs[0], put);
    AddThenSet(map[fs[0].key := fs[0].value], AsMap(fs[1..]), key, v);
    LaterKeys(fs, key, v, put);
    SortedCons(fs[0], put);
  }

  lemma AddThenSet(m: map<Bytes, Value>, n: map<Bytes, Value>, key: Bytes, v: Value)
    ensures m + n[key := v] == (m + n)[key := v]
  {
  }

  lemma LaterKeys(fs: seq<Field>, key: Bytes, v: Value, put: seq<Field>)
    requires fs != [] && SortedKeys(fs) && AsMap(put) == AsMap(fs[1..])[key := v] && Less(fs[0].key, key)
    ensures forall i :: 0 <= i < |put| ==> Less(fs[0].key, put[i].key)
  {
    AsMapKeys(put);
    AsMapKeys(fs[1..]);
    forall i | 0 <= i < |put| ensures Less(fs[0].key, put[i].key) {
      assert HasKey(put, put[i].key);
      if put[i].key != key {
        var j :| 0 <= j < |fs[1..]| && fs[1..][j].key == put[i].key;
        assert Less(fs[0].key, fs[j + 1].key);
      }
    }
  }

  lemma LessTransitive(a: Bytes, b: Bytes, c: Bytes)
    requires Less(a, b) && Less(b, c)
    ensures Less(a, c)
  {
    BytesLeqMeaning(a, b);
    BytesLeqMeaning(b, c);
    BytesLeqMeaning(a, c);
    BytesLeqTransitive(a, b, c);
    if a == c {
      BytesLeqAntisymmetric(a, b);
      LessIsStrict(a, a);
    }
  }

  lemma SmallerIsNew(key: Bytes, fs: seq<Field>)
    requires fs != [] && SortedKeys(fs) && Less(key, fs[0].key)
    ensures forall i :: 0 <= i < |fs| ==> Less(key, fs[i].key)
    ensures key !in AsMap(fs)
  {
    forall i | 0 <= i < |fs| ensures Less(key, fs[i].key) {
      if i > 0 { LessTransitive(key, fs[0].key, fs[i].key); }
    }
    AsMapKeys(fs);
    LessIsStrict(key, key);
  }

  lemma SetThenAdd(m: map<Bytes, Value>, key: Bytes, v: Value, n: map<Bytes, Value>)
    ensures m[key := v] + n == m + (map[key := v] + n)
  {
  }

  lemma AddThree(a: map<Bytes, Value>, b: map<Bytes, Value>, c: map<Bytes, Value>)
    ensures a + b + c == a + (b + c)
  {
  }

  lemma {:induction false} PutAllMeans(fs: seq<Field>, more: seq<Field>)
    requires SortedKeys(fs)
    ensures SortedKeys(PutAll(fs, more)) && AsMap(PutAll(fs, more)) == AsMap(fs) + AsMap(more)
    decreases |more|
  {
    if more != [] {
      PutMeans(fs, more[0].key, more[0].value);
      PutAllMeans(Put(fs, more[0].key, more[0].value), more[1..]);
      AsMapCons(more[0], more[1..]);
      SetThenAdd(AsMap(fs), more[0].key, more[0].value, AsMap(more[1..]));
      assert more == [more[0]] + more[1..];
    }
  }

  // ---- a list of examples ----

  /** The examples of `schemas`, each made with the references marked by those before it. */
  ghost predicate Threaded(root: Value, schemas: seq<Value>, depth: nat, marks: seq<set<Bytes>>, examples: seq<Value>) {
    && |examples| == |schemas| && |marks| == |schemas| + 1
    && forall i :: 0 <= i < |schemas| ==> (examples[i], marks[i + 1]) == ExampleInner(root, schemas[i], depth, marks[i])
  }

  lemma ThreadedCons(root: Value, schemas: seq<Value>, depth: nat, seen: set<Bytes>, marks: seq<set<Bytes>>,
                     examples: seq<Value>)
    requires schemas != [] && Threaded(root, schemas[1..], depth, marks, examples)
    requires marks[0] == ExampleInner(root, schemas[0], depth, seen).1
    ensures Threaded(root, schemas, depth, [seen] + marks, [ExampleInner(root, schemas[0], depth, seen).0] + examples)
  {
    var m, e := [seen] + marks, [ExampleInner(root, schemas[0], depth, seen).0] + examples;
    forall i | 0 <= i < |schemas| ensures (e[i], m[i + 1]) == ExampleInner(root, schemas[i], depth, m[i]) {
      if i > 0 {
        assert schemas[1..][i - 1] == schemas[i] && m[i] == marks[i - 1] && e[i] == examples[i - 1];
      }
    }
  }

  function ValuesOf(fs: seq<Field>): seq<Value> { Map(fs, (f: Field) => f.value) }

  /** The fields with other values. */
  function WithValues(fs: seq<Field>, vs: seq<Value>): seq<Field>
    requires |vs| == |fs|
  {
    seq(|fs|, i requires 0 <= i < |fs| => Field(fs[i].key, vs[i]))
  }

  // ---- objects ----

  lemma {:induction false} FieldsMeaning(root: Value, props: seq<Field>, depth: nat, seen: set<Bytes>,
                                         built: seq<Field>)
    returns (marks: seq<set<Bytes>>, examples: seq<Value>)
    requires SortedKeys(built)
    ensures Threaded(root, ValuesOf(props), depth, marks, examples) && marks[0] == seen
    ensures var (fields, marked) := BuildFields(root, props, depth, seen, built);
            && SortedKeys(fields) && marked == marks[|props|]
            && AsMap(fields) == AsMap(built) + AsMap(WithValues(props, examples))
    decreases |props|
  {
    if props == [] {
      marks, examples := [seen], [];
      assert AsMap(built) + AsMap(WithValues(props, examples)) == AsMap(built);
    } else {
      var (v, seen') := ExampleInner(root, props[0].value, depth, seen);
      PutMeans(built, props[0].key, v);
      var m, e := FieldsMeaning(root, props[1..], depth, seen', Put(built, props[0].key, v));
      marks, examples := [seen] + m, [v] + e;
      FieldsThreaded(root, props, depth, seen, m, e);
      SetThenAdd(AsMap(built), props[0].key, v, AsMap(WithValues(props[1..], e)));
      FieldsLoop(root, props, depth, seen, built);
    }
  }

  lemma FieldsLoop(root: Value, props: seq<Field>, depth: nat, seen: set<Bytes>, built: seq<Field>)
    requires props != []
    ensures var (v, seen') := ExampleInner(root, props[0].value, depth, seen);
            BuildFields(root, props, depth, seen, built)
            == BuildFields(root, props[1..], depth, seen', Put(built, props[0].key, v))
  {
  }

  lemma FieldsThreaded(root: Value, props: seq<Field>, depth: nat, seen: set<Bytes>, marks: seq<set<Bytes>>,
                       examples: seq<Value>)
    requires props != [] && Threaded(root, ValuesOf(props[1..]), depth, marks, examples)
    requires marks[0] == ExampleInner(root, props[0].value, depth, seen).1
    ensures var v := ExampleInner(root, props[0].value, depth, seen).0;
            && Threaded(root, ValuesOf(props), depth, [seen] + marks, [v] + examples)
            && AsMap(WithValues(props, [v] + examples))
               == map[props[0].key := v] + AsMap(WithValues(props[1..], examples))
  {
    var v := ExampleInner(root, props[0].value, depth, seen).0;
    assert ValuesOf(props)[1..] == ValuesOf(props[1..]);
    ThreadedCons(root, ValuesOf(props), depth, seen, marks, examples);
    FilledCons(props, v, examples);
  }

  lemma FilledCons(props: seq<Field>, v: Value, examples: seq<Value>)
    requires props != [] && |examples| == |props| - 1
    ensures AsMap(WithValues(props, [v] + examples))
         == map[props[0].key := v] + AsMap(WithValues(props[1..], examples))
  {
    AsMapCons(Field(props[0].key, v), WithValues(props[1..], examples));
    assert WithValues(props, [v] + examples) == [Field(props[0].key, v)] + WithValues(props[1..], examples);
  }

  /** `fields` holds exactly the keys of `props`, sorted, each with its example; were a key there twice, the later one
      would count. */
  ghost predicate HoldsProperties(fields: seq<Field>, props: seq<Field>, examples: seq<Value>) {
    && |examples| == |props| && SortedKeys(fields)
    && (forall k :: Find(fields, k).Some? <==> HasKey(props, k))
    && (forall i :: 0 <= i < |props| && LastOf(props, i) ==> Find(fields, props[i].key) == Some(examples[i]))
  }

  lemma HoldsByMap(fields: seq<Field>, props: seq<Field>, examples: seq<Value>)
    requires |examples| == |props| && SortedKeys(fields) && AsMap(fields) == AsMap(WithValues(props, examples))
    ensures HoldsProperties(fields, props, examples)
  {
    var filled := WithValues(props, examples);
    AsMapKeys(filled);
    forall k ensures Find(fields, k).Some? <==> HasKey(props, k) {
      FindInSorted(fields, k);
      if i :| 0 <= i < |props| && props[i].key == k { assert filled[i].key == k; }
      if i :| 0 <= i < |filled| && filled[i].key == k { assert props[i].key == k; }
    }
    forall i | 0 <= i < |props| && LastOf(props, i) ensures Find(fields, props[i].key) == Some(examples[i]) {
      FindInSorted(fields, props[i].key);
      AsMapValues(filled, i);
    }
  }

  lemma BuildsFields(root: Value, cur: Value, depth: nat, seen: set<Bytes>)
    requires IsObjectSchema(cur) && depth > 0 && Get(cur, PROPERTIES).Some? && Get(cur, PROPERTIES).value.Obj?
    ensures var (fields, marked) := BuildFields(root, Get(cur, PROPERTIES).value.fields, depth - 1, seen, []);
            ByType(root, cur, depth, seen) == (Obj(fields), marked)
  {
    TypeMeaning(cur, OBJECT);
    assert ByType(root, cur, depth, seen) == BuildObject(root, cur, depth, seen);
  }

  /** Above depth 0 an object schema gives an object with exactly the keys of `properties`, each holding the example
      of its property one level lower. */
  lemma ObjectExample(root: Value, schema: Value, depth: nat, seen: set<Bytes>)
    returns (marks: seq<set<Bytes>>, examples: seq<Value>)
    requires var cur := Resolve(root, schema, seen).0;
             && ByItsType(cur) && IsObjectSchema(cur) && depth > 0
             && Get(cur, PROPERTIES).Some? && Get(cur, PROPERTIES).value.Obj?
    ensures var (cur, marked) := Resolve(root, schema, seen);
            var props := Get(cur, PROPERTIES).value.fields;
            var (v, after) := ExampleInner(root, schema, depth, seen);
            && Threaded(root, ValuesOf(props), depth - 1, marks, examples)
            && marks[0] == marked && marks[|props|] == after
            && v.Obj? && HoldsProperties(v.fields, props, examples)
  {
    var (cur, marked) := Resolve(root, schema, seen);
    var props := Get(cur, PROPERTIES).value.fields;
    DispatchesByType(root, schema, depth, seen);
    BuildsFields(root, cur, depth, marked);
    marks, examples := FieldsMeaning(root, props, depth - 1, marked, []);
    assert AsMap([]) + AsMap(WithValues(props, examples)) == AsMap(WithValues(props, examples));
    HoldsByMap(BuildFields(root, props, depth - 1, marked, []).0, props, examples);
  }

  /** At depth 0, or without properties, the object is empty. */
  lemma EmptyObjectExample(root: Value, schema: Value, depth: nat, seen: set<Bytes>)
    ensures var (cur, marked) := Resolve(root, schema, seen);
            ByItsType(cur) && IsObjectSchema(cur)
              && (depth == 0 || Get(cur, PROPERTIES).None? || !Get(cur, PROPERTIES).value.Obj?) ==>
              ExampleInner(root, schema, depth, seen) == (Obj([]), marked)
  {
    var (cur, marked) := Resolve(root, schema, seen);
    TypeMeaning(cur, OBJECT);
    DispatchesByType(root, schema, depth, seen);
    if IsObjectSchema(cur) { assert ByType(root, cur, depth, marked) == BuildObject(root, cur, depth, marked); }
  }

  /** An array schema gives one element, the example of `items` one level lower or `null`, and none at depth 0. */
  lemma ArrayExample(root: Value, schema: Value, depth: nat, seen: set<Bytes>)
    ensures var (cur, marked) := Resolve(root, schema, seen);
            var r := ExampleInner(root, schema, depth, seen);
            ByItsType(cur) && HasType(cur, ARRAY) ==>
              if depth == 0 then r == (Arr([]), marked)
              else if Get(cur, ITEMS).None? then r == (Arr([Null]), marked)
              else
                var (v, after) := ExampleInner(root, Get(cur, ITEMS).value, depth - 1, marked);
                r == (Arr([v]), after)
  {
    var (cur, marked) := Resolve(root, schema, seen);
    TypeMeaning(cur, ARRAY);
    TypesDiffer();
    DispatchesByType(root, schema, depth, seen);
    if HasType(cur, ARRAY) { assert ByType(root, cur, depth, marked) == BuildArray(root, cur, depth, marked); }
  }

  // ---- allOf ----

  /** The fields of all objects among the values, a later one winning. */
  ghost function Union(vs: seq<Value>): map<Bytes, Value> {
    if vs == [] then map[] else PartOf(vs[0]) + Union(vs[1..])
  }

  ghost function PartOf(v: Value): map<Bytes, Value> { if v.Obj? then AsMap(v.fields) else map[] }

  lemma {:induction false} MergeMeaning(root: Value, subs: seq<Value>, depth: nat, seen: set<Bytes>, merged: seq<Field>)
    returns (marks: seq<set<Bytes>>, examples: seq<Value>)
    requires SortedKeys(merged)
    ensures Threaded(root, subs, depth, marks, examples) && marks[0] == seen
    ensures var (fields, marked) := MergeAll(root, subs, depth, seen, merged);
            && SortedKeys(fields) && marked == marks[|subs|]
            && AsMap(fields) == AsMap(merged) + Union(examples)
    decreases |subs|
  {
    if subs == [] {
      marks, examples := [seen], [];
      assert AsMap(merged) + Union([]) == AsMap(merged);
    } else {
      var (v, seen') := ExampleInner(root, subs[0], depth, seen);
      ExtendedMeans(merged, v);
      var m, e := MergeMeaning(root, subs[1..], depth, seen', Extended(merged, v));
      ThreadedCons(root, subs, depth, seen, m, e);
      marks, examples := [seen] + m, [v] + e;
      UnionCons(v, e);
      AddThree(AsMap(merged), PartOf(v), Union(e));
      MergeLoop(root, subs, depth, seen, merged);
    }
  }

  lemma ExtendedMeans(merged: seq<Field>, v: Value)
    requires SortedKeys(merged)
    ensures SortedKeys(Extended(merged, v)) && AsMap(Extended(merged, v)) == AsMap(merged) + PartOf(v)
  {
    if v.Obj? { PutAllMeans(merged, v.fields); }
  }

  lemma UnionCons(v: Value, vs: seq<Value>)
    ensures Union([v] + vs) == PartOf(v) + Union(vs)
  {
    assert ([v] + vs)[1..] == vs;
  }

  lemma MergeLoop(root: Value, subs: seq<Value>, depth: nat, seen: set<Bytes>, merged: seq<Field>)
    requires subs != []
    ensures var (v, seen') := ExampleInner(root, subs[0], depth, seen);
            MergeAll(root, subs, depth, seen, merged) == MergeAll(root, subs[1..], depth, seen', Extended(merged, v))
  {
  }

  /** `allOf` gives one object with the fields of all parts that are objects, the later part winning; all parts are
      made at the same depth. */
  lemma AllOfExample(root: Value, schema: Value, depth: nat, seen: set<Bytes>)
    returns (marks: seq<set<Bytes>>, examples: seq<Value>)
    requires var cur := Resolve(root, schema, seen).0; OffersNothing(cur) && IsArrayAt(cur, ALL_OF)
    ensures var (cur, marked) := Resolve(root, schema, seen);
            var subs := Get(cur, ALL_OF).value.elems;
            var (v, after) := ExampleInner(root, schema, depth, seen);
            && Threaded(root, subs, depth, marks, examples) && marks[0] == marked && marks[|subs|] == after
            && v.Obj? && SortedKeys(v.fields) && AsMap(v.fields) == Union(examples)
  {
    var (cur, marked) := Resolve(root, schema, seen);
    marks, examples := MergeMeaning(root, Get(cur, ALL_OF).value.elems, depth, marked, []);
    assert AsMap([]) + Union(examples) == Union(examples);
  }
}
