/** camelCase and snake_case keys (packages/operator-sdk/src/keyCase.ts), on single keys and on whole
    nested values. */
module KeyCase {

  predicate IsUpper(c: char) {
    'A' <= c <= 'Z'
  }

  predicate IsLower(c: char) {
    'a' <= c <= 'z'
  }

  function ToLower(c: char): char
    requires IsUpper(c)
  {
    (c as int + 32) as char
  }

  function ToUpper(c: char): char
    requires IsLower(c)
  {
    (c as int - 32) as char
  }

  /** key.replace(/[A-Z]/g, (c) => `_${c.toLowerCase()}`) */
  function ToSnake(key: string): string {
    if key == "" then ""
    else (if IsUpper(key[0]) then ['_', ToLower(key[0])] else [key[0]]) + ToSnake(key[1..])
  }

  predicate StartsHump(s: string) {
    |s| >= 2 && s[0] == '_' && IsLower(s[1])
  }

  /** key.replace(/_([a-z])/g, (_, c) => c.toUpperCase()) */
  function ToCamel(key: string): string {
    if key == "" then ""
    else if StartsHump(key) then [ToUpper(key[1])] + ToCamel(key[2..])
    else [key[0]] + ToCamel(key[1..])
  }

  predicate HasHump(s: string) {
    exists i :: 0 <= i < |s| - 1 && s[i] == '_' && IsLower(s[i + 1])
  }

  predicate HasCapital(s: string) {
    exists i :: 0 <= i < |s| && IsUpper(s[i])
  }

  // ----- Single keys -----

  /** The letter at position i of the alphabet. */
  function Capital(i: nat): (c: char)
    requires i < 26
    ensures IsUpper(c)
  {
    ('A' as int + i) as char
  }

  function Small(i: nat): (c: char)
    requires i < 26
    ensures IsLower(c)
  {
    ('a' as int + i) as char
  }

  /** A capital becomes an underscore and its own small letter, and back ... */
  lemma LetterTurns(i: nat)
    requires i < 26
    ensures ToSnake([Capital(i)]) == ['_', Small(i)] && ToCamel(['_', Small(i)]) == [Capital(i)]
  {
    assert [Capital(i)][1..] == "" && ['_', Small(i)][2..] == "";
  }

  /** ... and every other character stays. */
  lemma OtherStays(c: char)
    ensures !('A' <= c <= 'Z') ==> ToSnake([c]) == [c]
    ensures ToCamel([c]) == [c]
  {
    assert [c][1..] == "";
  }

  /** toSnake works character by character ... */
  lemma {:induction false} SnakeConcat(a: string, b: string)
    ensures ToSnake(a + b) == ToSnake(a) + ToSnake(b)
  {
    hide IsUpper;
    if a == "" {
      assert a + b == b;
    } else {
      assert (a + b)[1..] == a[1..] + b;
      SnakeConcat(a[1..], b);
    }
  }

  /** ... and toCamel hump by hump: it can be cut anywhere but inside a hump. */
  lemma {:induction false} CamelConcat(a: string, b: string)
    requires a != "" && b != "" && a[|a| - 1] == '_' ==> !('a' <= b[0] <= 'z')
    ensures ToCamel(a + b) == ToCamel(a) + ToCamel(b)
  {
    if a == "" {
      assert a + b == b;
    } else {
      var n := if StartsHump(a) then 2 else 1;
      assert StartsHump(a + b) <==> StartsHump(a);
      assert (a + b)[n..] == a[n..] + b;
      CamelConcat(a[n..], b);
      hide IsLower, StartsHump;
    }
  }

  lemma {:induction false} SnakeHasNoCapital(k: string)
    ensures !HasCapital(ToSnake(k))
  {
    if k != "" {
      SnakeHasNoCapital(k[1..]);
      var head := if IsUpper(k[0]) then ['_', ToLower(k[0])] else [k[0]];
      var s := ToSnake(k);
      assert s == head + ToSnake(k[1..]);
      forall i | 0 <= i < |s|
        ensures !IsUpper(s[i])
      {
        if i >= |head| {
          assert s[i] == ToSnake(k[1..])[i - |head|];
        }
      }
    }
  }

  lemma {:induction false} CamelHasNoHump(s: string)
    ensures !HasHump(ToCamel(s))
    ensures s != "" ==> ToCamel(s) != "" && (ToCamel(s)[0] == s[0] || IsUpper(ToCamel(s)[0]))
  {
    if s != "" {
      var rest := if StartsHump(s) then s[2..] else s[1..];
      CamelHasNoHump(rest);
      var r := ToCamel(s);
      assert r[1..] == ToCamel(rest);
      if rest != "" {
        assert r[1] == ToCamel(rest)[0];
      }
      forall i | 0 <= i < |r| - 1
        ensures !(r[i] == '_' && IsLower(r[i + 1]))
      {
        if i > 0 {
          assert r[i] == ToCamel(rest)[i - 1] && r[i + 1] == ToCamel(rest)[i];
        }
      }
    }
  }

  lemma {:induction false} CamelUndoesSnake(k: string)
    requires !HasHump(k)
    ensures ToCamel(ToSnake(k)) == k
    ensures k != "" ==> ToSnake(k) != "" && (ToSnake(k)[0] == k[0] || ToSnake(k)[0] == '_')
  {
    if k != "" {
      var rest := k[1..];
      assert forall i :: 0 <= i < |rest| ==> rest[i] == k[i + 1];
      CamelUndoesSnake(rest);
      var s := ToSnake(k);
      if IsUpper(k[0]) {
        assert s[2..] == ToSnake(rest);
        assert StartsHump(s) && ToUpper(s[1]) == k[0];
      } else {
        assert s[1..] == ToSnake(rest);
        assert !StartsHump(s) by {
          if rest != "" {
            assert k[0] == '_' ==> !IsLower(k[1]);
          }
        }
      }
      assert k == [k[0]] + rest;
    }
  }

  lemma {:induction false} SnakeUndoesCamel(s: string)
    requires !HasCapital(s)
    ensures ToSnake(ToCamel(s)) == s
  {
    if s != "" {
      var n := if StartsHump(s) then 2 else 1;
      var rest := s[n..];
      assert forall i :: 0 <= i < |rest| ==> rest[i] == s[i + n];
      SnakeUndoesCamel(rest);
      assert ToCamel(s)[1..] == ToCamel(rest);
      assert s == s[..n] + rest;
      assert !IsUpper(s[0]);
    }
  }

  /** camel -> snake -> camel is the identity on a key iff no underscore precedes a lowercase letter. */
  lemma {:induction false} CamelRoundTripIff(k: string)
    ensures ToCamel(ToSnake(k)) == k <==> !HasHump(k)
  {
    CamelHasNoHump(ToSnake(k));
    if !HasHump(k) {
      CamelUndoesSnake(k);
    }
  }

  /** snake -> camel -> snake is the identity on a key iff it has no capital. */
  lemma {:induction false} SnakeRoundTripIff(s: string)
    ensures ToSnake(ToCamel(s)) == s <==> !HasCapital(s)
  {
    SnakeHasNoCapital(ToCamel(s));
    if !HasCapital(s) {
      SnakeUndoesCamel(s);
    }
  }

  // ----- Whole values -----

  /** A JavaScript value: leaves are null, primitives and class instances. */
  datatype Value = Leaf(text: string) | Arr(items: seq<Value>) | Obj(entries: seq<Entry>)

  datatype Entry = Entry(key: string, value: Value)

  datatype Convert = Snake | Camel

  function Apply(convert: Convert, key: string): string {
    match convert
    case Snake => ToSnake(key)
    case Camel => ToCamel(key)
  }

  ghost predicate HasKey(entries: seq<Entry>, key: string) {
    exists i :: 0 <= i < |entries| && entries[i].key == key
  }

  function IndexOf(entries: seq<Entry>, key: string): (i: nat)
    ensures i <= |entries|
    ensures i < |entries| ==> entries[i].key == key
    ensures i == |entries| <==> !HasKey(entries, key)
  {
    if entries == [] then 0
    else if entries[0].key == key then 0
    else
      assert HasKey(entries, key) <==> HasKey(entries[1..], key);
      1 + IndexOf(entries[1..], key)
  }

  /** out[key] = value: an existing own property is overwritten in place, and assigning to
      "__proto__" creates no own property. */
  function Assign(out: seq<Entry>, key: string, value: Value): seq<Entry> {
    var i := IndexOf(out, key);
    if key == "__proto__" then out
    else if i < |out| then out[i := Entry(key, value)]
    else out + [Entry(key, value)]
  }

  /** value.constructor === Object fails for an object with its own "constructor" property. */
  predicate IsPlain(entries: seq<Entry>) {
    IndexOf(entries, "constructor") == |entries|
  }

  function TransformKeys(value: Value, convert: Convert): Value
    decreases value, 1
  {
    match value
    case Leaf(_) => value
    case Arr(items) => Arr(TransformItems(items, convert))
    case Obj(entries) => if IsPlain(entries) then Obj(TransformEntries(entries, convert)) else value
  }

  function TransformItems(items: seq<Value>, convert: Convert): (r: seq<Value>)
    ensures |r| == |items|
    decreases items, 0
  {
    if items == [] then []
    else TransformItems(items[..|items| - 1], convert) + [TransformKeys(items[|items| - 1], convert)]
  }

  function TransformEntries(entries: seq<Entry>, convert: Convert): seq<Entry>
    decreases entries, 0
  {
    if entries == [] then []
    else
      var last := entries[|entries| - 1];
      Assign(TransformEntries(entries[..|entries| - 1], convert), Apply(convert, last.key),
             TransformKeys(last.value, convert))
  }

  /** The recursive converter, with its map over arrays and its loop over entries. */
  method TransformKeysLoop(value: Value, convert: Convert) returns (r: Value)
    ensures r == TransformKeys(value, convert)
    decreases value, 1
  {
    match value
    case Leaf(_) => r := value;
    case Arr(items) =>
      var out := TransformItemsLoop(items, convert);
      r := Arr(out);
    case Obj(entries) =>
      if !IsPlain(entries) {
        return value;
      }
      var out := TransformEntriesLoop(entries, convert);
      r := Obj(out);
  }

  method TransformItemsLoop(items: seq<Value>, convert: Convert) returns (out: seq<Value>)
    ensures out == TransformItems(items, convert)
    decreases items, 0
  {
    out := [];
    var i := 0;
    while i < |items|
      invariant 0 <= i <= |items|
      invariant out == TransformItems(items[..i], convert)
    {
      assert items[..i + 1][..i] == items[..i];
      var item := TransformKeysLoop(items[i], convert);
      out := out + [item];
      i := i + 1;
    }
    assert items[..i] == items;
  }

  method TransformEntriesLoop(entries: seq<Entry>, convert: Convert) returns (out: seq<Entry>)
    ensures out == TransformEntries(entries, convert)
    decreases entries, 0
  {
    hide Assign, Apply;
    out := [];
    var i := 0;
    while i < |entries|
      invariant 0 <= i <= |entries|
      invariant out == TransformEntries(entries[..i], convert)
    {
      assert entries[..i + 1][..i] == entries[..i];
      var v := TransformKeysLoop(entries[i].value, convert);
      out := Assign(out, Apply(convert, entries[i].key), v);
      i := i + 1;
    }
    assert entries[..i] == entries;
  }

  function Other(convert: Convert): Convert {
    if convert == Snake then Camel else Snake
  }

  /** Converting and converting back. A response body is converted to snake case on its way out, a
      request body to camel case on its way in. */
  function RoundTrip(value: Value, first: Convert): Value {
    TransformKeys(TransformKeys(value, first), Other(first))
  }

  ghost predicate DistinctKeys(entries: seq<Entry>) {
    forall i, j :: 0 <= i < j < |entries| ==> entries[i].key != entries[j].key
  }

  /** Objects have distinct own keys, at every depth. */
  ghost predicate WellFormed(value: Value)
    decreases value
  {
    match value
    case Leaf(_) => true
    case Arr(items) => forall i :: 0 <= i < |items| ==> WellFormed(items[i])
    case Obj(entries) => DistinctKeys(entries) && forall i :: 0 <= i < |entries| ==> WellFormed(entries[i].value)
  }

  /** A key survives the way there and back. To snake case first: no underscore stands before a
      lowercase letter, and the snake form is not "__proto__". To camel case first: it has no capital, and
      it is not "__proto__" itself. */
  predicate SafeKey(key: string, first: Convert) {
    match first
    case Snake => !HasHump(key) && key != "_Proto__"
    case Camel => !HasCapital(key) && key != "__proto__"
  }

  ghost predicate SafeKeys(entries: seq<Entry>, first: Convert) {
    forall i :: 0 <= i < |entries| ==> SafeKey(entries[i].key, first)
  }

  /** Every key the converter visits, at any depth, is safe. */
  ghost predicate Safe(value: Value, first: Convert)
    decreases value
  {
    match value
    case Leaf(_) => true
    case Arr(items) => forall i :: 0 <= i < |items| ==> Safe(items[i], first)
    case Obj(entries) =>
      IsPlain(entries) ==>
        SafeKeys(entries, first) && forall i :: 0 <= i < |entries| ==> Safe(entries[i].value, first)
  }

  lemma KeySurvivesIff(k: string, first: Convert)
    ensures SafeKey(k, first)
       <==> Apply(Other(first), Apply(first, k)) == k && Apply(first, k) != "__proto__" && k != "__proto__"
  {
    ProtoHasHump();
    if first == Snake {
      CamelRoundTripIff(k);
      if !HasHump(k) {
        ProtoKey(k);
      }
    } else {
      SnakeRoundTripIff(k);
      CamelHasNoHump(k);
    }
  }

  lemma ProtoHasHump()
    ensures HasHump("__proto__")
  {
    assert "__proto__"[1] == '_' && IsLower("__proto__"[2]);
  }

  lemma ProtoKey(k: string)
    requires !HasHump(k)
    ensures ToSnake(k) == "__proto__" <==> k == "_Proto__"
  {
    CamelUndoesSnake(k);
    if ToSnake(k) == "__proto__" {
      CamelOfProto();
    }
    if k == "_Proto__" {
      SnakeOfProto();
    }
  }

  lemma CamelSteps(c: char, s: string)
    ensures !StartsHump([c] + s) ==> ToCamel([c] + s) == [c] + ToCamel(s)
    ensures IsLower(c) ==> ToCamel(['_', c] + s) == [ToUpper(c)] + ToCamel(s)
  {
    assert ([c] + s)[1..] == s && (['_', c] + s)[2..] == s;
  }

  lemma TailHasNoHump()
    ensures !HasHump("roto__") && !HasCapital("roto__")
  {
  }

  lemma CamelOfProto()
    ensures ToCamel("__proto__") == "_Proto__"
  {
    hide ToCamel, HasHump, HasCapital;
    TailHasNoHump();
    var tail := "roto__";
    HumplessIsKept(tail);
    CamelOfDoubleUnderscore('p', tail);
    assert ['_', '_', 'p'] + tail == "__proto__";
    assert ['_', 'P'] + tail == "_Proto__";
  }

  lemma CamelOfDoubleUnderscore(c: char, s: string)
    requires IsLower(c)
    ensures ToCamel(['_', '_', c] + s) == ['_', ToUpper(c)] + ToCamel(s)
  {
    var inner := ['_', c] + s;
    CamelSteps(c, s);
    CamelSteps('_', inner);
    hide ToCamel;
    assert ['_', '_', c] + s == ['_'] + inner;
  }

  lemma SnakeSteps(c: char, s: string)
    ensures ToSnake([c] + s) == (if IsUpper(c) then ['_', ToLower(c)] else [c]) + ToSnake(s)
  {
    assert ([c] + s)[1..] == s;
  }

  lemma SnakeOfProto()
    ensures ToSnake("_Proto__") == "__proto__"
  {
    hide ToSnake, HasHump, HasCapital;
    TailHasNoHump();
    var tail := "roto__";
    CapitallessIsKept(tail);
    SnakeSteps('P', tail);
    SnakeSteps('_', ['P'] + tail);
    assert ['_'] + (['P'] + tail) == "_Proto__";
    assert ['_'] + (['_', 'p'] + tail) == "__proto__";
  }

  lemma {:induction false} HumplessIsKept(s: string)
    requires !HasHump(s)
    ensures ToCamel(s) == s
  {
    if s != "" {
      assert forall i :: 0 <= i < |s[1..]| ==> s[1..][i] == s[i + 1];
      HumplessIsKept(s[1..]);
      assert s == [s[0]] + s[1..];
    }
  }

  lemma {:induction false} CapitallessIsKept(s: string)
    requires !HasCapital(s)
    ensures ToSnake(s) == s
  {
    if s != "" {
      assert forall i :: 0 <= i < |s[1..]| ==> s[1..][i] == s[i + 1];
      CapitallessIsKept(s[1..]);
      assert s == [s[0]] + s[1..];
    }
  }

  // ----- No key is lost to a collision -----

  /** Where the converted keys are distinct and none is "__proto__", the loop is a map. */
  lemma {:induction false} LoopIsMap(entries: seq<Entry>, convert: Convert)
    requires forall i :: 0 <= i < |entries| ==> Apply(convert, entries[i].key) != "__proto__"
    requires forall i, j :: 0 <= i < j < |entries| ==> Apply(convert, entries[i].key) != Apply(convert, entries[j].key)
    ensures |TransformEntries(entries, convert)| == |entries|
    ensures forall i :: 0 <= i < |entries| ==>
              TransformEntries(entries, convert)[i]
                == Entry(Apply(convert, entries[i].key), TransformKeys(entries[i].value, convert))
  {
    hide Apply, TransformKeys;
    if entries != [] {
      LoopIsMap(entries[..|entries| - 1], convert);
    }
  }

  lemma {:induction false} LoopNeverGrows(entries: seq<Entry>, convert: Convert)
    ensures |TransformEntries(entries, convert)| <= |entries|
  {
    hide Apply, TransformKeys;
    if entries != [] {
      LoopNeverGrows(entries[..|entries| - 1], convert);
    }
  }

  lemma {:induction false} ProtoKeyIsLost(entries: seq<Entry>, convert: Convert, i: nat)
    requires i < |entries| && Apply(convert, entries[i].key) == "__proto__"
    ensures |TransformEntries(entries, convert)| < |entries|
  {
    hide Apply, TransformKeys;
    var n := |entries| - 1;
    if i < n {
      ProtoKeyIsLost(entries[..n], convert, i);
    } else {
      LoopNeverGrows(entries[..n], convert);
    }
  }

  ghost predicate IsImage(key: string, entries: seq<Entry>, convert: Convert) {
    exists j :: 0 <= j < |entries| && key == Apply(convert, entries[j].key)
  }

  lemma {:induction false} LoopKeysAreImages(entries: seq<Entry>, convert: Convert, i: nat)
    requires i < |TransformEntries(entries, convert)|
    ensures IsImage(TransformEntries(entries, convert)[i].key, entries, convert)
  {
    hide Apply, TransformKeys;
    var n := |entries| - 1;
    var before, out := TransformEntries(entries[..n], convert), TransformEntries(entries, convert);
    if i < |before| && out[i].key == before[i].key {
      LoopKeysAreImages(entries[..n], convert, i);
      var j :| 0 <= j < n && before[i].key == Apply(convert, entries[..n][j].key);
      assert out[i].key == Apply(convert, entries[j].key);
    } else {
      assert out[i].key == Apply(convert, entries[n].key);
    }
  }

  lemma {:induction false} CapitalLeavesUnderscore(k: string)
    ensures HasCapital(k) ==> '_' in ToSnake(k)
  {
    if k != "" && !IsUpper(k[0]) {
      assert forall i :: 0 < i < |k| ==> k[i] == k[1..][i - 1];
      CapitalLeavesUnderscore(k[1..]);
    }
  }

  /** The snake form of a plain object is plain: only "constructor" itself becomes "constructor". */
  lemma SnakeKeepsPlain(entries: seq<Entry>)
    requires IsPlain(entries)
    ensures IsPlain(TransformEntries(entries, Snake))
  {
    hide TransformEntries;
    var out := TransformEntries(entries, Snake);
    if !IsPlain(out) {
      var i :| 0 <= i < |out| && out[i].key == "constructor";
      LoopKeysAreImages(entries, Snake, i);
      var j :| 0 <= j < |entries| && out[i].key == Apply(Snake, entries[j].key);
      CapitalLeavesUnderscore(entries[j].key);
      CapitallessIsKept(entries[j].key);
    }
  }

  lemma {:induction false} HumpLeavesCapital(k: string)
    ensures HasHump(k) ==> HasCapital(ToCamel(k))
  {
    if k != "" {
      if StartsHump(k) {
        assert IsUpper(ToCamel(k)[0]);
      } else {
        HumpLeavesCapital(k[1..]);
        assert ToCamel(k)[1..] == ToCamel(k[1..]);
        assert forall i :: 0 < i < |k| ==> k[i] == k[1..][i - 1];
      }
    }
  }

  /** The camel form of a plain object is plain as well. */
  lemma CamelKeepsPlain(entries: seq<Entry>)
    requires IsPlain(entries)
    ensures IsPlain(TransformEntries(entries, Camel))
  {
    hide TransformEntries;
    var out := TransformEntries(entries, Camel);
    if !IsPlain(out) {
      var i :| 0 <= i < |out| && out[i].key == "constructor";
      LoopKeysAreImages(entries, Camel, i);
      var j :| 0 <= j < |entries| && out[i].key == Apply(Camel, entries[j].key);
      HumpLeavesCapital(entries[j].key);
      HumplessIsKept(entries[j].key);
    }
  }

  lemma ConvertKeepsPlain(entries: seq<Entry>, convert: Convert)
    requires IsPlain(entries)
    ensures IsPlain(TransformEntries(entries, convert))
  {
    if convert == Snake {
      SnakeKeepsPlain(entries);
    } else {
      CamelKeepsPlain(entries);
    }
  }

  lemma {:induction false} LoopMakesNoProto(entries: seq<Entry>, convert: Convert)
    ensures !HasKey(TransformEntries(entries, convert), "__proto__")
  {
    hide Apply, TransformKeys;
    if entries != [] {
      LoopMakesNoProto(entries[..|entries| - 1], convert);
    }
  }

  lemma {:induction false} LoopHasImage(entries: seq<Entry>, convert: Convert, i: nat)
    requires i < |entries| && Apply(convert, entries[i].key) != "__proto__"
    ensures HasKey(TransformEntries(entries, convert), Apply(convert, entries[i].key))
  {
    hide Apply, TransformKeys;
    var n := |entries| - 1;
    var before, out := TransformEntries(entries[..n], convert), TransformEntries(entries, convert);
    var key := Apply(convert, entries[i].key);
    if i < n {
      LoopHasImage(entries[..n], convert, i);
      var j :| 0 <= j < |before| && before[j].key == key;
      assert out[j].key == key;
    } else {
      assert out[IndexOf(before, key)].key == key;
    }
  }

  lemma {:induction false} CollisionIsLost(entries: seq<Entry>, convert: Convert, i: nat, j: nat)
    requires i < j < |entries| && Apply(convert, entries[i].key) == Apply(convert, entries[j].key)
    ensures |TransformEntries(entries, convert)| < |entries|
  {
    hide Apply, TransformKeys;
    var n := |entries| - 1;
    if Apply(convert, entries[i].key) == "__proto__" {
      ProtoKeyIsLost(entries, convert, i);
    } else if j < n {
      CollisionIsLost(entries[..n], convert, i, j);
    } else {
      LoopNeverGrows(entries[..n], convert);
      LoopHasImage(entries[..n], convert, i);
      hide HasKey;
    }
  }

  /** One conversion loses no entry of a plain object iff no two keys convert alike and none converts to
      "__proto__". */
  lemma NothingLostIff(entries: seq<Entry>, convert: Convert)
    ensures |TransformEntries(entries, convert)| == |entries| <==>
            (forall i :: 0 <= i < |entries| ==> Apply(convert, entries[i].key) != "__proto__") &&
            (forall i, j :: 0 <= i < j < |entries| ==>
               Apply(convert, entries[i].key) != Apply(convert, entries[j].key))
  {
    hide Apply, TransformEntries;
    if i :| 0 <= i < |entries| && Apply(convert, entries[i].key) == "__proto__" {
      ProtoKeyIsLost(entries, convert, i);
    } else if i: nat, j: nat :| i < j < |entries| && Apply(convert, entries[i].key) == Apply(convert, entries[j].key) {
      CollisionIsLost(entries, convert, i, j);
    } else {
      LoopIsMap(entries, convert);
    }
  }

  // ----- There and back on whole values -----

  lemma SafeEntriesRoundTrip(entries: seq<Entry>, first: Convert)
    requires DistinctKeys(entries) && IsPlain(entries) && SafeKeys(entries, first)
    ensures var back := TransformEntries(TransformEntries(entries, first), Other(first));
            |back| == |entries| &&
            forall i :: 0 <= i < |entries| ==> back[i] == Entry(entries[i].key, RoundTrip(entries[i].value, first))
  {
    forall i | 0 <= i < |entries|
      ensures Apply(Other(first), Apply(first, entries[i].key)) == entries[i].key != "__proto__" &&
              Apply(first, entries[i].key) != "__proto__"
    {
      KeySurvivesIff(entries[i].key, first);
    }
    hide Apply, Other, TransformEntries, TransformKeys, IsPlain;
    LoopIsMap(entries, first);
    LoopIsMap(TransformEntries(entries, first), Other(first));
  }

  lemma UnsafeEntriesChange(entries: seq<Entry>, first: Convert)
    requires IsPlain(entries) && !SafeKeys(entries, first)
    ensures TransformEntries(TransformEntries(entries, first), Other(first)) != entries
  {
    hide TransformEntries, IsPlain;
    var there := TransformEntries(entries, first);
    var i :| 0 <= i < |entries| && !SafeKey(entries[i].key, first);
    if TransformEntries(there, Other(first)) == entries {
      LoopKeysAreImages(there, Other(first), i);
      var j :| 0 <= j < |there| && entries[i].key == Apply(Other(first), there[j].key);
      LoopMakesNoProto(there, Other(first));
      CamelHasNoHump(there[j].key);
      SnakeHasNoCapital(there[j].key);
      hide ToCamel, ToSnake, HasHump, HasCapital;
      SnakeOfProto();
      if first == Snake && entries[i].key == "_Proto__" {
        ProtoKeyIsLost(entries, Snake, i);
        LoopNeverGrows(there, Camel);
      }
    }
  }

  /** There and back is the identity on a whole nested value, with no key lost or merged, iff every key it
      visits is safe in that direction. */
  lemma {:induction false} RoundTripIff(value: Value, first: Convert)
    requires WellFormed(value)
    ensures RoundTrip(value, first) == value <==> Safe(value, first)
    decreases value
  {
    match value
    case Leaf(_) =>
    case Arr(items) =>
      ItemsAt(items, first);
      forall i | 0 <= i < |items|
        ensures RoundTrip(items[i], first) == items[i] <==> Safe(items[i], first)
      {
        RoundTripIff(items[i], first);
      }
    case Obj(entries) =>
      if IsPlain(entries) {
        ConvertKeepsPlain(entries, first);
        assert RoundTrip(value, first) == Obj(TransformEntries(TransformEntries(entries, first), Other(first)));
        hide TransformEntries, TransformKeys, SafeKeys;
        if SafeKeys(entries, first) {
          SafeEntriesRoundTrip(entries, first);
          forall i | 0 <= i < |entries|
            ensures RoundTrip(entries[i].value, first) == entries[i].value <==> Safe(entries[i].value, first)
          {
            RoundTripIff(entries[i].value, first);
          }
          SameEntriesIff(TransformEntries(TransformEntries(entries, first), Other(first)), entries);
        } else {
          UnsafeEntriesChange(entries, first);
        }
      }
  }

  /** The response half: camel -> snake -> camel is the identity iff every key visited has no underscore
      before a lowercase letter and is not "_Proto__". */
  lemma ThereAndBackIff(value: Value)
    requires WellFormed(value)
    ensures TransformKeys(TransformKeys(value, Snake), Camel) == value <==> Safe(value, Snake)
  {
    RoundTripIff(value, Snake);
  }

  /** The request half: snake -> camel -> snake is the identity iff every key visited has no capital and is
      not "__proto__". */
  lemma BackAndThereIff(value: Value)
    requires WellFormed(value)
    ensures TransformKeys(TransformKeys(value, Camel), Snake) == value <==> Safe(value, Camel)
  {
    RoundTripIff(value, Camel);
  }

  lemma SameEntriesIff(a: seq<Entry>, b: seq<Entry>)
    requires |a| == |b| && forall i :: 0 <= i < |a| ==> a[i].key == b[i].key
    ensures a == b <==> forall i :: 0 <= i < |b| ==> a[i].value == b[i].value
  {
  }

  lemma ItemsAt(items: seq<Value>, first: Convert)
    ensures var back := TransformItems(TransformItems(items, first), Other(first));
            (forall i :: 0 <= i < |items| ==> back[i] == RoundTrip(items[i], first)) &&
            (back == items <==> forall i :: 0 <= i < |items| ==> RoundTrip(items[i], first) == items[i])
  {
    hide TransformItems, TransformKeys, Other;
    ItemsMapped(items, first);
    ItemsMapped(TransformItems(items, first), Other(first));
    var back := TransformItems(TransformItems(items, first), Other(first));
    if forall i :: 0 <= i < |items| ==> RoundTrip(items[i], first) == items[i] {
      assert back == items;
    }
  }

  lemma {:induction false} ItemsMapped(items: seq<Value>, convert: Convert)
    ensures forall i :: 0 <= i < |items| ==> TransformItems(items, convert)[i] == TransformKeys(items[i], convert)
  {
    if items != [] {
      ItemsMapped(items[..|items| - 1], convert);
    }
  }
}
