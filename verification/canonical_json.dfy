/** canonicalJson, the printer behind every signature (packages/webhook-spec/src/index.ts, and the same
    branches in apps/rgs-server/src/routes/rounds.ts). Its text determines, and is determined by, what
    the value means: a document whose objects are unordered maps. */
module CanonicalJson {
  import opened JsonText
  import DecimalText = Text

  /** The JavaScript values that reach the printer. A finite number is held as the numeral JavaScript
      prints for it, a Date as its ISO text, an object as its own enumerable properties in order. */
  datatype Js =
    | Undefined
    | Null
    | Bool(b: bool)
    | Num(lexeme: Text)
    | NonFinite
    | BigInt(n: int)
    | Date(iso: Text)
    | Str(s: Text)
    | Arr(items: seq<Js>)
    | Obj(fields: seq<Field>)

  datatype Field = Field(key: Text, value: Js)

  ghost predicate OneValuePerKey(fields: seq<Field>) {
    forall f, g :: f in fields && g in fields && f.key == g.key ==> f == g
  }

  ghost predicate DistinctKeys(fields: seq<Field>) {
    forall i, j :: 0 <= i < j < |fields| ==> fields[i].key != fields[j].key
  }

  /** What JavaScript guarantees of such values. */
  ghost predicate WellFormed(v: Js) {
    match v
    case Num(lexeme) => IsNumber(lexeme)
    case Date(iso) => forall i :: 0 <= i < |iso| ==> IsPlain(iso[i])
    case Arr(items) => forall item :: item in items ==> WellFormed(item)
    case Obj(fields) => DistinctKeys(fields) && forall f :: f in fields ==> WellFormed(f.value)
    case _ => true
  }

  // ----- The printer -----

  /** a < b on strings: by code units, a proper prefix first. */
  predicate Less(a: Text, b: Text) {
    b != [] && (a == [] || a[0] < b[0] || (a[0] == b[0] && Less(a[1..], b[1..])))
  }

  /** filter(([, val]) => val !== undefined) */
  function Present(fields: seq<Field>): (r: seq<Field>)
    ensures forall f :: f in r <==> f in fields && f.value != Undefined
  {
    if fields == [] then []
    else (if fields[0].value == Undefined then [] else [fields[0]]) + Present(fields[1..])
  }

  function Insert(f: Field, sorted: seq<Field>): (r: seq<Field>)
    ensures multiset(r) == multiset(sorted)[f := multiset(sorted)[f] + 1]
  {
    if sorted == [] then [f]
    else if Less(sorted[0].key, f.key) then
      assert sorted == [sorted[0]] + sorted[1..];
      [sorted[0]] + Insert(f, sorted[1..])
    else [f] + sorted
  }

  /** sort by key: the stable order. */
  function SortByKey(fields: seq<Field>): (r: seq<Field>)
    ensures multiset(r) == multiset(fields)
    ensures forall f :: f in r <==> f in fields
  {
    if fields == [] then []
    else
      assert fields == [fields[0]] + fields[1..];
      var r := Insert(fields[0], SortByKey(fields[1..]));
      assert forall f :: f in r <==> f in multiset(r);
      r
  }

  function JoinTexts(parts: seq<Text>): Text {
    if parts == [] then []
    else if |parts| == 1 then parts[0]
    else parts[0] + [COMMA] + JoinTexts(parts[1..])
  }

  /** n.toString() */
  function BigIntText(n: int): (t: Text)
    ensures forall i :: 0 <= i < |t| ==> IsPlain(t[i])
  {
    var digits := DecimalText.DecText(if n < 0 then -n else n);
    var units: Text := seq(|digits|, i requires 0 <= i < |digits| => digits[i] as int);
    if n < 0 then [45] + units else units
  }

  function Print(v: Js): Text {
    match v
    case Undefined => NULL
    case Null => NULL
    case BigInt(n) => [QUOTE] + BigIntText(n) + [QUOTE]
    case Date(iso) => [QUOTE] + iso + [QUOTE]
    case Arr(items) =>
      [OPEN_BRACKET] + JoinTexts(seq(|items|, i requires 0 <= i < |items| => Print(items[i]))) + [CLOSE_BRACKET]
    case Obj(fields) =>
      var entries := SortByKey(Present(fields));
      [OPEN_BRACE] +
      JoinTexts(seq(|entries|, i requires 0 <= i < |entries| =>
        assert entries[i] in fields;
        Quoted(entries[i].key) + [COLON] + Print(entries[i].value))) +
      [CLOSE_BRACE]
    case Bool(b) => if b then TRUE else FALSE
    case Num(lexeme) => lexeme
    case NonFinite => NULL
    case Str(s) => Quoted(s)
  }

  // ----- What a value means -----

  /** The keys an object prints. */
  ghost function KeysOf(fields: seq<Field>): set<Text> {
    set f | f in fields && f.value != Undefined :: f.key
  }

  ghost function ValueAt(fields: seq<Field>, key: Text): (v: Js)
    requires key in KeysOf(fields)
    ensures v != Undefined && Field(key, v) in fields
  {
    var f :| f in fields && f.value != Undefined && f.key == key;
    f.value
  }

  /** An object means the map from its keys to what their values mean: property order and undefined
      properties do not count. */
  ghost function Meaning(v: Js): Doc {
    match v
    case Undefined => Nil
    case Null => Nil
    case NonFinite => Nil
    case Bool(b) => Flag(b)
    case Num(lexeme) => Number(lexeme)
    case BigInt(n) => String(BigIntText(n))
    case Date(iso) => String(iso)
    case Str(s) => String(s)
    case Arr(items) => List(seq(|items|, i requires 0 <= i < |items| => Meaning(items[i])))
    case Obj(fields) =>
      Object(map key | key in KeysOf(fields) ::
        var value := ValueAt(fields, key);
        assert Field(key, value) in fields;
        Meaning(value))
  }

  ghost function ItemDocs(items: seq<Js>): seq<Doc> {
    seq(|items|, i requires 0 <= i < |items| => Meaning(items[i]))
  }

  ghost function MemberDocs(fields: seq<Field>): map<Text, Doc> {
    map key | key in KeysOf(fields) :: Meaning(ValueAt(fields, key))
  }

  lemma MeaningByParts(v: Js)
    ensures v.Arr? ==> Meaning(v) == List(ItemDocs(v.items))
    ensures v.Obj? ==> Meaning(v) == Object(MemberDocs(v.fields))
  {
    if v.Obj? {
      assert Meaning(v).members == MemberDocs(v.fields);
    }
  }

  lemma MemberDocAt(fields: seq<Field>, f: Field)
    requires OneValuePerKey(fields) && f in fields && f.value != Undefined
    ensures f.key in MemberDocs(fields) && MemberDocs(fields)[f.key] == Meaning(f.value)
  {
    hide Meaning;
    assert f.key in KeysOf(fields);
    assert Field(f.key, ValueAt(fields, f.key)) == f;
  }

  /** Objects with the same defined properties mean the same. */
  lemma SameMembers(fields: seq<Field>, other: seq<Field>)
    requires OneValuePerKey(fields) && OneValuePerKey(other)
    requires forall f: Field :: f.value != Undefined ==> (f in fields <==> f in other)
    ensures MemberDocs(fields) == MemberDocs(other)
  {
    assert KeysOf(fields) == KeysOf(other);
    forall key | key in KeysOf(fields)
      ensures MemberDocs(fields)[key] == MemberDocs(other)[key]
    {
      hide Meaning;
      var f := Field(key, ValueAt(fields, key));
      MemberDocAt(fields, f);
      MemberDocAt(other, f);
    }
  }

  // ----- A reader gets the meaning back -----

  function EntryText(f: Field): Text {
    Quoted(f.key) + [COLON] + Print(f.value)
  }

  function EntryTexts(fields: seq<Field>): seq<Text> {
    seq(|fields|, i requires 0 <= i < |fields| => EntryText(fields[i]))
  }

  function ItemTexts(items: seq<Js>): seq<Text> {
    seq(|items|, i requires 0 <= i < |items| => Print(items[i]))
  }

  lemma PrintedArray(items: seq<Js>)
    ensures Print(Arr(items)) == [OPEN_BRACKET] + JoinTexts(ItemTexts(items)) + [CLOSE_BRACKET]
  {
  }

  lemma PrintedObject(fields: seq<Field>)
    ensures Print(Obj(fields)) == [OPEN_BRACE] + JoinTexts(EntryTexts(SortByKey(Present(fields)))) + [CLOSE_BRACE]
  {
    var entries := SortByKey(Present(fields));
    assert EntryTexts(entries) ==
           seq(|entries|, i requires 0 <= i < |entries| => Quoted(entries[i].key) + [COLON] + Print(entries[i].value));
  }

  /** The first unit is neither white space nor a closing bracket, so the reader neither skips
      it nor takes it for the end of an array. */
  lemma PrintStart(v: Js)
    requires WellFormed(v)
    ensures Print(v) != [] && !IsSpaceUnit(Print(v)[0]) && Print(v)[0] != CLOSE_BRACKET
  {
    if v.Num? {
      NumberStart(v.lexeme);
    }
  }

  /** Inside any document the printed value is read whole and denotes what the value means. */
  ghost predicate Reads(v: Js)
    requires WellFormed(v)
  {
    forall rest :: Delimited(rest) ==> ReadValue(Print(v) + rest) == Done(Meaning(v), rest)
  }

  lemma ReadsAt(v: Js, rest: Text)
    requires WellFormed(v) && Reads(v) && Delimited(rest)
    ensures SkipSpace(Print(v) + rest) == Print(v) + rest
    ensures ReadValue(Print(v) + rest) == Done(Meaning(v), rest)
  {
    PrintStart(v);
    hide ReadValue, Print, Meaning;
    assert (Print(v) + rest)[0] == Print(v)[0];
  }

  lemma {:induction false} ReadsItems(items: seq<Js>, rest: Text)
    requires items != [] && forall item :: item in items ==> WellFormed(item) && Reads(item)
    ensures ReadItems(JoinTexts(ItemTexts(items)) + ([CLOSE_BRACKET] + rest)) == Done(ItemDocs(items), rest)
    decreases |items|
  {
    hide ReadValue, Print, Meaning, Reads, WellFormed;
    var close := [CLOSE_BRACKET] + rest;
    var texts := ItemTexts(items);
    if |items| == 1 {
      ReadsAt(items[0], close);
      assert close[1..] == rest;
      assert ItemDocs(items) == [Meaning(items[0])];
    } else {
      var others := JoinTexts(ItemTexts(items[1..])) + close;
      assert texts[1..] == ItemTexts(items[1..]);
      assert JoinTexts(texts) + close == Print(items[0]) + ([COMMA] + others);
      ReadsAt(items[0], [COMMA] + others);
      ReadsItems(items[1..], rest);
      assert ([COMMA] + others)[1..] == others;
      assert ItemDocs(items) == [Meaning(items[0])] + ItemDocs(items[1..]);
    }
  }

  lemma NameReads(key: Text, rest: Text)
    ensures ReadName(Quoted(key) + [COLON] + rest) == Done(key, rest)
  {
    hide ReadString, QuoteUnits;
    var t := Quoted(key) + [COLON] + rest;
    assert t[1..] == QuoteUnits(key) + ([QUOTE] + ([COLON] + rest));
    QuotedReadsBack(key, [COLON] + rest);
    assert ([COLON] + rest)[1..] == rest;
  }

  /** One member read from its printed entry. */
  lemma EntryReads(f: Field, rest: Text)
    requires WellFormed(f.value) && Reads(f.value) && Delimited(rest)
    ensures ReadName(EntryText(f) + rest) == Done(f.key, Print(f.value) + rest)
    ensures SkipSpace(Print(f.value) + rest) == Print(f.value) + rest
    ensures ReadValue(Print(f.value) + rest) == Done(Meaning(f.value), rest)
  {
    hide ReadValue, Print, Meaning, Reads, WellFormed, ReadName, Quoted;
    ReadsAt(f.value, rest);
    NameReads(f.key, Print(f.value) + rest);
    assert EntryText(f) + rest == Quoted(f.key) + [COLON] + (Print(f.value) + rest);
  }

  ghost predicate AllPresent(fields: seq<Field>) {
    forall f :: f in fields ==> f.value != Undefined
  }

  lemma TailIsOne(fields: seq<Field>)
    requires fields != [] && OneValuePerKey(fields) && AllPresent(fields)
    ensures OneValuePerKey(fields[1..]) && AllPresent(fields[1..])
    ensures KeysOf(fields) == {fields[0].key} + KeysOf(fields[1..])
  {
    assert forall f :: f in fields <==> f == fields[0] || f in fields[1..];
  }

  lemma TailDocs(fields: seq<Field>, key: Text)
    requires fields != [] && OneValuePerKey(fields) && AllPresent(fields) && key in KeysOf(fields[1..])
    ensures key in MemberDocs(fields) && key in MemberDocs(fields[1..])
    ensures MemberDocs(fields)[key] == MemberDocs(fields[1..])[key]
  {
    TailIsOne(fields);
    var f := Field(key, ValueAt(fields[1..], key));
    hide KeysOf, OneValuePerKey, AllPresent, MemberDocs;
    MemberDocAt(fields[1..], f);
    MemberDocAt(fields, f);
  }

  lemma MapStep(whole: map<Text, Doc>, key: Text, doc: Doc, rest: map<Text, Doc>)
    requires whole.Keys == {key} + rest.Keys && whole[key] == doc
    requires forall k :: k in rest ==> whole[k] == rest[k]
    ensures whole == map[key := doc] + rest
  {
  }

  lemma MemberDocsStep(fields: seq<Field>)
    requires fields != [] && OneValuePerKey(fields) && AllPresent(fields)
    ensures OneValuePerKey(fields[1..]) && AllPresent(fields[1..])
    ensures MemberDocs(fields) == map[fields[0].key := Meaning(fields[0].value)] + MemberDocs(fields[1..])
  {
    var rest := fields[1..];
    TailIsOne(fields);
    MemberDocAt(fields, fields[0]);
    assert MemberDocs(fields).Keys == KeysOf(fields) && MemberDocs(rest).Keys == KeysOf(rest);
    hide Meaning, OneValuePerKey, AllPresent, KeysOf, MemberDocs;
    forall key | key in KeysOf(rest)
      ensures MemberDocs(fields)[key] == MemberDocs(rest)[key]
    {
      TailDocs(fields, key);
    }
    MapStep(MemberDocs(fields), fields[0].key, Meaning(fields[0].value), MemberDocs(rest));
  }

  lemma {:induction false} ReadsMembers(fields: seq<Field>, rest: Text)
    requires fields != [] && OneValuePerKey(fields) && AllPresent(fields)
    requires forall f :: f in fields ==> WellFormed(f.value) && Reads(f.value)
    ensures ReadMembers(JoinTexts(EntryTexts(fields)) + ([CLOSE_BRACE] + rest)) == Done(MemberDocs(fields), rest)
    decreases |fields|
  {
    hide ReadValue, Print, Meaning, Reads, WellFormed, ReadName, EntryText, ValueAt;
    var close := [CLOSE_BRACE] + rest;
    var texts := EntryTexts(fields);
    MemberDocsStep(fields);
    hide OneValuePerKey, AllPresent;
    if |fields| == 1 {
      EntryReads(fields[0], close);
      assert close[1..] == rest;
      assert MemberDocs(fields[1..]) == map[];
      assert MemberDocs(fields) == map[fields[0].key := Meaning(fields[0].value)];
    } else {
      var others := JoinTexts(EntryTexts(fields[1..])) + close;
      assert texts[1..] == EntryTexts(fields[1..]);
      assert JoinTexts(texts) + close == EntryText(fields[0]) + ([COMMA] + others);
      EntryReads(fields[0], [COMMA] + others);
      ReadsMembers(fields[1..], rest);
      assert ([COMMA] + others)[1..] == others;
    }
  }

  lemma Enclosed(open: CodeUnit, body: Text, close: CodeUnit, rest: Text)
    ensures [open] + body + [close] + rest == [open] + (body + ([close] + rest))
  {
  }

  lemma FirstItemLeads(items: seq<Js>)
    requires items != [] && WellFormed(items[0])
    ensures Print(items[0]) != [] && Print(items[0])[0] != CLOSE_BRACKET && !IsSpaceUnit(Print(items[0])[0])
    ensures JoinTexts(ItemTexts(items)) != [] && JoinTexts(ItemTexts(items))[0] == Print(items[0])[0]
  {
    PrintStart(items[0]);
    hide Print, WellFormed;
  }

  lemma ReadsArray(items: seq<Js>, rest: Text)
    requires forall item :: item in items ==> WellFormed(item) && Reads(item)
    ensures ReadValue(Print(Arr(items)) + rest) == Done(List(ItemDocs(items)), rest)
  {
    PrintedArray(items);
    hide ReadValue, ReadItems, Print, Meaning, Reads, WellFormed;
    var joined := JoinTexts(ItemTexts(items));
    var body := joined + ([CLOSE_BRACKET] + rest);
    if items != [] {
      FirstItemLeads(items);
      ReadsItems(items, rest);
      assert body[0] == joined[0];
    } else {
      assert body == [CLOSE_BRACKET] + rest;
    }
    hide JoinTexts, ItemTexts, ItemDocs;
    ListReads(body, ItemDocs(items), rest);
    Enclosed(OPEN_BRACKET, joined, CLOSE_BRACKET, rest);
  }

  /** The entries in the order they are printed. */
  lemma ReadsEntries(entries: seq<Field>, rest: Text)
    requires OneValuePerKey(entries) && AllPresent(entries)
    requires forall f :: f in entries ==> WellFormed(f.value) && Reads(f.value)
    ensures ReadValue([OPEN_BRACE] + JoinTexts(EntryTexts(entries)) + [CLOSE_BRACE] + rest)
            == Done(Object(MemberDocs(entries)), rest)
  {
    hide ReadValue, ReadMembers, Print, Meaning, Reads, WellFormed, QuoteUnits, OneValuePerKey;
    var joined := JoinTexts(EntryTexts(entries));
    var body := joined + ([CLOSE_BRACE] + rest);
    if entries != [] {
      ReadsMembers(entries, rest);
      assert joined != [] && joined[0] == EntryText(entries[0])[0] == QUOTE;
    } else {
      assert body == [CLOSE_BRACE] + rest;
      assert MemberDocs(entries) == map[];
    }
    hide JoinTexts, EntryTexts, MemberDocs, EntryText;
    ObjectReads(body, MemberDocs(entries), rest);
    Enclosed(OPEN_BRACE, joined, CLOSE_BRACE, rest);
  }

  /** Filtering and sorting change neither the keys nor the meaning. */
  lemma EntriesMean(fields: seq<Field>)
    requires WellFormed(Obj(fields))
    ensures var entries := SortByKey(Present(fields));
            && OneValuePerKey(entries) && AllPresent(entries)
            && (forall f :: f in entries ==> f in fields && WellFormed(f.value))
            && Meaning(Obj(fields)) == Object(MemberDocs(entries))
  {
    var entries := SortByKey(Present(fields));
    assert forall f :: f in entries <==> f in fields && f.value != Undefined;
    hide SortByKey, Present, MemberDocs, Meaning;
    MeaningByParts(Obj(fields));
    SameMembers(fields, entries);
  }

  lemma ReadsAtom(v: Js, rest: Text)
    requires WellFormed(v) && !v.Arr? && !v.Obj? && Delimited(rest)
    ensures ReadValue(Print(v) + rest) == Done(Meaning(v), rest)
  {
    hide ReadValue, QuoteUnits, NumberEnd, BigIntText;
    match v
    case Num(lexeme) => NumberReads(lexeme, rest);
    case Str(s) => StringReads(s, rest);
    case BigInt(n) =>
      PlainQuotes(BigIntText(n));
      StringReads(BigIntText(n), rest);
    case Date(iso) =>
      PlainQuotes(iso);
      StringReads(iso, rest);
    case _ => WordsRead(rest);
  }

  lemma {:induction false} AllRead(v: Js)
    requires WellFormed(v)
    ensures Reads(v)
    decreases v
  {
    forall rest | Delimited(rest)
      ensures ReadValue(Print(v) + rest) == Done(Meaning(v), rest)
    {
      match v
      case Arr(items) =>
        forall item | item in items ensures Reads(item) {
          AllRead(item);
        }
        ReadsArray(items, rest);
        MeaningByParts(v);
      case Obj(fields) =>
        forall f | f in fields ensures Reads(f.value) {
          AllRead(f.value);
        }
        EntriesMean(fields);
        PrintedObject(fields);
        ReadsEntries(SortByKey(Present(fields)), rest);
      case _ =>
        ReadsAtom(v, rest);
    }
  }

  /** Reading the canonical text of any value gives what the value means. */
  lemma ReadUndoesPrint(v: Js)
    requires WellFormed(v)
    ensures Read(Print(v)) == Done(Meaning(v), [])
  {
    AllRead(v);
    ReadsAt(v, []);
    assert Print(v) + [] == Print(v);
  }

  /** And nothing may follow it: one comma or closing bracket more, and the text is refused. */
  lemma NothingMayFollow(v: Js, rest: Text)
    requires WellFormed(v) && rest != [] && Delimited(rest)
    ensures Read(Print(v) + rest) == Failed
  {
    AllRead(v);
    ReadsAt(v, rest);
    hide Print, Meaning, ReadValue, WellFormed;
    assert SkipSpace(rest) == rest;
  }

  // ----- The order of keys -----

  lemma {:induction false} LessIsTotal(a: Text, b: Text)
    ensures a == b || Less(a, b) || Less(b, a)
    ensures !(Less(a, b) && Less(b, a)) && !Less(a, a)
    decreases |a|
  {
    if a != [] {
      LessIsTotal(a[1..], a[1..]);
      if b != [] && a[0] == b[0] {
        LessIsTotal(a[1..], b[1..]);
        assert a == [a[0]] + a[1..] && b == [b[0]] + b[1..];
      }
    }
  }

  lemma {:induction false} LessIsTransitive(a: Text, b: Text, c: Text)
    requires Less(a, b) && Less(b, c)
    ensures Less(a, c)
    decreases |a|
  {
    if a != [] && a[0] == b[0] == c[0] {
      LessIsTransitive(a[1..], b[1..], c[1..]);
    }
  }

  /** a comes before b as JavaScript compares strings: at the first difference a has the smaller code unit, or
      a ends there and b does not. */
  ghost predicate Before(a: Text, b: Text) {
    exists i: nat :: i <= |a| && i <= |b| && a[..i] == b[..i] &&
                     if i == |a| then i < |b| else i < |b| && a[i] < b[i]
  }

  lemma PrefixHead(a: Text, b: Text, i: nat)
    requires 0 < i <= |a| && i <= |b| && a[..i] == b[..i]
    ensures a[0] == b[0]
  {
    assert a[..i][0] == a[0] && b[..i][0] == b[0];
  }

  lemma {:induction false} LessIff(a: Text, b: Text)
    ensures Less(a, b) <==> Before(a, b)
    decreases |a|
  {
    if a != [] && b != [] && a[0] == b[0] {
      LessIff(a[1..], b[1..]);
      if Before(a, b) {
        var i: nat :| i <= |a| && i <= |b| && a[..i] == b[..i] &&
                      if i == |a| then i < |b| else i < |b| && a[i] < b[i];
        assert i > 0;
        assert a[1..][..i - 1] == a[..i][1..] && b[1..][..i - 1] == b[..i][1..];
      }
      if Before(a[1..], b[1..]) {
        var i: nat :| i <= |a[1..]| && i <= |b[1..]| && a[1..][..i] == b[1..][..i] &&
                      if i == |a[1..]| then i < |b[1..]| else i < |b[1..]| && a[1..][i] < b[1..][i];
        assert a[..i + 1] == [a[0]] + a[1..][..i] && b[..i + 1] == [b[0]] + b[1..][..i];
      }
    } else {
      if Before(a, b) {
        var i: nat :| i <= |a| && i <= |b| && a[..i] == b[..i] &&
                      if i == |a| then i < |b| else i < |b| && a[i] < b[i];
        if i > 0 {
          PrefixHead(a, b, i);
        }
      }
      if Less(a, b) {
        assert a[..0] == b[..0];
      }
    }
  }

  ghost predicate Ascending(fields: seq<Field>) {
    forall i, j :: 0 <= i < j < |fields| ==> Less(fields[i].key, fields[j].key)
  }

  ghost predicate NoKey(fields: seq<Field>, key: Text) {
    forall f :: f in fields ==> f.key != key
  }

  lemma ConsAscends(head: Field, tail: seq<Field>)
    requires Ascending(tail) && forall f :: f in tail ==> Less(head.key, f.key)
    ensures Ascending([head] + tail)
  {
    hide Less;
    var all := [head] + tail;
    forall i, j | 0 <= i < j < |all|
      ensures Less(all[i].key, all[j].key)
    {
      assert all[j] == tail[j - 1] && tail[j - 1] in tail;
      assert i > 0 ==> all[i] == tail[i - 1];
    }
  }

  lemma {:induction false} InsertKeepsOrder(f: Field, sorted: seq<Field>)
    requires Ascending(sorted) && NoKey(sorted, f.key)
    ensures Ascending(Insert(f, sorted))
    ensures forall g :: g in Insert(f, sorted) <==> g == f || g in sorted
    decreases |sorted|
  {
    hide Less;
    if sorted != [] {
      var head, tail := sorted[0], sorted[1..];
      assert sorted == [head] + tail;
      assert forall g :: g in tail ==> Less(head.key, g.key);
      LessIsTotal(head.key, f.key);
      if Less(head.key, f.key) {
        InsertKeepsOrder(f, tail);
        hide Ascending;
        ConsAscends(head, Insert(f, tail));
      } else {
        forall g | g in sorted
          ensures Less(f.key, g.key)
        {
          if g != head {
            LessIsTransitive(f.key, head.key, g.key);
          }
        }
        hide Ascending;
        ConsAscends(f, sorted);
      }
    }
  }

  lemma {:induction false} SortKeepsOrder(fields: seq<Field>)
    requires DistinctKeys(fields)
    ensures Ascending(SortByKey(fields))
    decreases |fields|
  {
    if fields != [] {
      SortKeepsOrder(fields[1..]);
      hide Less, Insert;
      InsertKeepsOrder(fields[0], SortByKey(fields[1..]));
    }
  }

  lemma {:induction false} PresentStaysDistinct(fields: seq<Field>)
    requires DistinctKeys(fields)
    ensures DistinctKeys(Present(fields))
    decreases |fields|
  {
    if fields != [] {
      PresentStaysDistinct(fields[1..]);
      var rest := Present(fields[1..]);
      forall i | 0 <= i < |rest|
        ensures rest[i].key != fields[0].key
      {
        assert rest[i] in rest;
      }
    }
  }

  /** An object prints its defined properties, each once, in the order of their keys' code units. */
  lemma KeysPrintInOrder(fields: seq<Field>)
    requires DistinctKeys(fields)
    ensures var entries := SortByKey(Present(fields));
            Print(Obj(fields)) == [OPEN_BRACE] + JoinTexts(EntryTexts(entries)) + [CLOSE_BRACE] &&
            (forall f :: f in entries <==> f in fields && f.value != Undefined) &&
            forall i, j :: 0 <= i < j < |entries| ==> Before(entries[i].key, entries[j].key)
  {
    var entries := SortByKey(Present(fields));
    PrintedObject(fields);
    PresentStaysDistinct(fields);
    SortKeepsOrder(Present(fields));
    hide Print, SortByKey, Present, Less, Before, JoinTexts, DistinctKeys;
    forall i, j | 0 <= i < j < |entries|
      ensures Before(entries[i].key, entries[j].key)
    {
      LessIff(entries[i].key, entries[j].key);
    }
  }

  // ----- No white space -----

  lemma {:induction false} ScanJoin(parts: seq<Text>)
    requires forall part :: part in parts ==> Scan(Outside, part) == Outside
    ensures Scan(Outside, JoinTexts(parts)) == Outside
  {
    hide Scan;
    if parts == [] {
      ScanStays(Outside, []);
    } else if |parts| > 1 {
      ScanJoin(parts[1..]);
      ScanConcat(Outside, parts[0] + [COMMA], JoinTexts(parts[1..]));
      ScanConcat(Outside, parts[0], [COMMA]);
      ScanOne(Outside, COMMA);
    }
  }

  lemma ScanBetween(open: CodeUnit, body: Text, close: CodeUnit)
    requires Scan(Outside, body) == Outside
    requires open in {OPEN_BRACKET, OPEN_BRACE} && close in {CLOSE_BRACKET, CLOSE_BRACE}
    ensures Scan(Outside, [open] + body + [close]) == Outside
  {
    hide Scan;
    ScanConcat(Outside, [open] + body, [close]);
    ScanConcat(Outside, [open], body);
    ScanOne(Outside, open);
    ScanOne(Outside, close);
  }

  lemma ScanArray(items: seq<Js>)
    requires forall item :: item in items ==> Scan(Outside, Print(item)) == Outside
    ensures Scan(Outside, Print(Arr(items))) == Outside
  {
    PrintedArray(items);
    hide Print, JoinTexts, Scan;
    ScanJoin(ItemTexts(items));
    ScanBetween(OPEN_BRACKET, JoinTexts(ItemTexts(items)), CLOSE_BRACKET);
  }

  lemma ScanObject(fields: seq<Field>)
    requires forall f :: f in fields ==> Scan(Outside, Print(f.value)) == Outside
    ensures Scan(Outside, Print(Obj(fields))) == Outside
  {
    var entries := SortByKey(Present(fields));
    PrintedObject(fields);
    assert forall f :: f in entries ==> f in fields;
    hide Print, JoinTexts, Scan, EntryText, Present, SortByKey;
    forall i | 0 <= i < |entries|
      ensures Scan(Outside, EntryText(entries[i])) == Outside
    {
      assert entries[i] in entries;
      ScanEntry(entries[i]);
    }
    ScanJoin(EntryTexts(entries));
    ScanBetween(OPEN_BRACE, JoinTexts(EntryTexts(entries)), CLOSE_BRACE);
  }

  /** The canonical text holds no white space outside strings. */
  lemma {:induction false} NoWhiteSpace(v: Js)
    requires WellFormed(v)
    ensures Scan(Outside, Print(v)) == Outside
    decreases v
  {
    hide Print, Scan;
    match v
    case Arr(items) =>
      forall item | item in items ensures Scan(Outside, Print(item)) == Outside {
        NoWhiteSpace(item);
      }
      ScanArray(items);
    case Obj(fields) =>
      forall f | f in fields ensures Scan(Outside, Print(f.value)) == Outside {
        NoWhiteSpace(f.value);
      }
      ScanObject(fields);
    case _ =>
      ScanAtom(v);
  }

  lemma ScanEntry(f: Field)
    requires Scan(Outside, Print(f.value)) == Outside
    ensures Scan(Outside, EntryText(f)) == Outside
  {
    hide Scan, Print, Quoted;
    ScanConcat(Outside, Quoted(f.key) + [COLON], Print(f.value));
    ScanConcat(Outside, Quoted(f.key), [COLON]);
    ScanQuoted(f.key);
    ScanOne(Outside, COLON);
  }

  lemma ScanAtom(v: Js)
    requires WellFormed(v) && !v.Arr? && !v.Obj?
    ensures Scan(Outside, Print(v)) == Outside
  {
    hide Scan, Quoted, QuoteUnits, BigIntText, NumberEnd, After;
    ScanWords();
    match v
    case Num(lexeme) => ScanNumber(lexeme);
    case Str(s) => ScanQuoted(s);
    case BigInt(n) =>
      ScanPlain(BigIntText(n));
    case Date(iso) =>
      ScanPlain(iso);
    case _ =>
  }

  lemma ScanPlain(s: Text)
    requires forall i :: 0 <= i < |s| ==> IsPlain(s[i])
    ensures Scan(Outside, [QUOTE] + s + [QUOTE]) == Outside
  {
    PlainQuotes(s);
    ScanQuoted(s);
  }

  lemma ScanWords()
    ensures Scan(Outside, NULL) == Scan(Outside, TRUE) == Scan(Outside, FALSE) == Outside
  {
    hide Scan;
    ScanStays(Outside, NULL);
    ScanStays(Outside, TRUE);
    ScanStays(Outside, FALSE);
  }

  // ----- Big integers -----

  function Chars(t: Text): string {
    seq(|t|, i requires 0 <= i < |t| => if 0 <= t[i] < 128 then t[i] as char else ' ')
  }

  /** The text of a bigint is its decimal numeral: a minus where it is negative, then digits without a leading
      zero, of its absolute value. */
  lemma BigIntTextReads(n: int)
    ensures var digits := Chars(if n < 0 then BigIntText(n)[1..] else BigIntText(n));
            (n < 0 ==> BigIntText(n)[0] == 45) && DecimalText.AllDigits(digits) && digits != "" &&
            DecimalText.DecValue(digits) == (if n < 0 then -n else n) && (|digits| > 1 ==> digits[0] != '0')
  {
    var digits := DecimalText.DecText(if n < 0 then -n else n);
    DecimalText.ValueOfDecText(if n < 0 then -n else n);
    DecimalText.NoLeadingZero(if n < 0 then -n else n);
    assert Chars(if n < 0 then BigIntText(n)[1..] else BigIntText(n)) == digits;
  }

  // ----- The text depends on the meaning alone -----

  /** Two ascending lists with the same keys start with the same one: the least. */
  lemma SameHead(fs: seq<Field>, gs: seq<Field>)
    requires fs != [] && Ascending(fs) && Ascending(gs) && AllPresent(fs) && AllPresent(gs)
    requires KeysOf(fs) == KeysOf(gs)
    ensures gs != [] && fs[0].key == gs[0].key
  {
    hide Less;
    assert fs[0].key in KeysOf(fs);
    var j :| 0 <= j < |gs| && gs[j].key == fs[0].key;
    assert gs[0].key in KeysOf(gs);
    var i :| 0 <= i < |fs| && fs[i].key == gs[0].key;
    LessIsTotal(fs[0].key, gs[0].key);
  }

  lemma AscendingMeansOne(fs: seq<Field>)
    requires fs != [] && Ascending(fs)
    ensures OneValuePerKey(fs) && Ascending(fs[1..]) && NoKey(fs[1..], fs[0].key)
  {
    hide Less;
    forall i, j | 0 <= i < |fs| && 0 <= j < |fs| && fs[i].key == fs[j].key
      ensures i == j
    {
      LessIsTotal(fs[i].key, fs[j].key);
    }
  }

  lemma MapTail(key: Text, doc: Doc, rest: map<Text, Doc>)
    requires key !in rest
    ensures rest == (map[key := doc] + rest) - {key}
  {
  }

  lemma AscendingTail(fs: seq<Field>)
    requires fs != [] && Ascending(fs) && AllPresent(fs)
    ensures Ascending(fs[1..]) && AllPresent(fs[1..])
    ensures fs[0].key in MemberDocs(fs) && MemberDocs(fs)[fs[0].key] == Meaning(fs[0].value)
    ensures MemberDocs(fs[1..]) == MemberDocs(fs) - {fs[0].key}
  {
    AscendingMeansOne(fs);
    hide Less, Meaning, Ascending, OneValuePerKey;
    assert fs[0].key !in KeysOf(fs[1..]);
    assert fs[0].key !in MemberDocs(fs[1..]);
    hide MemberDocs, KeysOf, NoKey;
    MemberDocsStep(fs);
    MemberDocAt(fs, fs[0]);
    MapTail(fs[0].key, Meaning(fs[0].value), MemberDocs(fs[1..]));
  }

  /** Ascending lists of the same members agree entry by entry. */
  lemma {:induction false} SameEntries(fs: seq<Field>, gs: seq<Field>)
    requires Ascending(fs) && Ascending(gs) && AllPresent(fs) && AllPresent(gs)
    requires MemberDocs(fs) == MemberDocs(gs)
    ensures |fs| == |gs|
    ensures forall i :: 0 <= i < |fs| ==> fs[i].key == gs[i].key && Meaning(fs[i].value) == Meaning(gs[i].value)
    decreases |fs|
  {
    hide Meaning, Less;
    assert KeysOf(fs) == MemberDocs(fs).Keys && KeysOf(gs) == MemberDocs(gs).Keys;
    hide Ascending, MemberDocs;
    if fs != [] {
      SameHead(fs, gs);
      hide AllPresent, KeysOf;
      AscendingTail(fs);
      AscendingTail(gs);
      SameEntries(fs[1..], gs[1..]);
    } else if gs != [] {
      SameHead(gs, fs);
    }
  }

  /** Whatever means a string prints as that string, quoted. */
  lemma AtomText(v: Js)
    requires WellFormed(v) && !v.Arr? && !v.Obj?
    ensures match Meaning(v)
            case Nil => Print(v) == NULL
            case Flag(b) => Print(v) == if b then TRUE else FALSE
            case Number(lexeme) => Print(v) == lexeme
            case String(s) => Print(v) == Quoted(s)
            case _ => false
  {
    hide QuoteUnits, BigIntText;
    match v
    case BigInt(n) => PlainQuotes(BigIntText(n));
    case Date(iso) => PlainQuotes(iso);
    case _ =>
  }

  /** The entries an object prints: in ascending order, and they carry its meaning. */
  lemma PrintedEntries(fields: seq<Field>)
    requires WellFormed(Obj(fields))
    ensures var entries := SortByKey(Present(fields));
            && Ascending(entries) && AllPresent(entries)
            && (forall f :: f in entries ==> f in fields && WellFormed(f.value))
            && Meaning(Obj(fields)) == Object(MemberDocs(entries))
            && Print(Obj(fields)) == [OPEN_BRACE] + JoinTexts(EntryTexts(entries)) + [CLOSE_BRACE]
  {
    PresentStaysDistinct(fields);
    SortKeepsOrder(Present(fields));
    PrintedObject(fields);
    EntriesMean(fields);
  }

  lemma SameArrayText(items: seq<Js>, other: seq<Js>)
    requires |items| == |other| && forall i :: 0 <= i < |items| ==> Print(items[i]) == Print(other[i])
    ensures Print(Arr(items)) == Print(Arr(other))
  {
    PrintedArray(items);
    PrintedArray(other);
    hide Print, JoinTexts;
    assert ItemTexts(items) == ItemTexts(other);
  }

  lemma SameObjectText(fields: seq<Field>, other: seq<Field>)
    requires WellFormed(Obj(fields)) && WellFormed(Obj(other))
    requires var fs, gs := SortByKey(Present(fields)), SortByKey(Present(other));
             |fs| == |gs| && forall i :: 0 <= i < |fs| ==>
               fs[i].key == gs[i].key && Print(fs[i].value) == Print(gs[i].value)
    ensures Print(Obj(fields)) == Print(Obj(other))
  {
    PrintedObject(fields);
    PrintedObject(other);
    hide Print, Meaning, WellFormed, Present, SortByKey, JoinTexts, Quoted;
    assert EntryTexts(SortByKey(Present(fields))) == EntryTexts(SortByKey(Present(other)));
  }

  lemma {:induction false} MeaningDeterminesText(v: Js, w: Js)
    requires WellFormed(v) && WellFormed(w) && Meaning(v) == Meaning(w)
    ensures Print(v) == Print(w)
    decreases v
  {
    hide BigIntText, QuoteUnits;
    match v
    case Arr(items) =>
      assert w.Arr?;
      MeaningByParts(v);
      MeaningByParts(w);
      hide Meaning, Print;
      forall i | 0 <= i < |items|
        ensures Print(items[i]) == Print(w.items[i])
      {
        assert ItemDocs(items)[i] == ItemDocs(w.items)[i];
        MeaningDeterminesText(items[i], w.items[i]);
      }
      SameArrayText(items, w.items);
    case Obj(fields) =>
      assert w.Obj?;
      hide Meaning, Print, Present, SortByKey, Ascending, MemberDocs, AllPresent, WellFormed;
      var fs, gs := SortByKey(Present(fields)), SortByKey(Present(w.fields));
      PrintedEntries(fields);
      PrintedEntries(w.fields);
      SameEntries(fs, gs);
      forall i | 0 <= i < |fs|
        ensures Print(fs[i].value) == Print(gs[i].value)
      {
        assert fs[i] in fields && gs[i] in w.fields;
        MeaningDeterminesText(fs[i].value, gs[i].value);
      }
      SameObjectText(fields, w.fields);
    case _ =>
      AtomText(v);
      AtomText(w);
  }

  // ----- What a signature over the text is worth -----

  /** Two values have the same canonical text, hence the same signature, iff they mean the same. */
  lemma SameTextIff(v: Js, w: Js)
    requires WellFormed(v) && WellFormed(w)
    ensures Print(v) == Print(w) <==> Meaning(v) == Meaning(w)
  {
    hide Print, Meaning, Read;
    ReadUndoesPrint(v);
    ReadUndoesPrint(w);
    if Meaning(v) == Meaning(w) {
      MeaningDeterminesText(v, w);
    }
  }

  /** Reordering the properties of an object and adding or dropping undefined ones leaves the text. */
  lemma OrderAndUndefinedDoNotCount(fields: seq<Field>, other: seq<Field>)
    requires WellFormed(Obj(fields)) && WellFormed(Obj(other))
    requires forall f: Field :: f.value != Undefined ==> (f in fields <==> f in other)
    ensures Print(Obj(fields)) == Print(Obj(other))
  {
    DistinctMeansOne(fields);
    DistinctMeansOne(other);
    hide Print, Meaning, WellFormed;
    SameMembers(fields, other);
    MeaningByParts(Obj(fields));
    MeaningByParts(Obj(other));
    SameTextIff(Obj(fields), Obj(other));
  }

  lemma DistinctMeansOne(fields: seq<Field>)
    requires DistinctKeys(fields)
    ensures OneValuePerKey(fields)
  {
  }

  /** The plain values: no bigint, Date, undefined or non-finite number, and keys in order. */
  ghost predicate Plain(v: Js) {
    match v
    case Undefined => false
    case NonFinite => false
    case BigInt(_) => false
    case Date(_) => false
    case Arr(items) => forall item :: item in items ==> Plain(item)
    case Obj(fields) => Ascending(fields) && forall f :: f in fields ==> Plain(f.value)
    case _ => true
  }

  lemma {:induction false} PlainMeaningIsFaithful(v: Js, w: Js)
    requires Plain(v) && Plain(w) && Meaning(v) == Meaning(w)
    ensures v == w
    decreases v
  {
    MeaningByParts(v);
    MeaningByParts(w);
    match v
    case Arr(items) =>
      assert w.Arr?;
      hide Meaning;
      forall i | 0 <= i < |items|
        ensures items[i] == w.items[i]
      {
        assert ItemDocs(items)[i] == ItemDocs(w.items)[i];
        PlainMeaningIsFaithful(items[i], w.items[i]);
      }
      assert items == w.items;
    case Obj(fields) =>
      assert w.Obj?;
      hide Meaning;
      SameEntries(fields, w.fields);
      hide Ascending, MemberDocs;
      forall i | 0 <= i < |fields|
        ensures fields[i] == w.fields[i]
      {
        PlainMeaningIsFaithful(fields[i].value, w.fields[i].value);
      }
      assert fields == w.fields;
    case _ =>
  }

  /** Distinct plain values print differently. */
  lemma PlainTextIsFaithful(v: Js, w: Js)
    requires WellFormed(v) && WellFormed(w) && Plain(v) && Plain(w)
    ensures Print(v) == Print(w) <==> v == w
  {
    SameTextIff(v, w);
    if Meaning(v) == Meaning(w) {
      PlainMeaningIsFaithful(v, w);
    }
  }
}
