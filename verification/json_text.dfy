/** JSON text as sequences of UTF-16 code units, the way JavaScript strings hold it: the quoting of
    JSON.stringify (QuoteJSONString of ECMA-262) and a reader for the grammar of RFC 8259. */
module JsonText {

  type CodeUnit = u: int | 0 <= u < 0x1_0000
  type Text = seq<CodeUnit>

  const QUOTE: CodeUnit := 34
  const COMMA: CodeUnit := 44
  const COLON: CodeUnit := 58
  const OPEN_BRACKET: CodeUnit := 91
  const BACKSLASH: CodeUnit := 92
  const CLOSE_BRACKET: CodeUnit := 93
  const OPEN_BRACE: CodeUnit := 123
  const CLOSE_BRACE: CodeUnit := 125
  const NULL: Text := [110, 117, 108, 108]
  const TRUE: Text := [116, 114, 117, 101]
  const FALSE: Text := [102, 97, 108, 115, 101]

  /** What a JSON text denotes. An object is an unordered collection of named members; a number is
      its numeral. */
  datatype Doc =
    | Nil
    | Flag(b: bool)
    | Number(lexeme: Text)
    | String(s: Text)
    | List(items: seq<Doc>)
    | Object(members: map<Text, Doc>)

  datatype Result<+T> = Failed | Done(value: T, rest: Text)

  // ----- Quoting strings -----

  predicate IsHigh(u: CodeUnit) {
    0xD800 <= u < 0xDC00
  }

  predicate IsLow(u: CodeUnit) {
    0xDC00 <= u < 0xE000
  }

  predicate IsSurrogate(u: CodeUnit) {
    0xD800 <= u < 0xE000
  }

  /** A unit that is printed as itself. */
  predicate IsPlain(u: CodeUnit) {
    u >= 0x20 && u != QUOTE && u != BACKSLASH && !IsSurrogate(u)
  }

  function HexUnit(d: nat): CodeUnit
    requires d < 16
  {
    if d < 10 then 48 + d else 87 + d
  }

  function UnicodeEscape(u: CodeUnit): Text {
    [BACKSLASH, 117, HexUnit(u / 16 / 16 / 16), HexUnit(u / 16 / 16 % 16), HexUnit(u / 16 % 16), HexUnit(u % 16)]
  }

  /** One code unit that is not the first of a surrogate pair. */
  function QuoteUnit(u: CodeUnit): Text {
    if u == QUOTE || u == BACKSLASH then [BACKSLASH, u]
    else if u == 8 then [BACKSLASH, 98]
    else if u == 12 then [BACKSLASH, 102]
    else if u == 10 then [BACKSLASH, 110]
    else if u == 13 then [BACKSLASH, 114]
    else if u == 9 then [BACKSLASH, 116]
    else if IsPlain(u) then [u]
    else UnicodeEscape(u)
  }

  predicate StartsPair(s: Text) {
    |s| >= 2 && IsHigh(s[0]) && IsLow(s[1])
  }

  function QuoteUnits(s: Text): Text {
    if s == [] then []
    else if StartsPair(s) then [s[0], s[1]] + QuoteUnits(s[2..])
    else QuoteUnit(s[0]) + QuoteUnits(s[1..])
  }

  /** JSON.stringify of a string. */
  function Quoted(s: Text): Text {
    [QUOTE] + QuoteUnits(s) + [QUOTE]
  }

  lemma {:induction false} PlainQuotes(s: Text)
    requires forall i :: 0 <= i < |s| ==> IsPlain(s[i])
    ensures QuoteUnits(s) == s
  {
    if s != [] {
      PlainQuotes(s[1..]);
    }
  }

  // ----- Reading strings (section 7) -----

  predicate IsHexUnit(u: CodeUnit) {
    48 <= u <= 57 || 65 <= u <= 70 || 97 <= u <= 102
  }

  function HexOf(u: CodeUnit): (d: nat)
    requires IsHexUnit(u)
    ensures d < 16
  {
    if u <= 57 then u - 48 else if u <= 70 then u - 55 else u - 87
  }

  function FourHex(a: CodeUnit, b: CodeUnit, c: CodeUnit, d: CodeUnit): CodeUnit
    requires IsHexUnit(a) && IsHexUnit(b) && IsHexUnit(c) && IsHexUnit(d)
  {
    16 * (16 * (16 * HexOf(a) + HexOf(b)) + HexOf(c)) + HexOf(d)
  }

  /** The first string character: a unit as it stands, or an escape. */
  function ReadUnit(t: Text): (r: Result<CodeUnit>)
    ensures r.Done? ==> |r.rest| < |t|
  {
    if t == [] || t[0] < 0x20 || t[0] == QUOTE then Failed
    else if t[0] != BACKSLASH then Done(t[0], t[1..])
    else if |t| < 2 then Failed
    else if t[1] == QUOTE || t[1] == BACKSLASH || t[1] == 47 then Done(t[1], t[2..])
    else if t[1] == 98 then Done(8, t[2..])
    else if t[1] == 102 then Done(12, t[2..])
    else if t[1] == 110 then Done(10, t[2..])
    else if t[1] == 114 then Done(13, t[2..])
    else if t[1] == 116 then Done(9, t[2..])
    else if t[1] == 117 && |t| >= 6 && IsHexUnit(t[2]) && IsHexUnit(t[3]) && IsHexUnit(t[4]) && IsHexUnit(t[5]) then
      Done(FourHex(t[2], t[3], t[4], t[5]), t[6..])
    else Failed
  }

  /** The rest of a string, after its opening quotation mark. */
  function ReadString(t: Text): (r: Result<Text>)
    ensures r.Done? ==> |r.rest| < |t|
    decreases |t|
  {
    if t != [] && t[0] == QUOTE then Done([], t[1..])
    else
      match ReadUnit(t)
      case Failed => Failed
      case Done(u, t') =>
        match ReadString(t')
        case Failed => Failed
        case Done(s, rest) => Done([u] + s, rest)
  }

  lemma HexReads(d: nat)
    requires d < 16
    ensures IsHexUnit(HexUnit(d)) && HexOf(HexUnit(d)) == d
  {
  }

  lemma FourHexReads(u: CodeUnit)
    ensures var a, b := HexUnit(u / 16 / 16 / 16), HexUnit(u / 16 / 16 % 16);
            var c, d := HexUnit(u / 16 % 16), HexUnit(u % 16);
            IsHexUnit(a) && IsHexUnit(b) && IsHexUnit(c) && IsHexUnit(d) && FourHex(a, b, c, d) == u
  {
    var v, w := u / 16, u / 16 / 16;
    HexReads(w / 16);
    HexReads(w % 16);
    HexReads(v % 16);
    HexReads(u % 16);
    hide HexUnit, HexOf, IsHexUnit;
  }

  /** Every unit is read back from its quoted form, and a surrogate also from itself. */
  lemma QuotedUnitReads(u: CodeUnit, t: Text)
    ensures ReadUnit(QuoteUnit(u) + t) == Done(u, t)
    ensures IsSurrogate(u) ==> ReadUnit([u] + t) == Done(u, t)
    ensures QuoteUnit(u)[0] != QUOTE
  {
    FourHexReads(u);
    hide FourHex;
    var q := QuoteUnit(u);
    assert (q + t)[|q|..] == t;
    assert ([u] + t)[1..] == t;
  }

  lemma ReadStringStep(u: CodeUnit, q: Text, t: Text, s: Text, rest: Text)
    requires q != [] && q[0] != QUOTE && ReadUnit(q + t) == Done(u, t) && ReadString(t) == Done(s, rest)
    ensures ReadString(q + t) == Done([u] + s, rest)
  {
    hide ReadUnit;
    assert (q + t)[0] == q[0];
  }

  /** A surrogate pair is printed as it stands. */
  lemma PairReads(high: CodeUnit, low: CodeUnit, t: Text, s: Text, rest: Text)
    requires IsHigh(high) && IsLow(low) && ReadString(t) == Done(s, rest)
    ensures ReadString([high, low] + t) == Done([high, low] + s, rest)
  {
    QuotedUnitReads(low, t);
    QuotedUnitReads(high, [low] + t);
    hide ReadUnit, ReadString, QuoteUnit;
    ReadStringStep(low, [low], t, s, rest);
    ReadStringStep(high, [high], [low] + t, [low] + s, rest);
    assert [high, low] + t == [high] + ([low] + t);
    assert [high, low] + s == [high] + ([low] + s);
  }

  /** Reading a quoted string gives the string back, whatever it holds: controls, quotation marks,
      surrogate pairs and lone surrogates. */
  lemma {:induction false} QuotedReadsBack(s: Text, rest: Text)
    ensures ReadString(QuoteUnits(s) + ([QUOTE] + rest)) == Done(s, rest)
    decreases |s|
  {
    hide QuoteUnit, ReadUnit;
    var close := [QUOTE] + rest;
    if s == [] {
      assert QuoteUnits(s) + close == close && close[1..] == rest;
    } else {
      var n := if StartsPair(s) then 2 else 1;
      var front := if StartsPair(s) then [s[0], s[1]] else QuoteUnit(s[0]);
      var tail := QuoteUnits(s[n..]) + close;
      assert QuoteUnits(s) == front + QuoteUnits(s[n..]);
      hide QuoteUnits, ReadString;
      assert QuoteUnits(s) + close == front + tail;
      QuotedReadsBack(s[n..], rest);
      if StartsPair(s) {
        PairReads(s[0], s[1], tail, s[2..], rest);
        assert s == [s[0], s[1]] + s[2..];
      } else {
        QuotedUnitReads(s[0], tail);
        ReadStringStep(s[0], front, tail, s[1..], rest);
        assert s == [s[0]] + s[1..];
      }
    }
  }

  // ----- Reading numbers (section 6) -----

  predicate IsDigitUnit(u: CodeUnit) {
    48 <= u <= 57
  }

  /** The end of the run of digits from i on. */
  function DigitsEnd(t: Text, i: nat): (e: nat)
    requires i <= |t|
    ensures i <= e <= |t|
    decreases |t| - i
  {
    if i < |t| && IsDigitUnit(t[i]) then DigitsEnd(t, i + 1) else i
  }

  function FractionEnd(t: Text, i: nat): (e: nat)
    requires i <= |t|
    ensures e == 0 || i <= e <= |t|
  {
    if i < |t| && t[i] == 46 then
      if DigitsEnd(t, i + 1) > i + 1 then DigitsEnd(t, i + 1) else 0
    else i
  }

  function ExponentEnd(t: Text, i: nat): (e: nat)
    requires i <= |t|
    ensures e == 0 || i <= e <= |t|
  {
    if i < |t| && (t[i] == 69 || t[i] == 101) then
      var j := if i + 1 < |t| && (t[i + 1] == 43 || t[i + 1] == 45) then i + 2 else i + 1;
      if DigitsEnd(t, j) > j then DigitsEnd(t, j) else 0
    else i
  }

  function IntegerEnd(t: Text): (e: nat)
    ensures e <= |t|
  {
    var i := if t != [] && t[0] == 45 then 1 else 0;
    if i < |t| && t[i] == 48 then i + 1
    else if DigitsEnd(t, i) > i then DigitsEnd(t, i) else 0
  }

  /** The length of the number at the front of t: minus, int, frac and exp; 0 when there is none. */
  function NumberEnd(t: Text): (e: nat)
    ensures e <= |t|
  {
    var i := IntegerEnd(t);
    var j := if i == 0 then 0 else FractionEnd(t, i);
    if j == 0 then 0 else ExponentEnd(t, j)
  }

  predicate IsNumber(t: Text) {
    t != [] && NumberEnd(t) == |t|
  }

  /** What may follow a value inside a document without spaces. */
  predicate Delimited(rest: Text) {
    rest == [] || rest[0] == COMMA || rest[0] == CLOSE_BRACKET || rest[0] == CLOSE_BRACE
  }

  lemma {:induction false} DigitsEndStays(t: Text, rest: Text, i: nat)
    requires i <= |t| && Delimited(rest)
    ensures DigitsEnd(t + rest, i) == DigitsEnd(t, i)
    decreases |t| - i
  {
    if i < |t| {
      DigitsEndStays(t, rest, i + 1);
    }
  }

  /** A number followed by a delimiter is read whole, and no further. */
  lemma NumberStays(t: Text, rest: Text)
    requires Delimited(rest)
    ensures NumberEnd(t + rest) == NumberEnd(t)
  {
    forall i: nat | i <= |t|
      ensures DigitsEnd(t + rest, i) == DigitsEnd(t, i)
    {
      DigitsEndStays(t, rest, i);
    }
    hide DigitsEnd;
    assert IntegerEnd(t + rest) == IntegerEnd(t);
    forall i: nat | i <= |t|
      ensures FractionEnd(t + rest, i) == FractionEnd(t, i) && ExponentEnd(t + rest, i) == ExponentEnd(t, i)
    {
    }
  }

  lemma NumberStart(t: Text)
    requires IsNumber(t)
    ensures t[0] == 45 || IsDigitUnit(t[0])
  {
  }

  // ----- The grammar of numbers, and of escapes and white space -----

  /** A non-empty run of digits from a up to b. */
  ghost predicate Digits(t: Text, a: int, b: int) {
    0 <= a < b <= |t| && forall k :: a <= k < b ==> 48 <= t[k] <= 57
  }

  /** int up to i: an optional minus, then 0 or digits of which the first is not 0. */
  ghost predicate IsInt(t: Text, i: nat) {
    var start := if t != [] && t[0] == 45 then 1 else 0;
    (start < |t| && t[start] == 48 && i == start + 1) || (Digits(t, start, i) && t[start] != 48)
  }

  /** frac from i to j: nothing, or a point and digits. */
  ghost predicate IsFrac(t: Text, i: nat, j: nat) {
    j == i || (i < |t| && t[i] == 46 && Digits(t, i + 1, j))
  }

  /** exp from j to the end: nothing, or e, an optional sign and digits. */
  ghost predicate IsExp(t: Text, j: nat) {
    j == |t| ||
    (j < |t| && (t[j] == 69 || t[j] == 101) &&
     (Digits(t, j + 1, |t|) || (j + 1 < |t| && (t[j + 1] == 43 || t[j + 1] == 45) && Digits(t, j + 2, |t|))))
  }

  lemma {:induction false} DigitsEndIs(t: Text, i: nat, e: nat)
    requires i <= e <= |t| && forall k :: i <= k < e ==> 48 <= t[k] <= 57
    requires e < |t| ==> !(48 <= t[e] <= 57)
    ensures DigitsEnd(t, i) == e
    decreases e - i
  {
    if i < e {
      DigitsEndIs(t, i + 1, e);
    }
  }

  lemma {:induction false} DigitsAreDigits(t: Text, i: nat, k: nat)
    requires i <= |t| && i <= k < DigitsEnd(t, i)
    ensures IsDigitUnit(t[k])
    decreases |t| - i
  {
    if k > i {
      DigitsAreDigits(t, i + 1, k);
    }
  }

  lemma DigitsUpToEnd(t: Text, i: nat)
    requires i <= |t|
    ensures DigitsEnd(t, i) > i ==> Digits(t, i, DigitsEnd(t, i))
  {
    forall k | i <= k < DigitsEnd(t, i)
      ensures 48 <= t[k] <= 57
    {
      DigitsAreDigits(t, i, k);
    }
    hide DigitsEnd;
  }

  lemma IntegerEndIff(t: Text, i: nat)
    requires i < |t| ==> !(48 <= t[i] <= 57)
    ensures IsInt(t, i) ==> IntegerEnd(t) == i && i > 0
  {
    var start := if t != [] && t[0] == 45 then 1 else 0;
    if IsInt(t, i) && t[start] != 48 {
      DigitsEndIs(t, start, i);
    }
    hide DigitsEnd;
  }

  lemma FractionEndIs(t: Text, i: nat, j: nat)
    requires i <= j <= |t| && IsFrac(t, i, j) && (j < |t| ==> t[j] != 46 && !(48 <= t[j] <= 57))
    ensures FractionEnd(t, i) == j
  {
    if j > i {
      DigitsEndIs(t, i + 1, j);
    }
    hide DigitsEnd;
  }

  lemma ExponentEndIs(t: Text, j: nat)
    requires IsExp(t, j)
    ensures ExponentEnd(t, j) == |t|
  {
    if j < |t| {
      if Digits(t, j + 1, |t|) {
        DigitsEndIs(t, j + 1, |t|);
      } else {
        DigitsEndIs(t, j + 2, |t|);
      }
    }
    hide DigitsEnd;
  }

  /** The reader's numbers are exactly those of the grammar: int, frac and exp. */
  lemma NumberIff(t: Text)
    ensures IsNumber(t) <==> exists i: nat, j: nat :: i <= j <= |t| && IsInt(t, i) && IsFrac(t, i, j) && IsExp(t, j)
  {
    if IsNumber(t) {
      var start := if t[0] == 45 then 1 else 0;
      var i := IntegerEnd(t);
      var j := FractionEnd(t, i);
      DigitsUpToEnd(t, start);
      hide DigitsEnd;
      assert IsInt(t, i);
      if i < j {
        DigitsUpToEnd(t, i + 1);
      }
      assert IsFrac(t, i, j);
      if j < |t| {
        DigitsUpToEnd(t, j + 1);
        if j + 1 < |t| {
          DigitsUpToEnd(t, j + 2);
        }
      }
      assert IsExp(t, j);
    }
    if i: nat, j: nat :| i <= j <= |t| && IsInt(t, i) && IsFrac(t, i, j) && IsExp(t, j) {
      IntegerEndIff(t, i);
      FractionEndIs(t, i, j);
      ExponentEndIs(t, j);
      hide IsInt, IsFrac, IsExp, IntegerEnd, FractionEnd, ExponentEnd;
    }
  }

  /** All escapes of section 7 are read: the eight short ones, and four hex digits in either letter case. */
  lemma EscapesRead(rest: Text, d: nat)
    requires d < 16
    ensures ReadUnit([92, 34] + rest) == Done(34, rest) && ReadUnit([92, 92] + rest) == Done(92, rest)
    ensures ReadUnit([92, 47] + rest) == Done(47, rest) && ReadUnit([92, 98] + rest) == Done(8, rest)
    ensures ReadUnit([92, 102] + rest) == Done(12, rest) && ReadUnit([92, 110] + rest) == Done(10, rest)
    ensures ReadUnit([92, 114] + rest) == Done(13, rest) && ReadUnit([92, 116] + rest) == Done(9, rest)
    ensures d < 10 ==> IsHexUnit(48 + d) && HexOf(48 + d) == d
    ensures d >= 10 ==> IsHexUnit(55 + d) && HexOf(55 + d) == d && IsHexUnit(87 + d) && HexOf(87 + d) == d
  {
    hide FourHex;
    forall u: CodeUnit ensures ([92, u] + rest)[2..] == rest {
    }
  }

  // ----- Reading documents (sections 2 to 5) -----

  predicate IsSpaceUnit(u: CodeUnit) {
    u == 32 || u == 9 || u == 10 || u == 13
  }

  function SkipSpace(t: Text): (r: Text)
    ensures |r| <= |t|
  {
    if t != [] && IsSpaceUnit(t[0]) then SkipSpace(t[1..]) else t
  }

  /** White space is space, tab, line feed and carriage return (section 2). */
  lemma {:induction false} SkipSpaceDrops(space: Text, t: Text)
    requires forall i :: 0 <= i < |space| ==> space[i] in {9, 10, 13, 32}
    requires t != [] ==> t[0] !in {9, 10, 13, 32}
    ensures SkipSpace(space + t) == t
  {
    if space == [] {
      assert space + t == t;
    } else {
      SkipSpaceDrops(space[1..], t);
      assert (space + t)[1..] == space[1..] + t;
    }
  }

  function ReadValue(t: Text): (r: Result<Doc>)
    ensures r.Done? ==> |r.rest| < |t|
    decreases |t|, 0
  {
    if t == [] then Failed
    else if t[0] == QUOTE then
      (match ReadString(t[1..])
       case Failed => Failed
       case Done(s, rest) => Done(String(s), rest))
    else if t[0] == OPEN_BRACKET then
      var u := SkipSpace(t[1..]);
      if u != [] && u[0] == CLOSE_BRACKET then Done(List([]), u[1..])
      else
        (match ReadItems(u)
         case Failed => Failed
         case Done(items, rest) => Done(List(items), rest))
    else if t[0] == OPEN_BRACE then
      var u := SkipSpace(t[1..]);
      if u != [] && u[0] == CLOSE_BRACE then Done(Object(map[]), u[1..])
      else
        (match ReadMembers(u)
         case Failed => Failed
         case Done(members, rest) => Done(Object(members), rest))
    else if NULL <= t then Done(Nil, t[4..])
    else if TRUE <= t then Done(Flag(true), t[4..])
    else if FALSE <= t then Done(Flag(false), t[5..])
    else if NumberEnd(t) > 0 then Done(Number(t[..NumberEnd(t)]), t[NumberEnd(t)..])
    else Failed
  }

  /** One or more values, up to the closing bracket. */
  function ReadItems(t: Text): (r: Result<seq<Doc>>)
    ensures r.Done? ==> |r.rest| < |t|
    decreases |t|, 1
  {
    match ReadValue(SkipSpace(t))
    case Failed => Failed
    case Done(item, t') =>
      var u := SkipSpace(t');
      if u == [] then Failed
      else if u[0] == CLOSE_BRACKET then Done([item], u[1..])
      else if u[0] != COMMA then Failed
      else
        match ReadItems(u[1..])
        case Failed => Failed
        case Done(items, rest) => Done([item] + items, rest)
  }

  /** A member name and its colon. */
  function ReadName(t: Text): (r: Result<Text>)
    ensures r.Done? ==> |r.rest| < |t|
  {
    var u := SkipSpace(t);
    if u == [] || u[0] != QUOTE then Failed
    else
      match ReadString(u[1..])
      case Failed => Failed
      case Done(key, t') =>
        var w := SkipSpace(t');
        if w != [] && w[0] == COLON then Done(key, w[1..]) else Failed
  }

  /** One or more members, up to the closing brace; of repeated names the last one counts. */
  function ReadMembers(t: Text): (r: Result<map<Text, Doc>>)
    ensures r.Done? ==> |r.rest| < |t|
    decreases |t|, 1
  {
    match ReadName(t)
    case Failed => Failed
    case Done(key, t1) =>
      match ReadValue(SkipSpace(t1))
      case Failed => Failed
      case Done(value, t2) =>
        var u := SkipSpace(t2);
        if u == [] then Failed
        else if u[0] == CLOSE_BRACE then Done(map[key := value], u[1..])
        else if u[0] != COMMA then Failed
        else
          match ReadMembers(u[1..])
          case Failed => Failed
          case Done(members, rest) => Done(map[key := value] + members, rest)
  }

  /** A whole JSON text: one value between optional white space. */
  function Read(t: Text): Result<Doc> {
    match ReadValue(SkipSpace(t))
    case Failed => Failed
    case Done(doc, rest) => if SkipSpace(rest) == [] then Done(doc, []) else Failed
  }

  lemma WordsRead(rest: Text)
    ensures ReadValue(NULL + rest) == Done(Nil, rest)
    ensures ReadValue(TRUE + rest) == Done(Flag(true), rest)
    ensures ReadValue(FALSE + rest) == Done(Flag(false), rest)
  {
    hide ReadString, ReadItems, ReadMembers, SkipSpace, NumberEnd;
    assert (NULL + rest)[4..] == rest && (TRUE + rest)[4..] == rest && (FALSE + rest)[5..] == rest;
  }

  lemma NumberReads(lexeme: Text, rest: Text)
    requires IsNumber(lexeme) && Delimited(rest)
    ensures ReadValue(lexeme + rest) == Done(Number(lexeme), rest)
  {
    NumberStart(lexeme);
    NumberStays(lexeme, rest);
    hide ReadString, ReadItems, ReadMembers, SkipSpace, NumberEnd;
    assert (lexeme + rest)[..|lexeme|] == lexeme && (lexeme + rest)[|lexeme|..] == rest;
  }

  lemma StringReads(s: Text, rest: Text)
    ensures ReadValue(Quoted(s) + rest) == Done(String(s), rest)
  {
    QuotedReadsBack(s, rest);
    hide ReadString, QuoteUnits, ReadItems, ReadMembers, SkipSpace, NumberEnd;
    assert (Quoted(s) + rest)[1..] == QuoteUnits(s) + ([QUOTE] + rest);
  }

  lemma ListReads(body: Text, items: seq<Doc>, rest: Text)
    requires body != [] && !IsSpaceUnit(body[0])
    requires if body[0] == CLOSE_BRACKET then items == [] && rest == body[1..] else ReadItems(body) == Done(items, rest)
    ensures ReadValue([OPEN_BRACKET] + body) == Done(List(items), rest)
  {
    hide ReadString, ReadItems, ReadMembers, NumberEnd;
    assert ([OPEN_BRACKET] + body)[1..] == body;
  }

  lemma ObjectReads(body: Text, members: map<Text, Doc>, rest: Text)
    requires body != [] && !IsSpaceUnit(body[0])
    requires if body[0] == CLOSE_BRACE then members == map[] && rest == body[1..]
             else ReadMembers(body) == Done(members, rest)
    ensures ReadValue([OPEN_BRACE] + body) == Done(Object(members), rest)
  {
    hide ReadString, ReadItems, ReadMembers, NumberEnd;
    assert ([OPEN_BRACE] + body)[1..] == body;
  }

  // ----- The shape of a quoted string -----

  predicate IsLowerHexUnit(u: CodeUnit) {
    48 <= u <= 57 || 97 <= u <= 102
  }

  /** A unit from 32 on that is no quotation mark, backslash or surrogate stands for itself; quotation mark,
      backslash, and the five controls with a name are a backslash and one unit; every other control and every
      lone surrogate is a backslash, u and four lowercase hex digits. Together with reading back, this leaves
      one text for every unit. */
  lemma QuoteUnitShape(u: CodeUnit)
    ensures var plain := 32 <= u && u != 34 && u != 92 && !(0xD800 <= u < 0xE000);
            if plain then QuoteUnit(u) == [u]
            else if u in {8, 9, 10, 12, 13, 34, 92} then |QuoteUnit(u)| == 2
            else |QuoteUnit(u)| == 6 && forall i :: 2 <= i < 6 ==> IsLowerHexUnit(QuoteUnit(u)[i])
  {
  }

  /** A surrogate pair is quoted as it stands, every other unit by itself. */
  lemma QuotePairs(s: Text)
    requires s != []
    ensures QuoteUnits(s) == if |s| >= 2 && 0xD800 <= s[0] < 0xDC00 <= s[1] < 0xE000
                             then s[..2] + QuoteUnits(s[2..])
                             else QuoteUnit(s[0]) + QuoteUnits(s[1..])
  {
    hide QuoteUnit;
  }

  // ----- White space outside strings -----

  datatype Place = Outside | Inside | Escaped | Spaced

  function After(place: Place, u: CodeUnit): Place {
    match place
    case Spaced => Spaced
    case Outside => if u == QUOTE then Inside else if IsSpaceUnit(u) then Spaced else Outside
    case Inside => if u == QUOTE then Outside else if u == BACKSLASH then Escaped else Inside
    case Escaped => Inside
  }

  /** Where a text leads from a place; Spaced once white space has stood outside a string. */
  function Scan(place: Place, t: Text): Place {
    if t == [] then place else After(Scan(place, t[..|t| - 1]), t[|t| - 1])
  }

  /** Outside strings exactly the four kinds of white space are noticed, and never forgotten. */
  lemma SpacedIff(place: Place, u: CodeUnit)
    ensures After(place, u) == Spaced <==> place == Spaced || (place == Outside && u in {9, 10, 13, 32})
    ensures After(place, u) == Outside <==>
            (place == Inside && u == 34) || (place == Outside && u !in {9, 10, 13, 32, 34})
    ensures After(place, u) == Escaped <==> place == Inside && u == 92
  {
  }

  lemma {:induction false} ScanConcat(place: Place, a: Text, b: Text)
    ensures Scan(place, a + b) == Scan(Scan(place, a), b)
  {
    if b == [] {
      assert a + b == a;
    } else {
      assert (a + b)[..|a + b| - 1] == a + b[..|b| - 1];
      ScanConcat(place, a, b[..|b| - 1]);
    }
  }

  lemma ScanOne(place: Place, u: CodeUnit)
    ensures Scan(place, [u]) == After(place, u)
  {
    assert [u][..0] == [];
  }

  /** No unit of the text moves the place. */
  lemma {:induction false} ScanStays(place: Place, t: Text)
    requires forall i :: 0 <= i < |t| ==> After(place, t[i]) == place
    ensures Scan(place, t) == place
  {
    if t != [] {
      ScanStays(place, t[..|t| - 1]);
    }
  }

  lemma ScanQuoteUnit(u: CodeUnit)
    ensures Scan(Inside, QuoteUnit(u)) == Inside
    ensures IsSurrogate(u) ==> Scan(Inside, [u]) == Inside
  {
    ScanOne(Inside, u);
    if !IsPlain(u) {
      EscapeShape(u);
      hide QuoteUnit;
      ScanEscape(QuoteUnit(u));
    }
  }

  lemma EscapeShape(u: CodeUnit)
    requires !IsPlain(u)
    ensures var q := QuoteUnit(u);
            |q| >= 2 && q[0] == BACKSLASH && forall i :: 2 <= i < |q| ==> q[i] != QUOTE && q[i] != BACKSLASH
  {
    hide HexUnit, FourHex, HexOf;
    FourHexReads(u);
  }

  lemma ScanEscape(q: Text)
    requires |q| >= 2 && q[0] == BACKSLASH && forall i :: 2 <= i < |q| ==> q[i] != QUOTE && q[i] != BACKSLASH
    ensures Scan(Inside, q) == Inside
  {
    ScanConcat(Inside, q[..2], q[2..]);
    ScanConcat(Inside, [q[0]], [q[1]]);
    ScanOne(Inside, q[0]);
    ScanOne(Escaped, q[1]);
    assert q == q[..2] + q[2..] && q[..2] == [q[0]] + [q[1]];
    hide Scan;
    ScanStays(Inside, q[2..]);
  }

  lemma {:induction false} ScanQuoteUnits(s: Text)
    ensures Scan(Inside, QuoteUnits(s)) == Inside
    decreases |s|
  {
    hide QuoteUnit, Scan;
    if s == [] {
      ScanStays(Inside, []);
    } else if StartsPair(s) {
      ScanQuoteUnits(s[2..]);
      ScanConcat(Inside, [s[0], s[1]], QuoteUnits(s[2..]));
      ScanConcat(Inside, [s[0]], [s[1]]);
      ScanQuoteUnit(s[0]);
      ScanQuoteUnit(s[1]);
      assert [s[0], s[1]] == [s[0]] + [s[1]];
    } else {
      ScanQuoteUnits(s[1..]);
      ScanConcat(Inside, QuoteUnit(s[0]), QuoteUnits(s[1..]));
      ScanQuoteUnit(s[0]);
    }
  }

  lemma ScanQuoted(s: Text)
    ensures Scan(Outside, Quoted(s)) == Outside
  {
    hide QuoteUnits, Scan;
    ScanConcat(Outside, [QUOTE] + QuoteUnits(s), [QUOTE]);
    ScanConcat(Outside, [QUOTE], QuoteUnits(s));
    ScanOne(Outside, QUOTE);
    ScanOne(Inside, QUOTE);
    ScanQuoteUnits(s);
  }

  predicate IsNumberUnit(u: CodeUnit) {
    IsDigitUnit(u) || u == 43 || u == 45 || u == 46 || u == 69 || u == 101
  }

  lemma NumberUnits(t: Text)
    requires IsNumber(t)
    ensures forall k :: 0 <= k < |t| ==> IsNumberUnit(t[k])
  {
    forall i: nat, k: nat | i <= |t| && i <= k < DigitsEnd(t, i)
      ensures IsNumberUnit(t[k])
    {
      DigitsAreDigits(t, i, k);
    }
    hide DigitsEnd, IsDigitUnit;
    var i := IntegerEnd(t);
    var j := FractionEnd(t, i);
    assert forall k :: 0 <= k < i ==> IsNumberUnit(t[k]) by { IntegerUnits(t); }
    assert forall k :: i <= k < j ==> IsNumberUnit(t[k]);
    assert forall k :: j <= k < |t| ==> IsNumberUnit(t[k]);
  }

  lemma IntegerUnits(t: Text)
    ensures forall k :: 0 <= k < IntegerEnd(t) ==> IsNumberUnit(t[k])
  {
    var i := if t != [] && t[0] == 45 then 1 else 0;
    forall k: nat | i <= k < DigitsEnd(t, i)
      ensures IsNumberUnit(t[k])
    {
      DigitsAreDigits(t, i, k);
    }
    hide DigitsEnd;
  }

  lemma ScanNumber(t: Text)
    requires IsNumber(t)
    ensures Scan(Outside, t) == Outside
  {
    NumberUnits(t);
    hide IsNumber;
    ScanStays(Outside, t);
  }
}
