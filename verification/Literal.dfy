/** A settled value, printed as the expression that rebuilds it, and read back. */
module Literal {
  import opened Wrappers
  import opened Characters
  import opened Decimal
  import opened Tables

  datatype Member = Member(name: string, value: Value)

  datatype Pair = Pair(key: Value, value: Value)

  /** `members` are a record's own keys in the order the engine lists them. */
  datatype Value =
    | Null
    | Undefined
    | Func
    | Bool(truth: bool)
    | Int(n: int)
    | Str(text: string)
    | Arr(items: seq<Value>)
    | Obj(members: seq<Member>)
    | MapOf(entries: seq<Pair>)
    | SetOf(elements: seq<Value>)

  // ---- printing ----

  function Escape(c: char): string {
    if c == '\"' then "\\\""
    else if c == '\\' then "\\\\"
    else if c as int == 8 then "\\b"
    else if c as int == 9 then "\\t"
    else if c as int == 10 then "\\n"
    else if c as int == 12 then "\\f"
    else if c as int == 13 then "\\r"
    else if c as int < 32 then "\\u00" + [HexDigit(c as int / 16), HexDigit(c as int % 16)]
    else [c]
  }

  function EscapeAll(text: string): string {
    if text == [] then [] else Escape(text[0]) + EscapeAll(text[1..])
  }

  function Quote(text: string): string {
    "\"" + EscapeAll(text) + "\""
  }

  function PrintInt(n: int): string {
    if n < 0 then "-" + Digits(-n) else Digits(n)
  }

  /** Nothing when the serialiser throws. */
  function Print(v: Value): Option<string>
    decreases v
  {
    match v
    case Undefined | Func => None
    case Null => Some("null")
    case Bool(truth) => Some(if truth then "true" else "false")
    case Int(n) => Some(PrintInt(n))
    case Str(text) => Some(Quote(text))
    case Arr(items) => Around("[", PrintItems(items), "]")
    case Obj(members) => Around("{", PrintMembers(members), "}")
    case MapOf(entries) => Around("new Map([", PrintPairs(entries), "])")
    case SetOf(elements) => Around("new Set([", PrintItems(elements), "])")
  }

  function Around(open: string, inner: Option<string>, close: string): Option<string> {
    match inner
    case None => None
    case Some(text) => Some(open + text + close)
  }

  /** Two parts of a list, with a comma unless the second is the empty end. */
  function Join(first: Option<string>, rest: Option<string>, last: bool): Option<string> {
    match (first, rest)
    case (Some(a), Some(b)) => Some(if last then a else a + "," + b)
    case _ => None
  }

  function PrintItems(vs: seq<Value>): Option<string>
    decreases vs
  {
    if vs == [] then Some("") else Join(Print(vs[0]), PrintItems(vs[1..]), |vs| == 1)
  }

  function PrintMember(m: Member): Option<string>
    decreases m
  {
    Around(Quote(m.name) + ":", Print(m.value), "")
  }

  function PrintMembers(ms: seq<Member>): Option<string>
    decreases ms
  {
    if ms == [] then Some("") else Join(PrintMember(ms[0]), PrintMembers(ms[1..]), |ms| == 1)
  }

  function PrintPair(p: Pair): Option<string>
    decreases p
  {
    Around("[", Join(Print(p.key), Print(p.value), false), "]")
  }

  function PrintPairs(ps: seq<Pair>): Option<string>
    decreases ps
  {
    if ps == [] then Some("") else Join(PrintPair(ps[0]), PrintPairs(ps[1..]), |ps| == 1)
  }

  lemma TwoItems(vs: seq<Value>, a: string, b: string)
    requires |vs| == 2 && Print(vs[0]) == Some(a) && Print(vs[1]) == Some(b)
    ensures PrintItems(vs) == Some(a + "," + b)
  {
    assert vs[1..] == [vs[1]] && vs[1..][1..] == [];
    assert PrintItems([]) == Some("");
    assert PrintItems(vs[1..]) == Some(b);
  }

  lemma EmptyForms()
    ensures Print(Arr([])) == Some("[" + "" + "]") && Print(Obj([])) == Some("{" + "" + "}")
    ensures Print(SetOf([])) == Some("new Set([" + "" + "])") && Print(MapOf([])) == Some("new Map([" + "" + "])")
  {
  }

  lemma ListForms(vs: seq<Value>, a: string, b: string)
    requires |vs| == 2 && Print(vs[0]) == Some(a) && Print(vs[1]) == Some(b)
    ensures Print(Arr(vs)) == Some("[" + (a + "," + b) + "]")
    ensures Print(SetOf(vs)) == Some("new Set([" + (a + "," + b) + "])")
  {
    TwoItems(vs, a, b);
  }

  lemma TableForm(pairs: seq<Pair>, a: string, b: string)
    requires |pairs| == 1 && Print(pairs[0].key) == Some(a) && Print(pairs[0].value) == Some(b)
    ensures Print(MapOf(pairs)) == Some("new Map([" + ("[" + (a + "," + b) + "]") + "])")
  {
    assert pairs[1..] == [] && PrintPairs([]) == Some("") && PrintPairs(pairs) == PrintPair(pairs[0]);
  }

  lemma RecordForm(members: seq<Member>, b: string)
    requires |members| == 1 && Print(members[0].value) == Some(b)
    ensures Print(Obj(members)) == Some("{" + (Quote(members[0].name) + ":" + b + "") + "}")
  {
    assert members[1..] == [] && PrintMembers([]) == Some("") && PrintMembers(members) == PrintMember(members[0]);
  }

  /** How the pieces are written, whatever is in them. */
  lemma PrintedForms(x: Value, y: Value, a: string, b: string, name: string)
    requires Print(x) == Some(a) && Print(y) == Some(b)
    ensures Print(Null) == Some("null") && Print(Bool(true)) == Some("true") && Print(Bool(false)) == Some("false")
    ensures Print(Arr([])) == Some("[" + "" + "]") && Print(Obj([])) == Some("{" + "" + "}")
    ensures Print(SetOf([])) == Some("new Set([" + "" + "])") && Print(MapOf([])) == Some("new Map([" + "" + "])")
    ensures Print(Arr([x, y])) == Some("[" + (a + "," + b) + "]")
    ensures Print(SetOf([x, y])) == Some("new Set([" + (a + "," + b) + "])")
    ensures Print(MapOf([Pair(x, y)])) == Some("new Map([" + ("[" + (a + "," + b) + "]") + "])")
    ensures Print(Obj([Member(name, y)])) == Some("{" + (Quote(name) + ":" + b + "") + "}")
  {
    EmptyForms();
    ListForms([x, y], a, b);
    TableForm([Pair(x, y)], a, b);
    RecordForm([Member(name, y)], b);
  }

  // ---- what an engine makes of the printed text ----

  predicate Primitive(v: Value) {
    v.Null? || v.Undefined? || v.Bool? || v.Int? || v.Str?
  }

  /** A `Map` finds a primitive key by its value; every object that a text makes is one
      of its own. */
  function KeySlot(v: Value): Slot<Value> {
    if Primitive(v) then Shared(v, 0) else Alone
  }

  function PairSlot(p: Pair): Slot<Value> {
    KeySlot(p.key)
  }

  const AFTER_INDICES := 4294967295

  predicate IsIndex(name: string) {
    name != "" && AllDigits(name) && Digits(NatOf(name)) == name && NatOf(name) < AFTER_INDICES
  }

  /** A record lists the names that are array indices first, from the lowest on. */
  function MemberSlot(m: Member): Slot<string> {
    Shared(m.name, if IsIndex(m.name) then NatOf(m.name) else AFTER_INDICES)
  }

  /** A member named `__proto__` sets the prototype: it makes no own member. */
  function Owned(ms: seq<Member>): (own: seq<Member>)
    ensures |own| <= |ms|
  {
    if ms == [] then [] else (if ms[0].name == "__proto__" then [] else [ms[0]]) + Owned(ms[1..])
  }

  function RecordOf(ms: seq<Member>): Value {
    Obj(Built(Owned(ms), MemberSlot))
  }

  function TableOf(ps: seq<Pair>): Value {
    MapOf(Built(ps, PairSlot))
  }

  function ElementsOf(vs: seq<Value>): Value {
    SetOf(Built(vs, KeySlot))
  }

  // ---- what printing refuses ----

  predicate Refused(v: Value)
    decreases v
  {
    match v
    case Undefined | Func => true
    case Null | Bool(_) | Int(_) | Str(_) => false
    case Arr(items) => exists i :: 0 <= i < |items| && Refused(items[i])
    case SetOf(elements) => exists i :: 0 <= i < |elements| && Refused(elements[i])
    case Obj(members) => exists i :: 0 <= i < |members| && RefusedMember(members[i])
    case MapOf(entries) => exists i :: 0 <= i < |entries| && RefusedPair(entries[i])
  }

  predicate RefusedMember(m: Member)
    decreases m
  {
    Refused(m.value)
  }

  predicate RefusedPair(p: Pair)
    decreases p
  {
    Refused(p.key) || Refused(p.value)
  }

  /** Printing throws exactly when a function or an absent value is somewhere inside. */
  lemma {:induction false} ThrowsIff(v: Value)
    ensures Print(v).None? <==> Refused(v)
    decreases v
  {
    match v
    case Undefined | Func | Null | Bool(_) | Int(_) | Str(_) =>
    case Arr(items) => ItemsThrowIff(items);
    case SetOf(elements) => ItemsThrowIff(elements);
    case Obj(members) => MembersThrowIff(members);
    case MapOf(entries) => PairsThrowIff(entries);
  }

  lemma {:induction false} ItemsThrowIff(vs: seq<Value>)
    ensures PrintItems(vs).None? <==> exists i :: 0 <= i < |vs| && Refused(vs[i])
    decreases vs
  {
    if vs != [] {
      ThrowsIff(vs[0]);
      ItemsThrowIff(vs[1..]);
      assert forall i :: 0 < i < |vs| ==> vs[i] == vs[1..][i - 1];
    }
  }

  lemma {:induction false} MembersThrowIff(ms: seq<Member>)
    ensures PrintMembers(ms).None? <==> exists i :: 0 <= i < |ms| && RefusedMember(ms[i])
    decreases ms
  {
    if ms != [] {
      MemberThrowsIff(ms[0]);
      MembersThrowIff(ms[1..]);
      assert forall i :: 0 < i < |ms| ==> ms[i] == ms[1..][i - 1];
    }
  }

  lemma {:induction false} MemberThrowsIff(m: Member)
    ensures PrintMember(m).None? <==> RefusedMember(m)
    decreases m
  {
    ThrowsIff(m.value);
  }

  lemma {:induction false} PairsThrowIff(ps: seq<Pair>)
    ensures PrintPairs(ps).None? <==> exists i :: 0 <= i < |ps| && RefusedPair(ps[i])
    decreases ps
  {
    if ps != [] {
      PairThrowsIff(ps[0]);
      PairsThrowIff(ps[1..]);
      assert forall i :: 0 < i < |ps| ==> ps[i] == ps[1..][i - 1];
    }
  }

  lemma {:induction false} PairThrowsIff(p: Pair)
    ensures PrintPair(p).None? <==> RefusedPair(p)
    decreases p
  {
    ThrowsIff(p.key);
    ThrowsIff(p.value);
  }

  // ---- reading the expression back ----

  type Parsed<T> = Option<(T, string)>

  function HexValue(c: char): Option<nat> {
    if '0' <= c <= '9' then Some((c - '0') as nat)
    else if 'a' <= c <= 'f' then Some(10 + (c - 'a') as nat)
    else if 'A' <= c <= 'F' then Some(10 + (c - 'A') as nat)
    else None
  }

  function Unescape(c: char): Option<char> {
    match c
    case '\"' => Some('\"')
    case '\\' => Some('\\')
    case '/' => Some('/')
    case 'b' => Some(8 as char)
    case 't' => Some(9 as char)
    case 'n' => Some(10 as char)
    case 'f' => Some(12 as char)
    case 'r' => Some(13 as char)
    case _ => None
  }

  function Prepend(c: char, parsed: Parsed<string>): Parsed<string> {
    match parsed
    case None => None
    case Some((text, rest)) => Some(([c] + text, rest))
  }

  /** A string past its opening quote (section 7 of RFC 8259, code points below
      256 only where escaped by number). */
  function ReadText(s: string): (r: Parsed<string>)
    ensures r.Some? ==> |r.value.1| < |s|
  {
    if s == [] then None
    else if s[0] == '\"' then Some(("", s[1..]))
    else if s[0] != '\\' then (if s[0] as int < 32 then None else Prepend(s[0], ReadText(s[1..])))
    else if |s| < 2 then None
    else if s[1] != 'u' then
      (match Unescape(s[1]) case None => None case Some(c) => Prepend(c, ReadText(s[2..])))
    else if |s| < 6 || s[2] != '0' || s[3] != '0' then None
    else
      match (HexValue(s[4]), HexValue(s[5]))
      case (Some(hi), Some(lo)) =>
        if hi < 16 && lo < 16 then Prepend((16 * hi + lo) as char, ReadText(s[6..])) else None
      case _ => None
  }

  function ReadNat(s: string): (r: Parsed<nat>)
    ensures r.Some? ==> |r.value.1| < |s|
  {
    var k := Run(s);
    if k == 0 then None else Some((NatOf(s[..k]), s[k..]))
  }

  function ReadInt(s: string): (r: Parsed<Value>)
    ensures r.Some? ==> |r.value.1| < |s|
  {
    if s != [] && s[0] == '-' then
      (match ReadNat(s[1..]) case None => None case Some((n, rest)) => Some((Int(0 - n), rest)))
    else
      match ReadNat(s) case None => None case Some((n, rest)) => Some((Int(n), rest))
  }

  function Close<T, U>(parsed: Parsed<T>, close: string, make: T -> U): (r: Parsed<U>)
    ensures r.Some? ==> parsed.Some? && |r.value.1| <= |parsed.value.1|
  {
    match parsed
    case None => None
    case Some((inner, rest)) =>
      if Prefixed(rest, close) then Some((make(inner), rest[|close|..])) else None
  }

  /** The values the serialiser writes, as an engine evaluates their text. */
  function Read(s: string): (r: Parsed<Value>)
    ensures r.Some? ==> |r.value.1| < |s|
    decreases |s|, 0
  {
    if s == [] then None
    else if Prefixed(s, "new Map([") then Close(ReadPairs(s[9..]), ")", TableOf)
    else if Prefixed(s, "new Set([") then Close(ReadItems(s[9..]), ")", ElementsOf)
    else if Prefixed(s, "null") then Some((Null, s[4..]))
    else if Prefixed(s, "true") then Some((Bool(true), s[4..]))
    else if Prefixed(s, "false") then Some((Bool(false), s[5..]))
    else if s[0] == '\"' then Close(ReadText(s[1..]), "", text => Str(text))
    else if s[0] == '[' then Close(ReadItems(s[1..]), "", vs => Arr(vs))
    else if s[0] == '{' then Close(ReadMembers(s[1..]), "", RecordOf)
    else ReadInt(s)
  }

  /** After one element of a list: the end, or a comma and what follows it. */
  function Continue<T>(first: T, rest: string, close: char, more: Parsed<seq<T>>): (r: Parsed<seq<T>>)
    requires rest != []
    ensures r.Some? && rest[0] != close ==> more.Some? && r.value.1 == more.value.1
    ensures r.Some? && rest[0] == close ==> r.value.1 == rest[1..]
  {
    if rest[0] == close then Some(([first], rest[1..]))
    else
      match more
      case None => None
      case Some((others, after)) => Some(([first] + others, after))
  }

  function ReadItems(s: string): (r: Parsed<seq<Value>>)
    ensures r.Some? ==> |r.value.1| < |s|
    decreases |s|, 1
  {
    if s == [] then None
    else if s[0] == ']' then Some(([], s[1..]))
    else
      match Read(s)
      case None => None
      case Some((v, rest)) =>
        if rest == [] then None
        else Continue(v, rest, ']', if rest[0] == ',' then ReadItems(rest[1..]) else None)
  }

  function ReadPair(s: string): (r: Parsed<Pair>)
    ensures r.Some? ==> |r.value.1| < |s|
    decreases |s|, 1
  {
    if s == [] || s[0] != '[' then None
    else
      match Read(s[1..])
      case None => None
      case Some((key, rest)) =>
        if rest == [] || rest[0] != ',' then None
        else Close(Read(rest[1..]), "]", value => Pair(key, value))
  }

  function ReadPairs(s: string): (r: Parsed<seq<Pair>>)
    ensures r.Some? ==> |r.value.1| < |s|
    decreases |s|, 2
  {
    if s == [] then None
    else if s[0] == ']' then Some(([], s[1..]))
    else
      match ReadPair(s)
      case None => None
      case Some((p, rest)) =>
        if rest == [] then None
        else Continue(p, rest, ']', if rest[0] == ',' then ReadPairs(rest[1..]) else None)
  }

  function ReadMember(s: string): (r: Parsed<Member>)
    ensures r.Some? ==> |r.value.1| < |s|
    decreases |s|, 1
  {
    if s == [] || s[0] != '\"' then None
    else
      match ReadText(s[1..])
      case None => None
      case Some((name, rest)) =>
        if rest == [] || rest[0] != ':' then None
        else Close(Read(rest[1..]), "", value => Member(name, value))
  }

  function ReadMembers(s: string): (r: Parsed<seq<Member>>)
    ensures r.Some? ==> |r.value.1| < |s|
    decreases |s|, 2
  {
    if s == [] then None
    else if s[0] == '}' then Some(([], s[1..]))
    else
      match ReadMember(s)
      case None => None
      case Some((m, rest)) =>
        if rest == [] then None
        else Continue(m, rest, '}', if rest[0] == ',' then ReadMembers(rest[1..]) else None)
  }

  // ---- what survives of a value ----

  function Erase(v: Value): Value
    decreases v
  {
    match v
    case Arr(items) => Arr(EraseItems(items))
    case SetOf(elements) => ElementsOf(EraseItems(elements))
    case Obj(members) => RecordOf(EraseMembers(members))
    case MapOf(entries) => TableOf(ErasePairs(entries))
    case Null | Undefined | Func | Bool(_) | Int(_) | Str(_) => v
  }

  function EraseItems(vs: seq<Value>): (out: seq<Value>)
    ensures |out| == |vs|
    decreases vs
  {
    if vs == [] then [] else [Erase(vs[0])] + EraseItems(vs[1..])
  }

  function EraseMember(m: Member): Member
    decreases m
  {
    Member(m.name, Erase(m.value))
  }

  function EraseMembers(ms: seq<Member>): (out: seq<Member>)
    ensures |out| == |ms|
    decreases ms
  {
    if ms == [] then [] else [EraseMember(ms[0])] + EraseMembers(ms[1..])
  }

  function ErasePair(p: Pair): Pair
    decreases p
  {
    Pair(Erase(p.key), Erase(p.value))
  }

  function ErasePairs(ps: seq<Pair>): (out: seq<Pair>)
    ensures |out| == |ps|
    decreases ps
  {
    if ps == [] then [] else [ErasePair(ps[0])] + ErasePairs(ps[1..])
  }

  // ---- the round trip ----

  /** A number must not run into what follows it. */
  predicate Delimited(rest: string) {
    rest != [] ==> !IsDigit(rest[0])
  }

  lemma TextOpens(prefix: string, rest: string)
    ensures Prefixed(prefix + rest, prefix) && (prefix + rest)[|prefix|..] == rest
  {
  }

  lemma {:induction false} TextRoundTrip(text: string, rest: string)
    ensures ReadText(EscapeAll(text) + "\"" + rest) == Some((text, rest))
  {
    if text == [] {
      assert EscapeAll(text) + "\"" + rest == "\"" + rest;
    } else {
      TextRoundTrip(text[1..], rest);
      var tail := EscapeAll(text[1..]) + "\"" + rest;
      FourParts(Escape(text[0]), EscapeAll(text[1..]), "\"", rest);
      EscapeRoundTrip(text[0], tail);
      HeadBack(text);
    }
  }

  lemma EscapeRoundTrip(c: char, tail: string)
    ensures ReadText(Escape(c) + tail) == Prepend(c, ReadText(tail))
  {
    if |Escape(c)| == 6 {
      NumberedEscape(c, tail);
    } else if |Escape(c)| == 2 {
      ShortEscape(c, tail);
    } else {
      assert (Escape(c) + tail)[1..] == tail;
    }
  }

  lemma NumberedEscape(c: char, tail: string)
    requires |Escape(c)| == 6
    ensures ReadText(Escape(c) + tail) == Prepend(c, ReadText(tail))
  {
    var s, hi, lo := Escape(c) + tail, c as int / 16, c as int % 16;
    assert Escape(c) == ['\\', 'u', '0', '0', HexDigit(hi), HexDigit(lo)];
    assert s[1] == 'u' && s[2] == '0' && s[3] == '0' && s[4] == HexDigit(hi) && s[5] == HexDigit(lo);
    assert s[6..] == tail;
    assert HexValue(HexDigit(hi)) == Some(hi) && HexValue(HexDigit(lo)) == Some(lo);
  }

  lemma ShortEscape(c: char, tail: string)
    requires |Escape(c)| == 2
    ensures ReadText(Escape(c) + tail) == Prepend(c, ReadText(tail))
  {
    var a := Escape(c)[1];
    assert Escape(c) == ['\\', a] && Unescape(a) == Some(c);
    ReadsEscape(a, c, tail);
  }

  lemma ReadsEscape(a: char, c: char, tail: string)
    requires a != 'u' && Unescape(a) == Some(c)
    ensures ReadText(['\\', a] + tail) == Prepend(c, ReadText(tail))
  {
    var s := ['\\', a] + tail;
    assert s[0] == '\\' && s[1] == a && s[2..] == tail;
  }

  lemma NatReadsBack(digits: string, rest: string)
    requires AllDigits(digits) && digits != [] && Delimited(rest)
    ensures ReadNat(digits + rest) == Some((NatOf(digits), rest))
  {
    RunStops(digits, rest);
    assert (digits + rest)[..|digits|] == digits && (digits + rest)[|digits|..] == rest;
  }

  lemma IntRoundTrip(n: int, rest: string)
    requires Delimited(rest)
    ensures ReadInt(PrintInt(n) + rest) == Some((Int(n), rest))
    ensures PrintInt(n)[0] == '-' || IsDigit(PrintInt(n)[0])
  {
    if n < 0 {
      DigitsReadBack(-n, rest);
      ReadsMinus(Digits(-n) + rest, -n, rest);
      AfterFirst('-', Digits(-n), rest);
    } else {
      NatOfDigits(n);
      WholeReadsBack(Digits(n), rest);
    }
  }

  lemma WholeReadsBack(digits: string, rest: string)
    requires AllDigits(digits) && digits != [] && Delimited(rest)
    ensures ReadInt(digits + rest) == Some((Int(NatOf(digits)), rest))
    ensures IsDigit(digits[0])
  {
    NatReadsBack(digits, rest);
    assert (digits + rest)[0] == digits[0];
  }

  lemma DigitsReadBack(n: nat, rest: string)
    requires Delimited(rest)
    ensures ReadNat(Digits(n) + rest) == Some((n, rest))
  {
    NatOfDigits(n);
    NatReadsBack(Digits(n), rest);
  }

  lemma Bracketed(open: char, inner: string, close: string, rest: string)
    ensures [open] + inner + close + rest == [open] + (inner + close + rest)
  {
  }

  lemma AfterFirst(c: char, inner: string, rest: string)
    ensures [c] + inner + rest == [c] + (inner + rest)
  {
  }

  lemma ReadsMinus(s: string, n: nat, rest: string)
    requires ReadNat(s) == Some((n, rest))
    ensures ReadInt(['-'] + s) == Some((Int(0 - n), rest))
  {
    assert (['-'] + s)[1..] == s;
  }

  lemma FirstChar(v: Value)
    requires Print(v).Some?
    ensures Print(v).value != [] && Print(v).value[0] != ']' && Print(v).value[0] != '}'
  {
    if v.Int? {
      IntRoundTrip(v.n, []);
    }
  }

  lemma NotOpens(s: string, prefix: string, i: nat)
    requires i < |s| && i < |prefix| && s[i] != prefix[i]
    ensures !Prefixed(s, prefix)
  {
    assert |prefix| <= |s| ==> s[..|prefix|][i] == s[i];
  }

  /** Only a keyword opens with a letter. */
  lemma NoKeyword(s: string)
    requires s != [] && s[0] !in "ntf"
    ensures !Prefixed(s, "new Map([") && !Prefixed(s, "new Set([")
    ensures !Prefixed(s, "null") && !Prefixed(s, "true") && !Prefixed(s, "false")
  {
    NotOpens(s, "new Map([", 0);
    NotOpens(s, "new Set([", 0);
    NotOpens(s, "null", 0);
    NotOpens(s, "true", 0);
    NotOpens(s, "false", 0);
  }

  lemma KeywordReadsBack(v: Value, rest: string)
    requires v.Null? || v.Bool?
    ensures Read(Print(v).value + rest) == Some((v, rest))
  {
    var word := Print(v).value;
    var s := word + rest;
    TextOpens(word, rest);
    NotOpens(s, "new Map([", 1);
    NotOpens(s, "new Set([", 1);
    if v.Bool? {
      NotOpens(s, "null", 0);
      if !v.truth {
        NotOpens(s, "true", 0);
      }
    }
  }

  lemma IntReadsBack(n: int, rest: string)
    requires Delimited(rest)
    ensures Read(PrintInt(n) + rest) == Some((Int(n), rest))
  {
    IntRoundTrip(n, rest);
    IntIsRead(PrintInt(n) + rest, n, rest);
  }

  lemma IntIsRead(s: string, n: int, rest: string)
    requires ReadInt(s) == Some((Int(n), rest)) && s != [] && (s[0] == '-' || IsDigit(s[0]))
    ensures Read(s) == Some((Int(n), rest))
  {
    NoKeyword(s);
  }

  lemma StrReadsBack(text: string, rest: string)
    ensures Read(Quote(text) + rest) == Some((Str(text), rest))
  {
    var inner := EscapeAll(text) + "\"" + rest;
    TextRoundTrip(text, rest);
    ReadsQuoted(inner, text, rest);
    assert Quote(text) + rest == ['\"'] + inner;
  }

  lemma ReadsQuoted(inner: string, text: string, rest: string)
    requires ReadText(inner) == Some((text, rest))
    ensures Read(['\"'] + inner) == Some((Str(text), rest))
  {
    NoKeyword(['\"'] + inner);
    assert (['\"'] + inner)[1..] == inner && rest[0..] == rest;
  }

  /** Reading what was printed, wherever it stands, gives the value back. */
  lemma {:induction false} ReadsBack(v: Value, rest: string)
    requires Print(v).Some? && Delimited(rest)
    ensures Read(Print(v).value + rest) == Some((Erase(v), rest))
    decreases v, 2
  {
    match v
    case Null | Bool(_) => KeywordReadsBack(v, rest);
    case Int(n) => IntReadsBack(n, rest);
    case Str(text) => StrReadsBack(text, rest);
    case Arr(items) => ListReadsBack(items, rest);
    case Obj(members) => RecordReadsBack(members, rest);
    case SetOf(elements) => SetReadsBack(elements, rest);
    case MapOf(entries) => MapReadsBack(entries, rest);
  }

  lemma {:induction false} ListReadsBack(items: seq<Value>, rest: string)
    requires PrintItems(items).Some?
    ensures Read("[" + PrintItems(items).value + "]" + rest) == Some((Arr(EraseItems(items)), rest))
    decreases items, 2
  {
    var inner := PrintItems(items).value + "]" + rest;
    ItemsReadBack(items, rest);
    ReadsBracketed(inner, EraseItems(items), rest);
    Bracketed('[', PrintItems(items).value, "]", rest);
  }

  lemma ReadsBracketed(inner: string, items: seq<Value>, rest: string)
    requires ReadItems(inner) == Some((items, rest))
    ensures Read(['['] + inner) == Some((Arr(items), rest))
  {
    NoKeyword(['['] + inner);
    assert (['['] + inner)[1..] == inner && rest[0..] == rest;
  }

  lemma ReadsBraced(inner: string, members: seq<Member>, rest: string)
    requires ReadMembers(inner) == Some((members, rest))
    ensures Read(['{'] + inner) == Some((RecordOf(members), rest))
  {
    NoKeyword(['{'] + inner);
    assert (['{'] + inner)[1..] == inner && rest[0..] == rest;
  }

  lemma {:induction false} RecordReadsBack(members: seq<Member>, rest: string)
    requires PrintMembers(members).Some?
    ensures Read("{" + PrintMembers(members).value + "}" + rest) == Some((RecordOf(EraseMembers(members)), rest))
    decreases members, 2
  {
    var inner := PrintMembers(members).value + "}" + rest;
    MembersReadBack(members, rest);
    ReadsBraced(inner, EraseMembers(members), rest);
    Bracketed('{', PrintMembers(members).value, "}", rest);
  }

  lemma {:induction false} SetReadsBack(elements: seq<Value>, rest: string)
    requires PrintItems(elements).Some?
    ensures Read("new Set([" + PrintItems(elements).value + "])" + rest) ==
            Some((ElementsOf(EraseItems(elements)), rest))
    decreases elements, 2
  {
    var inner := PrintItems(elements).value + "]" + (")" + rest);
    var s := "new Set([" + PrintItems(elements).value + "])" + rest;
    assert s == "new Set([" + inner;
    NotOpens(s, "new Map([", 4);
    TextOpens("new Set([", inner);
    ItemsReadBack(elements, ")" + rest);
    TextOpens(")", rest);
  }

  lemma {:induction false} MapReadsBack(entries: seq<Pair>, rest: string)
    requires PrintPairs(entries).Some?
    ensures Read("new Map([" + PrintPairs(entries).value + "])" + rest) == Some((TableOf(ErasePairs(entries)), rest))
    decreases entries, 2
  {
    var inner := PrintPairs(entries).value + "]" + (")" + rest);
    assert "new Map([" + PrintPairs(entries).value + "])" + rest == "new Map([" + inner;
    TextOpens("new Map([", inner);
    PairsReadBack(entries, ")" + rest);
    TextOpens(")", rest);
  }

  /** The text after the first element of a printed list. */
  function Rest(others: string, single: bool, close: string, rest: string): string {
    if single then close + rest else "," + (others + close + rest)
  }

  lemma JoinSplits(first: Option<string>, others: Option<string>, single: bool, close: string, rest: string)
    requires Join(first, others, single).Some?
    ensures Join(first, others, single).value + close + rest == first.value + Rest(others.value, single, close, rest)
    ensures !single ==> Rest(others.value, single, close, rest)[1..] == others.value + close + rest
    ensures single ==> (close + rest)[|close|..] == rest
  {
    if single {
      Regroup(first.value, close, rest);
      TextOpens(close, rest);
    } else {
      var tail := others.value + close + rest;
      FourParts(first.value + ",", others.value, close, rest);
      Regroup(first.value, ",", tail);
      TextOpens(",", tail);
    }
  }

  lemma FourParts(a: string, b: string, c: string, d: string)
    ensures a + b + c + d == a + (b + c + d)
  {
  }

  lemma {:induction false} ItemsReadBack(vs: seq<Value>, rest: string)
    requires PrintItems(vs).Some?
    ensures ReadItems(PrintItems(vs).value + "]" + rest) == Some((EraseItems(vs), rest))
    decreases vs, 1
  {
    if vs == [] {
      assert PrintItems(vs).value + "]" + rest == "]" + rest;
    } else {
      var single := |vs| == 1;
      var after := Rest(PrintItems(vs[1..]).value, single, "]", rest);
      FirstChar(vs[0]);
      JoinSplits(Print(vs[0]), PrintItems(vs[1..]), single, "]", rest);
      ReadsBack(vs[0], after);
      assert (Print(vs[0]).value + after)[0] != ']';
      if single {
        assert EraseItems(vs) == [Erase(vs[0])];
      } else {
        ItemsReadBack(vs[1..], rest);
      }
    }
  }

  lemma {:induction false} PairReadsBack(p: Pair, rest: string)
    requires PrintPair(p).Some?
    ensures ReadPair(PrintPair(p).value + rest) == Some((ErasePair(p), rest))
    decreases p, 3
  {
    var key, value := Print(p.key).value, Print(p.value).value;
    var tail := value + ("]" + rest);
    ReadsBack(p.key, "," + tail);
    ReadsBack(p.value, "]" + rest);
    ReadsPair(key + ("," + tail), Erase(p.key), tail, Erase(p.value), rest);
    PairText(key, value, rest);
  }

  lemma PairText(key: string, value: string, rest: string)
    ensures "[" + (key + "," + value) + "]" + rest == ['['] + (key + ("," + (value + ("]" + rest))))
  {
  }

  lemma ReadsPair(inner: string, key: Value, tail: string, value: Value, rest: string)
    requires Read(inner) == Some((key, "," + tail)) && Read(tail) == Some((value, "]" + rest))
    ensures ReadPair(['['] + inner) == Some((Pair(key, value), rest))
  {
    assert (['['] + inner)[1..] == inner && ("," + tail)[1..] == tail;
    TextOpens("]", rest);
  }

  lemma {:induction false} PairsReadBack(ps: seq<Pair>, rest: string)
    requires PrintPairs(ps).Some?
    ensures ReadPairs(PrintPairs(ps).value + "]" + rest) == Some((ErasePairs(ps), rest))
    decreases ps, 1
  {
    if ps == [] {
      assert PrintPairs(ps).value + "]" + rest == "]" + rest;
    } else {
      var single := |ps| == 1;
      var after := Rest(PrintPairs(ps[1..]).value, single, "]", rest);
      JoinSplits(PrintPair(ps[0]), PrintPairs(ps[1..]), single, "]", rest);
      PairReadsBack(ps[0], after);
      assert (PrintPair(ps[0]).value + after)[0] == '[';
      if single {
        assert ErasePairs(ps) == [ErasePair(ps[0])];
      } else {
        PairsReadBack(ps[1..], rest);
      }
    }
  }

  lemma MemberText(name: string, value: string, rest: string)
    ensures
      var s := Quote(name) + ":" + value + "" + rest;
      s[0] == '\"' && s[1..] == EscapeAll(name) + "\"" + (":" + (value + rest))
  {
  }

  lemma {:induction false} MemberReadsBack(m: Member, rest: string)
    requires PrintMember(m).Some? && Delimited(rest)
    ensures ReadMember(PrintMember(m).value + rest) == Some((EraseMember(m), rest))
    decreases m, 3
  {
    var value := Print(m.value).value;
    var after := ":" + (value + rest);
    MemberText(m.name, value, rest);
    TextRoundTrip(m.name, after);
    assert after[1..] == value + rest;
    ReadsBack(m.value, rest);
    assert rest[0..] == rest;
  }

  lemma {:induction false} MembersReadBack(ms: seq<Member>, rest: string)
    requires PrintMembers(ms).Some?
    ensures ReadMembers(PrintMembers(ms).value + "}" + rest) == Some((EraseMembers(ms), rest))
    decreases ms, 1
  {
    if ms == [] {
      assert PrintMembers(ms).value + "}" + rest == "}" + rest;
    } else {
      var single := |ms| == 1;
      var after := Rest(PrintMembers(ms[1..]).value, single, "}", rest);
      JoinSplits(PrintMember(ms[0]), PrintMembers(ms[1..]), single, "}", rest);
      MemberReadsBack(ms[0], after);
      assert (PrintMember(ms[0]).value + after)[0] == '\"';
      if single {
        assert EraseMembers(ms) == [EraseMember(ms[0])];
      } else {
        MembersReadBack(ms[1..], rest);
      }
    }
  }

  // ---- the value itself, and when it comes back ----

  predicate HasNoPrototype(ms: seq<Member>) {
    forall i :: 0 <= i < |ms| ==> ms[i].name != "__proto__"
  }

  /** At every depth no record has a member named `__proto__`, names are listed as an
      engine lists them, and no `Map` or `Set` has a primitive in it twice. */
  predicate Rebuilds(v: Value)
    decreases v
  {
    match v
    case Arr(items) => forall i :: 0 <= i < |items| ==> Rebuilds(items[i])
    case SetOf(elements) => InOrder(elements, KeySlot) && forall i :: 0 <= i < |elements| ==> Rebuilds(elements[i])
    case Obj(members) =>
      && HasNoPrototype(members) && InOrder(members, MemberSlot)
      && forall i :: 0 <= i < |members| ==> RebuildsMember(members[i])
    case MapOf(entries) => InOrder(entries, PairSlot) && forall i :: 0 <= i < |entries| ==> RebuildsPair(entries[i])
    case Null | Undefined | Func | Bool(_) | Int(_) | Str(_) => true
  }

  predicate RebuildsMember(m: Member)
    decreases m
  {
    Rebuilds(m.value)
  }

  predicate RebuildsPair(p: Pair)
    decreases p
  {
    Rebuilds(p.key) && Rebuilds(p.value)
  }

  lemma {:induction false} ErasedItem(vs: seq<Value>, i: nat)
    requires i < |vs|
    ensures EraseItems(vs)[i] == Erase(vs[i])
  {
    if i > 0 {
      ErasedItem(vs[1..], i - 1);
    }
  }

  lemma {:induction false} ErasedMember(ms: seq<Member>, i: nat)
    requires i < |ms|
    ensures EraseMembers(ms)[i] == EraseMember(ms[i])
  {
    if i > 0 {
      ErasedMember(ms[1..], i - 1);
    }
  }

  lemma {:induction false} ErasedPair(ps: seq<Pair>, i: nat)
    requires i < |ps|
    ensures ErasePairs(ps)[i] == ErasePair(ps[i])
  {
    if i > 0 {
      ErasedPair(ps[1..], i - 1);
    }
  }

  lemma ErasingKeepsSlot(v: Value)
    ensures KeySlot(Erase(v)) == KeySlot(v)
    ensures Primitive(v) ==> Erase(v) == v
  {
  }

  lemma {:induction false} OwnedIsAllIff(ms: seq<Member>)
    ensures HasNoPrototype(ms) ==> Owned(ms) == ms
    ensures !HasNoPrototype(ms) ==> |Owned(ms)| < |ms|
  {
    if ms != [] {
      OwnedIsAllIff(ms[1..]);
      assert ms == [ms[0]] + ms[1..];
      assert HasNoPrototype(ms) <==> ms[0].name != "__proto__" && HasNoPrototype(ms[1..]) by {
        assert forall i :: 1 <= i < |ms| ==> ms[i] == ms[1..][i - 1];
        assert forall i :: 0 <= i < |ms| - 1 ==> ms[1..][i] == ms[i + 1];
      }
    }
  }

  lemma {:induction false} ItemsKeptIff(vs: seq<Value>)
    ensures EraseItems(vs) == vs <==> forall i :: 0 <= i < |vs| ==> Rebuilds(vs[i])
    decreases vs, 0
  {
    forall i | 0 <= i < |vs| ensures EraseItems(vs)[i] == vs[i] <==> Rebuilds(vs[i]) {
      ErasedItem(vs, i);
      ErasesNothingIff(vs[i]);
    }
  }

  lemma {:induction false} MembersKeptIff(ms: seq<Member>)
    ensures EraseMembers(ms) == ms <==> forall i :: 0 <= i < |ms| ==> RebuildsMember(ms[i])
    decreases ms, 0
  {
    forall i | 0 <= i < |ms| ensures EraseMembers(ms)[i] == ms[i] <==> RebuildsMember(ms[i]) {
      ErasedMember(ms, i);
      ErasesNothingIff(ms[i].value);
    }
  }

  lemma {:induction false} PairsKeptIff(ps: seq<Pair>)
    ensures ErasePairs(ps) == ps <==> forall i :: 0 <= i < |ps| ==> RebuildsPair(ps[i])
    decreases ps, 0
  {
    forall i | 0 <= i < |ps| ensures ErasePairs(ps)[i] == ps[i] <==> RebuildsPair(ps[i]) {
      ErasedPair(ps, i);
      PairKeptIff(ps[i]);
    }
  }

  lemma {:induction false} PairKeptIff(p: Pair)
    ensures ErasePair(p) == p <==> RebuildsPair(p)
    decreases p, 1
  {
    ErasesNothingIff(p.key);
    ErasesNothingIff(p.value);
  }

  lemma ElementsBackIff(vs: seq<Value>)
    ensures ElementsOf(EraseItems(vs)) == SetOf(vs) <==> EraseItems(vs) == vs && InOrder(vs, KeySlot)
  {
    forall i | 0 <= i < |vs| ensures KeySlot(EraseItems(vs)[i]) == KeySlot(vs[i]) {
      ErasedItem(vs, i);
      ErasingKeepsSlot(vs[i]);
    }
    RebuiltIff(EraseItems(vs), vs, KeySlot);
  }

  lemma TableBackIff(ps: seq<Pair>)
    ensures TableOf(ErasePairs(ps)) == MapOf(ps) <==> ErasePairs(ps) == ps && InOrder(ps, PairSlot)
  {
    forall i | 0 <= i < |ps| ensures PairSlot(ErasePairs(ps)[i]) == PairSlot(ps[i]) {
      ErasedPair(ps, i);
      ErasingKeepsSlot(ps[i].key);
    }
    RebuiltIff(ErasePairs(ps), ps, PairSlot);
  }

  lemma RecordBackIff(ms: seq<Member>)
    ensures RecordOf(EraseMembers(ms)) == Obj(ms) <==>
            EraseMembers(ms) == ms && HasNoPrototype(ms) && InOrder(ms, MemberSlot)
  {
    var erased := EraseMembers(ms);
    forall i | 0 <= i < |ms| ensures erased[i].name == ms[i].name {
      ErasedMember(ms, i);
    }
    assert HasNoPrototype(erased) <==> HasNoPrototype(ms);
    OwnedIsAllIff(erased);
    BuiltIsNoLonger(Owned(erased), MemberSlot);
    if HasNoPrototype(ms) {
      RebuiltIff(erased, ms, MemberSlot);
    }
  }

  lemma {:induction false} ErasesNothingIff(v: Value)
    ensures Erase(v) == v <==> Rebuilds(v)
    decreases v, 1
  {
    match v
    case Null | Undefined | Func | Bool(_) | Int(_) | Str(_) =>
    case Arr(items) => ItemsKeptIff(items);
    case SetOf(elements) =>
      ItemsKeptIff(elements);
      ElementsBackIff(elements);
    case Obj(members) =>
      MembersKeptIff(members);
      RecordBackIff(members);
    case MapOf(entries) =>
      PairsKeptIff(entries);
      TableBackIff(entries);
  }

  /** The text of a value evaluates to that value, order of entries and all, exactly
      when no record in it has a member named `__proto__`, its names are listed as an
      engine lists them, and no `Map` or `Set` in it has a primitive twice. */
  lemma RoundTripsIff(v: Value)
    requires Print(v).Some?
    ensures Read(Print(v).value) == Some((v, "")) <==> Rebuilds(v)
  {
    ReadsBack(v, "");
    assert Print(v).value + "" == Print(v).value;
    ErasesNothingIff(v);
  }
}
