/** A value as the engine holds it, printed: before anything else, and at every depth,
    an object that has a `toJSON` is asked what it stands for. */
module Serialiser {
  import opened Wrappers
  import opened Tables
  import Literal

  datatype Field = Field(name: string, value: Live)

  datatype Row = Row(key: Live, value: Live)

  /** Objects have an identity, by which a table finds the keys that are objects, and a
      function carries what it answers when it is called. `Written` is a table with
      writes over it that are not applied yet, `Appended` a list with items behind it;
      both have a `toJSON`, and `own` are the fields an engine would list of them. */
  datatype Live =
    | Null
    | Undefined
    | Bool(truth: bool)
    | Int(n: int)
    | Str(text: string)
    | Func(id: nat, answer: Live)
    | Arr(id: nat, items: seq<Live>)
    | Obj(id: nat, fields: seq<Field>)
    | MapOf(id: nat, rows: seq<Row>)
    | SetOf(id: nat, elements: seq<Live>)
    | Written(id: nat, own: seq<Field>, rows: seq<Row>, writes: seq<Row>)
    | Appended(id: nat, own: seq<Field>, items: seq<Live>, added: seq<Live>)

  datatype Identity = Primitive(value: Live) | Object(id: nat)

  function IdentityOf(v: Live): Identity {
    match v
    case Null | Undefined | Bool(_) | Int(_) | Str(_) => Primitive(v)
    case _ => Object(v.id)
  }

  function RowSlot(r: Row): Slot<Identity> {
    Shared(IdentityOf(r.key), 0)
  }

  /** The table that writes over `rows` stand for. */
  function Flat(rows: seq<Row>, writes: seq<Row>): (out: seq<Row>)
    ensures forall r :: r in out ==> r in rows || r in writes
  {
    Built(rows + writes, RowSlot)
  }

  /** It has its keys in the order in which they were first written, those of the table
      underneath before the others, and under each the last value written. */
  lemma FlatIsLastWrites(rows: seq<Row>, writes: seq<Row>)
    ensures Slots(Flat(rows, writes), RowSlot) == Firsts(Slots(rows + writes, RowSlot))
    ensures forall at :: Find(Flat(rows, writes), at, RowSlot) == FindLast(rows + writes, at, RowSlot)
  {
    FirstPlaceLastRow(rows + writes, RowSlot);
  }

  /** The field called `toJSON`, when it is a function. */
  function FindToJson(fields: seq<Field>): (r: Option<nat>)
    ensures r.Some? ==> r.value < |fields| && fields[r.value].value.Func?
  {
    if fields == [] then None
    else if fields[0].name == "toJSON" then (if fields[0].value.Func? then Some(0) else None)
    else match FindToJson(fields[1..]) case None => None case Some(i) => Some(i + 1)
  }

  /** What a record with a `toJSON` answers, or the value itself. */
  function Asked(v: Live): (out: Live)
    ensures out == v || out < v
  {
    if v.Obj? && FindToJson(v.fields).Some? then v.fields[FindToJson(v.fields).value].value.answer else v
  }

  // ---- printing ----

  /** Nothing when the serialiser throws. */
  function Print(v: Live): Option<string>
    decreases v, 2
  {
    match v
    case Written(_, _, rows, writes) => PrintTable(v, Flat(rows, writes))
    case Appended(_, _, items, added) => PrintList(v, items + added)
    case _ => PrintAnswer(Asked(v))
  }

  /** An answer is not asked again: an overlay that is one is listed field by field. */
  function PrintAnswer(v: Live): Option<string>
    decreases v, 1
  {
    match v
    case Undefined | Func(_, _) => None
    case Null => Some("null")
    case Bool(truth) => Some(if truth then "true" else "false")
    case Int(n) => Some(Literal.PrintInt(n))
    case Str(text) => Some(Literal.Quote(text))
    case Arr(_, items) => PrintList(v, items)
    case Obj(_, fields) => PrintRecord(v, fields)
    case MapOf(_, rows) => PrintTable(v, rows)
    case SetOf(_, elements) => Literal.Around("new Set([", PrintItems(v, elements), "])")
    case Written(_, own, _, _) => PrintRecord(v, own)
    case Appended(_, own, _, _) => PrintRecord(v, own)
  }

  function PrintList(ghost whole: Live, items: seq<Live>): Option<string>
    requires forall x :: x in items ==> x < whole
    decreases whole, 0, |items| + 1
  {
    Literal.Around("[", PrintItems(whole, items), "]")
  }

  function PrintRecord(ghost whole: Live, fields: seq<Field>): Option<string>
    requires forall f :: f in fields ==> f.value < whole
    decreases whole, 0, |fields| + 1
  {
    Literal.Around("{", PrintFields(whole, fields), "}")
  }

  function PrintTable(ghost whole: Live, rows: seq<Row>): Option<string>
    requires forall r :: r in rows ==> r.key < whole && r.value < whole
    decreases whole, 0, |rows| + 1
  {
    Literal.Around("new Map([", PrintRows(whole, rows), "])")
  }

  function PrintItems(ghost whole: Live, items: seq<Live>): Option<string>
    requires forall x :: x in items ==> x < whole
    decreases whole, 0, |items|
  {
    if items == [] then Some("")
    else
      assert items[0] in items && forall x :: x in items[1..] ==> x in items;
      Literal.Join(Print(items[0]), PrintItems(whole, items[1..]), |items| == 1)
  }

  function PrintFields(ghost whole: Live, fields: seq<Field>): Option<string>
    requires forall f :: f in fields ==> f.value < whole
    decreases whole, 0, |fields|
  {
    if fields == [] then Some("")
    else
      var first := Literal.Around(Literal.Quote(fields[0].name) + ":", Print(fields[0].value), "");
      Literal.Join(first, PrintFields(whole, fields[1..]), |fields| == 1)
  }

  function PrintRows(ghost whole: Live, rows: seq<Row>): Option<string>
    requires forall r :: r in rows ==> r.key < whole && r.value < whole
    decreases whole, 0, |rows|
  {
    if rows == [] then Some("")
    else
      var first := Literal.Around("[", Literal.Join(Print(rows[0].key), Print(rows[0].value), false), "]");
      Literal.Join(first, PrintRows(whole, rows[1..]), |rows| == 1)
  }

  // ---- what is printed ----

  /** The value with every object that answers replaced by its answer. */
  function Settle(v: Live): Literal.Value
    decreases v, 2
  {
    match v
    case Written(_, _, rows, writes) => Literal.MapOf(SettleRows(v, Flat(rows, writes)))
    case Appended(_, _, items, added) => Literal.Arr(SettleItems(v, items + added))
    case _ => SettleAnswer(Asked(v))
  }

  function SettleAnswer(v: Live): Literal.Value
    decreases v, 1
  {
    match v
    case Undefined => Literal.Undefined
    case Func(_, _) => Literal.Func
    case Null => Literal.Null
    case Bool(truth) => Literal.Bool(truth)
    case Int(n) => Literal.Int(n)
    case Str(text) => Literal.Str(text)
    case Arr(_, items) => Literal.Arr(SettleItems(v, items))
    case Obj(_, fields) => Literal.Obj(SettleFields(v, fields))
    case MapOf(_, rows) => Literal.MapOf(SettleRows(v, rows))
    case SetOf(_, elements) => Literal.SetOf(SettleItems(v, elements))
    case Written(_, own, _, _) => Literal.Obj(SettleFields(v, own))
    case Appended(_, own, _, _) => Literal.Obj(SettleFields(v, own))
  }

  function SettleItems(ghost whole: Live, items: seq<Live>): (out: seq<Literal.Value>)
    requires forall x :: x in items ==> x < whole
    ensures |out| == |items|
    decreases whole, 0, |items|
  {
    if items == [] then []
    else
      assert items[0] in items && forall x :: x in items[1..] ==> x in items;
      [Settle(items[0])] + SettleItems(whole, items[1..])
  }

  function SettleFields(ghost whole: Live, fields: seq<Field>): (out: seq<Literal.Member>)
    requires forall f :: f in fields ==> f.value < whole
    ensures |out| == |fields|
    decreases whole, 0, |fields|
  {
    if fields == [] then []
    else [Literal.Member(fields[0].name, Settle(fields[0].value))] + SettleFields(whole, fields[1..])
  }

  function SettleRows(ghost whole: Live, rows: seq<Row>): (out: seq<Literal.Pair>)
    requires forall r :: r in rows ==> r.key < whole && r.value < whole
    ensures |out| == |rows|
    decreases whole, 0, |rows|
  {
    if rows == [] then []
    else [Literal.Pair(Settle(rows[0].key), Settle(rows[0].value))] + SettleRows(whole, rows[1..])
  }

  /** Element by element, in order. */
  ghost predicate ItemsSettle(items: seq<Live>, out: seq<Literal.Value>) {
    |out| == |items| && forall i :: 0 <= i < |items| ==> out[i] == Settle(items[i])
  }

  ghost predicate FieldsSettle(fields: seq<Field>, out: seq<Literal.Member>) {
    |out| == |fields| &&
    forall i :: 0 <= i < |fields| ==> out[i].name == fields[i].name && out[i].value == Settle(fields[i].value)
  }

  ghost predicate RowsSettle(rows: seq<Row>, out: seq<Literal.Pair>) {
    |out| == |rows| &&
    forall i :: 0 <= i < |rows| ==> out[i].key == Settle(rows[i].key) && out[i].value == Settle(rows[i].value)
  }

  lemma {:induction false} ItemsAre(whole: Live, items: seq<Live>)
    requires forall x :: x in items ==> x < whole
    ensures ItemsSettle(items, SettleItems(whole, items))
    decreases |items|
  {
    if items != [] {
      assert items[0] in items && forall x :: x in items[1..] ==> x in items;
      ItemsAre(whole, items[1..]);
      assert forall i :: 0 < i < |items| ==> items[i] == items[1..][i - 1];
    }
  }

  lemma {:induction false} FieldsAre(whole: Live, fields: seq<Field>)
    requires forall f :: f in fields ==> f.value < whole
    ensures FieldsSettle(fields, SettleFields(whole, fields))
    decreases |fields|
  {
    if fields != [] {
      FieldsAre(whole, fields[1..]);
      assert forall i :: 0 < i < |fields| ==> fields[i] == fields[1..][i - 1];
    }
  }

  lemma {:induction false} RowsAre(whole: Live, rows: seq<Row>)
    requires forall r :: r in rows ==> r.key < whole && r.value < whole
    ensures RowsSettle(rows, SettleRows(whole, rows))
    decreases |rows|
  {
    if rows != [] {
      RowsAre(whole, rows[1..]);
      assert forall i :: 0 < i < |rows| ==> rows[i] == rows[1..][i - 1];
    }
  }

  /** What an answer settles on has the same shape, and in every place what stands there
      settles on. */
  ghost predicate IsSettled(v: Live, out: Literal.Value) {
    match v
    case Undefined => out.Undefined?
    case Func(_, _) => out.Func?
    case Null => out.Null?
    case Bool(truth) => out.Bool? && (out.truth <==> truth)
    case Int(n) => out.Int? && out.n == n
    case Str(text) => out.Str? && out.text == text
    case Arr(_, items) => out.Arr? && ItemsSettle(items, out.items)
    case SetOf(_, elements) => out.SetOf? && ItemsSettle(elements, out.elements)
    case MapOf(_, rows) => out.MapOf? && RowsSettle(rows, out.entries)
    case Obj(_, fields) => out.Obj? && FieldsSettle(fields, out.members)
    case Written(_, own, _, _) => out.Obj? && FieldsSettle(own, out.members)
    case Appended(_, own, _, _) => out.Obj? && FieldsSettle(own, out.members)
  }

  lemma AnswerIsSettled(v: Live)
    ensures IsSettled(v, SettleAnswer(v))
  {
    match v
    case Arr(_, items) => ItemsAre(v, items);
    case SetOf(_, elements) => ItemsAre(v, elements);
    case MapOf(_, rows) => RowsAre(v, rows);
    case Obj(_, fields) => FieldsAre(v, fields);
    case Written(_, own, _, _) => FieldsAre(v, own);
    case Appended(_, own, _, _) => FieldsAre(v, own);
    case _ =>
  }

  /** The first field of that name, when it is a function. */
  ghost predicate AnswersAt(fields: seq<Field>, i: nat) {
    && i < |fields| && fields[i].name == "toJSON" && fields[i].value.Func?
    && forall j :: 0 <= j < i ==> fields[j].name != "toJSON"
  }

  lemma {:induction false} ToJsonIs(fields: seq<Field>)
    ensures forall i: nat :: FindToJson(fields) == Some(i) <==> AnswersAt(fields, i)
  {
    if fields != [] {
      var rest := fields[1..];
      ToJsonIs(rest);
      assert forall i :: 0 < i < |fields| ==> fields[i] == rest[i - 1];
      if fields[0].name != "toJSON" {
        forall i: nat ensures AnswersAt(fields, i) <==> i > 0 && AnswersAt(rest, i - 1) {
        }
      }
    }
  }

  /** A value settles on itself with everything in it settled, but for three kinds: a
      record that answers settles on its answer, an overlay on its table or its list. */
  lemma SettlesInPlace(v: Live)
    ensures
      match v
      case Obj(_, fields) =>
        && (forall i: nat :: AnswersAt(fields, i) ==> IsSettled(fields[i].value.answer, Settle(v)))
        && ((forall i: nat :: !AnswersAt(fields, i)) ==> IsSettled(v, Settle(v)))
      case Written(_, _, rows, writes) => Settle(v).MapOf? && RowsSettle(Flat(rows, writes), Settle(v).entries)
      case Appended(_, _, items, added) => Settle(v).Arr? && ItemsSettle(items + added, Settle(v).items)
      case _ => IsSettled(v, Settle(v))
  {
    match v
    case Obj(_, fields) =>
      ToJsonIs(fields);
      AnswerIsSettled(Asked(v));
    case Written(_, _, rows, writes) => RowsAre(v, Flat(rows, writes));
    case Appended(_, _, items, added) => ItemsAre(v, items + added);
    case _ => AnswerIsSettled(v);
  }

  /** Asking on the way prints what asking first would settle on. */
  lemma {:induction false} PrintsSettled(v: Live)
    ensures Print(v) == Literal.Print(Settle(v))
    decreases v, 2
  {
    match v
    case Written(_, _, rows, writes) => TablePrintsSettled(v, Flat(rows, writes));
    case Appended(_, _, items, added) => ListPrintsSettled(v, items + added);
    case _ => AnswerPrintsSettled(Asked(v));
  }

  lemma {:induction false} AnswerPrintsSettled(v: Live)
    ensures PrintAnswer(v) == Literal.Print(SettleAnswer(v))
    decreases v, 1
  {
    match v
    case Arr(_, items) => ListPrintsSettled(v, items);
    case MapOf(_, rows) => TablePrintsSettled(v, rows);
    case SetOf(_, elements) => ItemsPrintSettled(v, elements);
    case Obj(_, fields) => RecordPrintsSettled(v, fields);
    case Written(_, own, _, _) => RecordPrintsSettled(v, own);
    case Appended(_, own, _, _) => RecordPrintsSettled(v, own);
    case _ => ScalarPrintsSettled(v);
  }

  lemma ScalarPrintsSettled(v: Live)
    requires v.Undefined? || v.Func? || v.Null? || v.Bool? || v.Int? || v.Str?
    ensures PrintAnswer(v) == Literal.Print(SettleAnswer(v))
  {
  }

  lemma {:induction false} TablePrintsSettled(whole: Live, rows: seq<Row>)
    requires forall r :: r in rows ==> r.key < whole && r.value < whole
    ensures PrintTable(whole, rows) == Literal.Print(Literal.MapOf(SettleRows(whole, rows)))
    decreases whole, 0, |rows| + 1
  {
    RowsPrintSettled(whole, rows);
  }

  lemma {:induction false} ListPrintsSettled(whole: Live, items: seq<Live>)
    requires forall x :: x in items ==> x < whole
    ensures PrintList(whole, items) == Literal.Print(Literal.Arr(SettleItems(whole, items)))
    decreases whole, 0, |items| + 1
  {
    ItemsPrintSettled(whole, items);
  }

  lemma {:induction false} RecordPrintsSettled(whole: Live, fields: seq<Field>)
    requires forall f :: f in fields ==> f.value < whole
    ensures PrintRecord(whole, fields) == Literal.Print(Literal.Obj(SettleFields(whole, fields)))
    decreases whole, 0, |fields| + 1
  {
    FieldsPrintSettled(whole, fields);
  }

  lemma {:induction false} ItemsPrintSettled(whole: Live, items: seq<Live>)
    requires forall x :: x in items ==> x < whole
    ensures PrintItems(whole, items) == Literal.PrintItems(SettleItems(whole, items))
    decreases whole, 0, |items|
  {
    if items != [] {
      assert items[0] in items && forall x :: x in items[1..] ==> x in items;
      PrintsSettled(items[0]);
      ItemsPrintSettled(whole, items[1..]);
      assert SettleItems(whole, items)[1..] == SettleItems(whole, items[1..]);
    }
  }

  lemma {:induction false} FieldsPrintSettled(whole: Live, fields: seq<Field>)
    requires forall f :: f in fields ==> f.value < whole
    ensures PrintFields(whole, fields) == Literal.PrintMembers(SettleFields(whole, fields))
    decreases whole, 0, |fields|
  {
    if fields != [] {
      PrintsSettled(fields[0].value);
      FieldsPrintSettled(whole, fields[1..]);
      assert SettleFields(whole, fields)[1..] == SettleFields(whole, fields[1..]);
    }
  }

  lemma {:induction false} RowsPrintSettled(whole: Live, rows: seq<Row>)
    requires forall r :: r in rows ==> r.key < whole && r.value < whole
    ensures PrintRows(whole, rows) == Literal.PrintPairs(SettleRows(whole, rows))
    decreases whole, 0, |rows|
  {
    if rows != [] {
      PrintsSettled(rows[0].key);
      PrintsSettled(rows[0].value);
      RowsPrintSettled(whole, rows[1..]);
      assert SettleRows(whole, rows)[1..] == SettleRows(whole, rows[1..]);
    }
  }

  /** Printing throws exactly when a function or an absent value is somewhere in what
      the value settles on. */
  lemma ThrowsIff(v: Live)
    ensures Print(v).None? <==> Literal.Refused(Settle(v))
  {
    PrintsSettled(v);
    Literal.ThrowsIff(Settle(v));
  }

  /** The printed text evaluates to what the value settles on, order of entries and
      all, exactly when that is rebuilt: no record in it has a member named `__proto__`,
      names are listed as an engine lists them, and no `Map` or `Set` holds a primitive
      twice. */
  lemma RoundTripsIff(v: Live)
    requires Print(v).Some?
    ensures Literal.Read(Print(v).value) == Some((Settle(v), "")) <==> Literal.Rebuilds(Settle(v))
  {
    PrintsSettled(v);
    Literal.RoundTripsIff(Settle(v));
  }

  // ---- overlays ----

  lemma {:induction false} RowsSettleAlike(a: Live, b: Live, rows: seq<Row>)
    requires forall r :: r in rows ==> r.key < a && r.value < a && r.key < b && r.value < b
    ensures SettleRows(a, rows) == SettleRows(b, rows)
    decreases |rows|
  {
    if rows != [] {
      RowsSettleAlike(a, b, rows[1..]);
    }
  }

  lemma {:induction false} ItemsSettleAlike(a: Live, b: Live, items: seq<Live>)
    requires forall x :: x in items ==> x < a && x < b
    ensures SettleItems(a, items) == SettleItems(b, items)
    decreases |items|
  {
    if items != [] {
      assert items[0] in items && forall x :: x in items[1..] ==> x in items;
      ItemsSettleAlike(a, b, items[1..]);
    }
  }

  lemma WrittenSettlesFlat(id: nat, own: seq<Field>, rows: seq<Row>, writes: seq<Row>)
    ensures Settle(Written(id, own, rows, writes)) == Settle(MapOf(id, Flat(rows, writes)))
  {
    var table := Flat(rows, writes);
    var written, flat := Written(id, own, rows, writes), MapOf(id, table);
    RowsSettleAlike(written, flat, table);
    assert Settle(flat) == SettleAnswer(flat);
  }

  lemma AppendedSettlesFlat(id: nat, own: seq<Field>, items: seq<Live>, added: seq<Live>)
    ensures Settle(Appended(id, own, items, added)) == Settle(Arr(id, items + added))
  {
    var whole := items + added;
    var appended, flat := Appended(id, own, items, added), Arr(id, whole);
    ItemsSettleAlike(appended, flat, whole);
    assert Settle(flat) == SettleAnswer(flat);
  }

  lemma SettledAlikePrintAlike(a: Live, b: Live)
    requires Settle(a) == Settle(b)
    ensures Print(a) == Print(b)
  {
    PrintsSettled(a);
    PrintsSettled(b);
  }

  /** An overlay of writes prints, alone or at any depth of another value, as the table it
      stands for, and a list with items behind it as the longer list. */
  lemma OverlaysPrintFlat(id: nat, own: seq<Field>, rows: seq<Row>, writes: seq<Row>,
                          items: seq<Live>, added: seq<Live>)
    ensures Settle(Written(id, own, rows, writes)) == Settle(MapOf(id, Flat(rows, writes)))
    ensures Print(Written(id, own, rows, writes)) == Print(MapOf(id, Flat(rows, writes)))
    ensures Settle(Appended(id, own, items, added)) == Settle(Arr(id, items + added))
    ensures Print(Appended(id, own, items, added)) == Print(Arr(id, items + added))
  {
    WrittenSettlesFlat(id, own, rows, writes);
    AppendedSettlesFlat(id, own, items, added);
    SettledAlikePrintAlike(Written(id, own, rows, writes), MapOf(id, Flat(rows, writes)));
    SettledAlikePrintAlike(Appended(id, own, items, added), Arr(id, items + added));
  }

  /** A record with a `toJSON` prints as what that answers, whatever else is in it. */
  lemma AnswersArePrinted(id: nat, answer: Live, other: nat, before: seq<Field>, after: seq<Field>)
    requires forall i :: 0 <= i < |before| ==> before[i].name != "toJSON"
    ensures Print(Obj(id, before + [Field("toJSON", Func(other, answer))] + after)) == PrintAnswer(answer)
  {
    ToJsonIsFound(before, Field("toJSON", Func(other, answer)), after);
  }

  lemma {:induction false} ToJsonIsFound(before: seq<Field>, f: Field, after: seq<Field>)
    requires forall i :: 0 <= i < |before| ==> before[i].name != "toJSON"
    requires f.name == "toJSON" && f.value.Func?
    ensures FindToJson(before + [f] + after) == Some(|before|)
  {
    var fields := before + [f] + after;
    if before != [] {
      ToJsonIsFound(before[1..], f, after);
      assert fields[1..] == before[1..] + [f] + after;
    }
  }

  // ---- two keys with one answer ----

  lemma TwoRowsSettle(v: Live, a: Row, b: Row)
    requires v.MapOf? && v.rows == [a, b]
    ensures Settle(v) == Literal.MapOf([ Literal.Pair(Settle(a.key), Settle(a.value)),
                                         Literal.Pair(Settle(b.key), Settle(b.value)) ])
  {
    var first := Literal.Pair(Settle(a.key), Settle(a.value));
    var second := Literal.Pair(Settle(b.key), Settle(b.value));
    assert [a, b][1..] == [b] && [b][1..] == [] && SettleRows(v, []) == [];
    assert SettleRows(v, [b]) == [second];
    assert SettleRows(v, [a, b]) == [first] + [second];
    assert Settle(v) == SettleAnswer(v);
  }

  lemma SecondReplacesFirst(name: string, x: Literal.Value, y: Literal.Value)
    ensures
      var ps := [Literal.Pair(Literal.Str(name), x), Literal.Pair(Literal.Str(name), y)];
      Literal.Erase(Literal.MapOf(ps)) == Literal.MapOf([Literal.Pair(Literal.Str(name), Literal.Erase(y))])
  {
    var first, second := Literal.Pair(Literal.Str(name), x), Literal.Pair(Literal.Str(name), y);
    var one, two := Literal.ErasePair(first), Literal.ErasePair(second);
    Literal.ErasingKeepsSlot(Literal.Str(name));
    assert one.key == Literal.Str(name) == two.key && Literal.PairSlot(one) == Shared(Literal.Str(name), 0);
    assert [first, second][1..] == [second] && [second][1..] == [];
    assert Literal.ErasePairs([second]) == [two];
    assert Literal.ErasePairs([first, second]) == [one, two];
    BuiltOfTwo(one, two, Literal.PairSlot);
  }

  /** Of two keys that settle on one text the engine that evaluates the printed table
      keeps one, with the value of the second. */
  lemma RepeatedAnswerIsLost(v: Live, a: Row, b: Row, name: string)
    requires v.MapOf? && v.rows == [a, b] && Print(v).Some?
    requires Settle(a.key) == Literal.Str(name) == Settle(b.key)
    ensures Literal.Read(Print(v).value) ==
            Some((Literal.MapOf([Literal.Pair(Literal.Str(name), Literal.Erase(Settle(b.value)))]), ""))
  {
    TwoRowsSettle(v, a, b);
    SecondReplacesFirst(name, Settle(a.value), Settle(b.value));
    PrintsSettled(v);
    Literal.ReadsBack(Settle(v), "");
    assert Print(v).value + "" == Print(v).value;
  }

  /** Two records, not the same one, that both answer `a`. */
  lemma SameAnswerTwice(a: Live, b: Live)
    requires a == Obj(0, [Field("toJSON", Func(2, Str("a")))]) && b == Obj(1, [Field("toJSON", Func(3, Str("a")))])
    ensures IdentityOf(a) != IdentityOf(b) && Settle(a) == Literal.Str("a") == Settle(b)
    ensures
      var v := MapOf(4, [Row(a, Int(1)), Row(b, Int(2))]);
      && Print(v).Some?
      && Literal.Read(Print(v).value) == Some((Literal.MapOf([Literal.Pair(Literal.Str("a"), Literal.Int(2))]), ""))
  {
    var v := MapOf(4, [Row(a, Int(1)), Row(b, Int(2))]);
    TwoRowsSettle(v, Row(a, Int(1)), Row(b, Int(2)));
    ThrowsIff(v);
    RepeatedAnswerIsLost(v, Row(a, Int(1)), Row(b, Int(2)), "a");
  }
}
