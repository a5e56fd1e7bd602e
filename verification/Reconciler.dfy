/** The keyed list reconciler with a moving cursor: drop what left, then walk the
    new list once, putting every row that is not under the cursor before it. */
module Reconciler {
  import opened Wrappers
  import opened Siblings
  import opened Moves

  /** One mounted row: its key, its root nodes, and the item it shows. */
  datatype Entry<Key, Item> = Entry(key: Key, nodes: seq<NodeId>, item: Item)

  function Flat<Key, Item>(es: seq<Entry<Key, Item>>): seq<NodeId> {
    if es == [] then [] else es[0].nodes + Flat(es[1..])
  }

  function KeysOf<Key, Item>(es: seq<Entry<Key, Item>>): (keys: seq<Key>)
    ensures |keys| == |es|
  {
    seq(|es|, i requires 0 <= i < |es| => es[i].key)
  }

  /** A map iterated in insertion order. */
  function Get<Key(==), Item>(es: seq<Entry<Key, Item>>, key: Key): Option<Entry<Key, Item>> {
    if es == [] then None
    else if es[0].key == key then Some(es[0])
    else Get(es[1..], key)
  }

  function Only<Key(==), Item>(es: seq<Entry<Key, Item>>, keys: set<Key>): seq<Entry<Key, Item>> {
    if es == [] then []
    else if es[0].key in keys then [es[0]] + Only(es[1..], keys)
    else Only(es[1..], keys)
  }

  function Except<Key(==), Item>(es: seq<Entry<Key, Item>>, keys: set<Key>): seq<Entry<Key, Item>> {
    if es == [] then []
    else if es[0].key in keys then Except(es[1..], keys)
    else [es[0]] + Except(es[1..], keys)
  }

  lemma {:induction false} FlatConcat<Key, Item>(a: seq<Entry<Key, Item>>, b: seq<Entry<Key, Item>>)
    ensures Flat(a + b) == Flat(a) + Flat(b)
  {
    if a == [] {
      assert a + b == b;
    } else {
      assert (a + b)[1..] == a[1..] + b;
      FlatConcat(a[1..], b);
    }
  }

  lemma {:induction false} FlatMember<Key, Item>(es: seq<Entry<Key, Item>>, e: Entry<Key, Item>)
    requires e in es
    ensures forall n :: n in e.nodes ==> n in Flat(es)
  {
    if e != es[0] {
      FlatMember(es[1..], e);
    }
  }

  lemma {:induction false} OnlyConcat<Key, Item>(a: seq<Entry<Key, Item>>, b: seq<Entry<Key, Item>>, keys: set<Key>)
    ensures Only(a + b, keys) == Only(a, keys) + Only(b, keys)
  {
    if a == [] {
      assert a + b == b;
    } else {
      assert (a + b)[1..] == a[1..] + b;
      OnlyConcat(a[1..], b, keys);
    }
  }

  lemma {:induction false} GetSpec<Key, Item>(es: seq<Entry<Key, Item>>, key: Key)
    ensures match Get(es, key)
            case Some(e) => e in es && e.key == key
            case None => forall e :: e in es ==> e.key != key
  {
    if es != [] && es[0].key != key {
      GetSpec(es[1..], key);
    }
  }

  lemma {:induction false} ExceptMembers<Key, Item>(es: seq<Entry<Key, Item>>, keys: set<Key>)
    ensures forall e :: e in Except(es, keys) <==> e in es && e.key !in keys
  {
    if es != [] {
      ExceptMembers(es[1..], keys);
    }
  }

  lemma {:induction false} OnlyMembers<Key, Item>(es: seq<Entry<Key, Item>>, keys: set<Key>)
    ensures forall e :: e in Only(es, keys) <==> e in es && e.key in keys
  {
    if es != [] {
      OnlyMembers(es[1..], keys);
    }
  }

  lemma {:induction false} ExceptTwice<Key, Item>(es: seq<Entry<Key, Item>>, a: set<Key>, b: set<Key>)
    ensures Except(Except(es, a), b) == Except(es, a + b)
  {
    if es != [] {
      ExceptTwice(es[1..], a, b);
      if es[0].key !in a {
        var rest := Except(es[1..], a);
        assert ([es[0]] + rest)[1..] == rest;
      }
    }
  }

  lemma {:induction false} ExceptNone<Key, Item>(es: seq<Entry<Key, Item>>)
    ensures Except(es, {}) == es
  {
    if es != [] {
      ExceptNone(es[1..]);
    }
  }

  /** Keys are unique within a mounted list. */
  ghost predicate UniqueKeys<Key(!new), Item(!new)>(es: seq<Entry<Key, Item>>) {
    forall i, j :: 0 <= i < j < |es| ==> es[i].key != es[j].key
  }

  /** Taking one row's nodes out of the flattened list leaves the flattened list
      of the others. */
  lemma {:induction false} FlatMinus<Key(!new), Item(!new)>(es: seq<Entry<Key, Item>>, e: Entry<Key, Item>)
    requires UniqueKeys(es) && Distinct(Flat(es))
    requires e in es || (e.key !in KeysOf(es) && forall n :: n in e.nodes ==> n !in Flat(es))
    ensures Minus(Flat(es), ToSet(e.nodes)) == Flat(Except(es, {e.key}))
  {
    if es != [] {
      var head, tail := es[0], es[1..];
      DistinctParts(head.nodes, Flat(tail));
      MinusConcat(head.nodes, Flat(tail), ToSet(e.nodes));
      if head == e {
        MinusAll(head.nodes, ToSet(e.nodes));
        MinusNone(Flat(tail), ToSet(e.nodes));
        NoSuchKey(tail, e.key);
      } else {
        if e in es {
          FlatMember(tail, e);
          assert e.key != head.key;
        } else {
          assert KeysOf(es)[0] == head.key;
          assert forall i :: 0 <= i < |tail| ==> KeysOf(tail)[i] == KeysOf(es)[i + 1];
        }
        MinusNone(head.nodes, ToSet(e.nodes));
        FlatMinus(tail, e);
      }
    }
  }

  lemma {:induction false} NoSuchKey<Key, Item>(es: seq<Entry<Key, Item>>, key: Key)
    requires forall e :: e in es ==> e.key != key
    ensures Except(es, {key}) == es
  {
    if es != [] {
      NoSuchKey(es[1..], key);
    }
  }

  /** The row under the cursor is the first row left that has any node, so the
      list of what is left opens with all of its nodes. */
  lemma {:induction false} RowUnderCursor<Key(!new), Item(!new)>(es: seq<Entry<Key, Item>>, e: Entry<Key, Item>)
    requires UniqueKeys(es) && Distinct(Flat(es)) && e in es
    requires e.nodes != [] && Flat(es) != [] && Flat(es)[0] == e.nodes[0]
    ensures Flat(es) == e.nodes + Flat(Except(es, {e.key}))
  {
    var head, tail := es[0], es[1..];
    DistinctParts(head.nodes, Flat(tail));
    if head == e {
      NoSuchKey(tail, e.key);
    } else {
      FlatMember(tail, e);
      assert e.nodes[0] in Flat(tail);
      assert head.nodes == [];
      assert Flat(es) == Flat(tail);
      RowUnderCursor(tail, e);
      assert Flat(Except(es, {e.key})) == Flat(Except(tail, {e.key})) by {
        var rest := Except(tail, {e.key});
        assert e.key != head.key;
        assert Except(es, {e.key}) == [head] + rest;
        assert ([head] + rest)[1..] == rest;
      }
    }
  }

  // ---- what the walk inserts ----

  predicate UnderCursor<Key, Item>(rest: seq<Entry<Key, Item>>, e: Entry<Key, Item>) {
    e.nodes != [] && Flat(rest) != [] && Flat(rest)[0] == e.nodes[0]
  }

  /** The nodes of every row that was not under the cursor when its turn came. */
  ghost function Insertions<Key(!new), Item>(kept: seq<Entry<Key, Item>>, next: seq<Entry<Key, Item>>): nat {
    if next == [] then 0
    else
      var last, placed := next[|next| - 1], next[..|next| - 1];
      Insertions(kept, placed)
      + if UnderCursor(Except(kept, ToSet(KeysOf(placed))), last) then 0 else |last.nodes|
  }

  lemma InsertionsStep<Key(!new), Item>(kept: seq<Entry<Key, Item>>, next: seq<Entry<Key, Item>>, e: Entry<Key, Item>)
    ensures Insertions(kept, next + [e]) ==
            Insertions(kept, next) + if UnderCursor(Except(kept, ToSet(KeysOf(next))), e) then 0 else |e.nodes|
  {
    assert (next + [e])[..|next + [e]| - 1] == next;
  }

  function Unmounted<Key(==)>(keys: seq<Key>, had: set<Key>): seq<Key> {
    if keys == [] then []
    else
      var n := |keys| - 1;
      Unmounted(keys[..n], had) + if keys[n] in had then [] else [keys[n]]
  }

  /** A log got, for each key that is listed and not among those to leave out, one more
      entry, and no other. */
  ghost predicate LoggedOnce<Key(!new)>(was: seq<Key>, now: seq<Key>, listed: seq<Key>, except: set<Key>) {
    was <= now && forall k :: multiset(now)[k] == multiset(was)[k] + if k in listed && k !in except then 1 else 0
  }

  /** What a log got from `from` on stands in the order of the list. */
  ghost predicate InListOrder<Key(!new)>(from: nat, now: seq<Key>, listed: seq<Key>) {
    forall i, j, a, b ::
      from <= i < j < |now| && 0 <= a < |listed| && 0 <= b < |listed| && now[i] == listed[a] && now[j] == listed[b]
      ==> a < b
  }

  ghost predicate Logged<Key(!new)>(was: seq<Key>, now: seq<Key>, listed: seq<Key>, except: set<Key>) {
    LoggedOnce(was, now, listed, except) && InListOrder(|was|, now, listed)
  }

  lemma OnceGrows<Key(!new)>(was: seq<Key>, now: seq<Key>, listed: seq<Key>, except: set<Key>, k: Key)
    requires LoggedOnce(was, now, listed, except) && k !in listed
    ensures LoggedOnce(was, if k in except then now else now + [k], listed + [k], except)
  {
    assert forall x :: x in listed + [k] <==> x in listed || x == k;
    assert multiset(now + [k]) == multiset(now) + multiset{k};
  }

  lemma OrderGrows<Key(!new)>(from: nat, now: seq<Key>, listed: seq<Key>, k: Key)
    requires InListOrder(from, now, listed) && from <= |now| && k !in listed
    requires forall i :: from <= i < |now| ==> now[i] in listed
    ensures InListOrder(from, now, listed + [k]) && InListOrder(from, now + [k], listed + [k])
  {
    var more, longer := now + [k], listed + [k];
    assert forall a :: 0 <= a < |listed| ==> longer[a] == listed[a] && listed[a] in listed;
    forall i, j, a, b |
      from <= i < j < |more| && 0 <= a < |longer| && 0 <= b < |longer| && more[i] == longer[a] && more[j] == longer[b]
      ensures a < b
    {
      assert more[i] == now[i] && now[i] in listed;
      if j < |now| {
        assert more[j] == now[j] && now[j] in listed;
      }
    }
  }

  lemma LoggedIsListed<Key(!new)>(was: seq<Key>, now: seq<Key>, listed: seq<Key>, except: set<Key>)
    requires LoggedOnce(was, now, listed, except)
    ensures forall i :: |was| <= i < |now| ==> now[i] in listed
  {
    forall i | |was| <= i < |now| ensures now[i] in listed {
      var k := now[i];
      assert now == was + now[|was|..];
      assert k in now[|was|..];
      assert multiset(now) == multiset(was) + multiset(now[|was|..]);
      assert multiset(now[|was|..])[k] > 0;
    }
  }

  lemma LoggedGrows<Key(!new)>(was: seq<Key>, now: seq<Key>, listed: seq<Key>, except: set<Key>, k: Key)
    requires Logged(was, now, listed, except) && k !in listed
    ensures Logged(was, if k in except then now else now + [k], listed + [k], except)
  {
    LoggedIsListed(was, now, listed, except);
    OnceGrows(was, now, listed, except, k);
    OrderGrows(|was|, now, listed, k);
  }

  lemma UnmountedStep<Key(!new)>(was: seq<Key>, keys: seq<Key>, had: set<Key>)
    requires keys != []
    ensures
      var n := |keys| - 1;
      var now := was + Unmounted(keys[..n], had);
      was + Unmounted(keys, had) == if keys[n] in had then now else now + [keys[n]]
  {
    var n := |keys| - 1;
    Regroup(was, Unmounted(keys[..n], had), if keys[n] in had then [] else [keys[n]]);
  }

  /** Each key that was not mounted is rendered once, in the order of the new list. */
  lemma {:induction false} UnmountedIsLogged<Key(!new)>(was: seq<Key>, keys: seq<Key>, had: set<Key>)
    requires Distinct(keys)
    ensures Logged(was, was + Unmounted(keys, had), keys, had)
  {
    if keys == [] {
      NothingLogged(was, keys, had);
      assert was + [] == was;
    } else {
      var n := |keys| - 1;
      UnmountedIsLogged(was, keys[..n], had);
      UnmountedGrows(was, keys[..n], keys[n], keys, had);
    }
  }

  lemma NothingLogged<Key(!new)>(was: seq<Key>, listed: seq<Key>, except: set<Key>)
    requires listed == []
    ensures Logged(was, was, listed, except)
  {
  }

  lemma UnmountedGrows<Key(!new)>(was: seq<Key>, front: seq<Key>, k: Key, keys: seq<Key>, had: set<Key>)
    requires |keys| > 0 && front == keys[..|keys| - 1] && k == keys[|keys| - 1] && Distinct(keys)
    requires Logged(was, was + Unmounted(front, had), front, had)
    ensures Logged(was, was + Unmounted(keys, had), keys, had)
  {
    PrefixGrows(keys, |keys| - 1);
    WholePrefix(keys);
    UnmountedStep(was, keys, had);
    assert k !in front;
    LoggedGrows(was, was + Unmounted(front, had), front, had, k);
  }

  lemma {:induction false} KeptOutKeys<Key(!new), Item(!new)>(es: seq<Entry<Key, Item>>, live: set<Key>)
    ensures KeysOf(Except(es, live)) == Unmounted(KeysOf(es), live)
  {
    if es == [] {
      assert KeysOf(es) == [];
    } else {
      var n := |es| - 1;
      KeptOutKeys(es[..n], live);
      assert es == es[..n] + [es[n]] && KeysOf(es)[..n] == KeysOf(es[..n]);
      ExceptConcat(es[..n], [es[n]], live);
      assert KeysOf(Except(es[..n], live) + [es[n]]) == KeysOf(Except(es[..n], live)) + [es[n].key];
      assert [es[n]][1..] == [];
      assert Except(es[..n], live) + [] == Except(es[..n], live);
    }
  }

  /** Each row whose key is gone is disposed of once, in the order they were mounted. */
  lemma DroppedIsLogged<Key(!new), Item(!new)>(was: seq<Key>, es: seq<Entry<Key, Item>>, live: set<Key>)
    requires UniqueKeys(es)
    ensures Logged(was, was + KeysOf(Except(es, live)), KeysOf(es), live)
  {
    KeptOutKeys(es, live);
    forall i, j | 0 <= i < j < |es| ensures KeysOf(es)[i] != KeysOf(es)[j] {
      assert es[i].key != es[j].key;
    }
    UnmountedIsLogged(was, KeysOf(es), live);
  }

  lemma KeysOfAppend<Key, Item>(next: seq<Entry<Key, Item>>, e: Entry<Key, Item>)
    ensures KeysOf(next + [e]) == KeysOf(next) + [e.key]
  {
  }

  lemma {:induction false} UniqueOnly<Key(!new), Item(!new)>(es: seq<Entry<Key, Item>>, keys: set<Key>)
    requires UniqueKeys(es)
    ensures UniqueKeys(Only(es, keys)) && UniqueKeys(Except(es, keys))
  {
    if es != [] {
      UniqueOnly(es[1..], keys);
      OnlyMembers(es[1..], keys);
      ExceptMembers(es[1..], keys);
    }
  }

  class Region<Key(!new,==), Item(!new)> {
    const start: NodeId
    const end: NodeId
    const keyOf: (Item, nat) -> Key
    /** How many root nodes rendering an item yields. */
    const rootsOf: Item -> nat

    /** Every child of the parent, in order. */
    var siblings: seq<NodeId>
    var mounted: seq<Entry<Key, Item>>
    var nextId: NodeId

    var insertions: nat
    var removals: nat
    var rendered: seq<Key>
    var disposed: seq<Key>

    ghost var before: seq<NodeId>
    ghost var after: seq<NodeId>

    ghost function Around(inner: seq<NodeId>): seq<NodeId>
      reads this
    {
      before + [start] + inner + [end] + after
    }

    ghost predicate WellPlaced() reads this {
      Distinct(siblings) && forall n :: n in siblings ==> n < nextId
    }

    ghost predicate Valid()
      reads this
    {
      WellPlaced() && UniqueKeys(mounted) && siblings == Around(Flat(mounted))
    }

    /** An empty region between two anchors that are already in the document. */
    constructor (start: NodeId, end: NodeId, keyOf: (Item, nat) -> Key, rootsOf: Item -> nat,
                 left: seq<NodeId>, right: seq<NodeId>, nextId: NodeId)
      requires Distinct(left + [start] + [end] + right)
      requires forall n :: n in left + [start] + [end] + right ==> n < nextId
      ensures Valid() && mounted == [] && before == left && after == right
      ensures siblings == left + [start] + [end] + right
    {
      this.start, this.end, this.keyOf, this.rootsOf := start, end, keyOf, rootsOf;
      siblings, mounted, this.nextId := left + [start] + [end] + right, [], nextId;
      insertions, removals, rendered, disposed := 0, 0, [], [];
      before, after := left, right;
      new;
      assert left + [start] + [] + [end] + right == siblings;
    }

    function KeysFor(items: seq<Item>): (keys: seq<Key>)
      ensures |keys| == |items|
    {
      seq(|items|, i requires 0 <= i < |items| => keyOf(items[i], i))
    }

    method InsertBefore(n: NodeId, child: NodeId)
      modifies this`siblings, this`insertions
      ensures siblings == Inserted(old(siblings), n, child) && insertions == old(insertions) + 1
    {
      siblings := Inserted(siblings, n, child);
      insertions := insertions + 1;
    }

    /** Puts a row's nodes, one by one, before the cursor. */
    method InsertRow(moving: seq<NodeId>, cursor: NodeId, ghost a: seq<NodeId>, ghost b: seq<NodeId>)
      requires siblings == a + b && Distinct(siblings) && b != [] && b[0] == cursor
      requires Distinct(moving) && cursor !in moving && forall n :: n in moving ==> n !in a
      modifies this`siblings, this`insertions
      ensures siblings == a + moving + Minus(b, ToSet(moving)) && Distinct(siblings)
      ensures forall n :: n in siblings ==> n in old(siblings) || n in moving
      ensures insertions == old(insertions) + |moving|
    {
      MinusNone(b, {});
      DistinctParts(a, b);
      assert b[0] in b;
      assert ToSet(moving[..0]) == {};
      for k := 0 to |moving|
        invariant siblings == a + moving[..k] + Minus(b, ToSet(moving[..k]))
        invariant insertions == old(insertions) + k
      {
        InsertStep(a, moving, k, b);
        InsertBefore(moving[k], cursor);
      }
      assert moving[..|moving|] == moving;
      PlacedIsDistinct(a, moving, b);
      MinusMembers(b, ToSet(moving));
    }

    /** Takes a dropped row's nodes out, one by one, and disposes of it. */
    method DropRow(e: Entry<Key, Item>)
      requires Valid() && e in mounted
      modifies this`siblings, this`mounted, this`removals, this`disposed
      ensures Valid() && mounted == Except(old(mounted), {e.key})
      ensures removals == old(removals) + |e.nodes| && disposed == old(disposed) + [e.key]
    {
      ghost var was := siblings;
      TakeOut(e.nodes);
      MinusMembers(was, ToSet(e.nodes));
      assert was == (before + [start]) + Flat(mounted) + ([end] + after);
      AroundMinus(before + [start], mounted, e, [end] + after);
      disposed := disposed + [e.key];
      UniqueOnly(mounted, {e.key});
      mounted := Except(mounted, {e.key});
    }

    method TakeOut(nodes: seq<NodeId>)
      modifies this`siblings, this`removals
      ensures siblings == Minus(old(siblings), ToSet(nodes))
      ensures removals == old(removals) + |nodes|
    {
      MinusNone(siblings, {});
      assert ToSet(nodes[..0]) == {};
      for k := 0 to |nodes|
        invariant siblings == Minus(old(siblings), ToSet(nodes[..k]))
        invariant removals == old(removals) + k
      {
        MinusTwice(old(siblings), ToSet(nodes[..k]), {nodes[k]});
        assert ToSet(nodes[..k]) + {nodes[k]} == ToSet(nodes[..k + 1]);
        siblings := Minus(siblings, {nodes[k]});
        removals := removals + 1;
      }
      assert nodes[..|nodes|] == nodes;
    }

    /** Pass 2: every row whose key is gone is removed and disposed of. */
    method DropRows(live: set<Key>)
      requires Valid()
      modifies this`siblings, this`mounted, this`removals, this`disposed
      ensures Valid() && mounted == Only(old(mounted), live)
      ensures disposed == old(disposed) + KeysOf(Except(old(mounted), live))
      ensures removals == old(removals) + |Flat(Except(old(mounted), live))|
    {
      var was := mounted;
      assert was[..0] == [] && was[0..] == was && Only(was[..0], live) + was[0..] == was;
      for i := 0 to |was|
        invariant Valid() && mounted == Only(was[..i], live) + was[i..]
        invariant disposed == old(disposed) + KeysOf(Except(was[..i], live))
        invariant removals == old(removals) + |Flat(Except(was[..i], live))|
      {
        if was[i].key in live {
          KeepStep(was, live, i);
        } else {
          DropStep(was, live, i);
          DropRow(was[i]);
        }
      }
      NothingToVisit(was, live);
    }

    /** Pass 1: the keys, or nothing when two are the same. */
    method CollectKeys(items: seq<Item>) returns (duplicate: bool, keys: seq<Key>)
      ensures duplicate <==> !Distinct(KeysFor(items))
      ensures !duplicate ==> keys == KeysFor(items)
    {
      keys := [];
      var live: set<Key> := {};
      for i := 0 to |items|
        invariant keys == KeysFor(items)[..i] && live == ToSet(keys) && Distinct(keys)
      {
        var key := keyOf(items[i], |keys|);
        assert KeysFor(items)[i] == key;
        if key in live {
          return true, keys;
        }
        live := live + {key};
        keys := keys + [key];
      }
      duplicate := false;
    }

    /** Where the walk stands: `next` is placed, `rest` is what is left of the
        old rows, and the cursor is the first node after what is placed. */
    ghost predicate Walking(next: seq<Entry<Key, Item>>, rest: seq<Entry<Key, Item>>, cursor: Option<NodeId>)
      reads this
    {
      && WellPlaced()
      && siblings == Placed(next) + Left(rest)
      && UniqueKeys(rest)
      && cursor == Some(Left(rest)[0])
    }

    ghost function Placed(next: seq<Entry<Key, Item>>): seq<NodeId>
      reads this
    {
      before + [start] + Flat(next)
    }

    ghost function Left(rest: seq<Entry<Key, Item>>): seq<NodeId>
      reads this
    {
      Flat(rest) + ([end] + after)
    }

    /** Rendering: fresh root nodes, one call. */
    method Render(item: Item, key: Key) returns (nodes: seq<NodeId>)
      modifies this`nextId, this`rendered
      ensures |nodes| == rootsOf(item) && Distinct(nodes)
      ensures forall n :: n in nodes ==> old(nextId) <= n < nextId
      ensures nextId >= old(nextId) && rendered == old(rendered) + [key]
    {
      var first := nextId;
      nodes := seq(rootsOf(item), i => first + i);
      nextId := nextId + rootsOf(item);
      rendered := rendered + [key];
    }

    lemma PlacedGrows(next: seq<Entry<Key, Item>>, e: Entry<Key, Item>)
      ensures Placed(next + [e]) == Placed(next) + e.nodes
    {
      FlatConcat(next, [e]);
      assert Flat([e]) == e.nodes;
    }

    /** One turn of the walk: the row goes where the cursor is. */
    method PlaceRow(e: Entry<Key, Item>, ghost next: seq<Entry<Key, Item>>, ghost rest: seq<Entry<Key, Item>>,
                    from: Option<NodeId>) returns (cursor: Option<NodeId>)
      requires Walking(next, rest, from) && Distinct(e.nodes)
      requires Survives(rest, e) || Arrives(rest, e, siblings)
      requires forall n :: n in e.nodes ==> n < nextId
      modifies this`siblings, this`insertions
      ensures Walking(next + [e], Except(rest, {e.key}), cursor)
      ensures insertions == old(insertions) + if UnderCursor(rest, e) then 0 else |e.nodes|
    {
      ghost var right := [end] + after;
      PlacedGrows(next, e);
      UniqueOnly(rest, {e.key});
      cursor := from;
      if e.nodes == [] || cursor != Some(e.nodes[0]) {
        NotUnderCursor(Placed(next), rest, right, e, siblings);
        InsertRow(e.nodes, cursor.value, Placed(next), Left(rest));
        KeepsCursor(Left(rest), ToSet(e.nodes));
      } else {
        IsUnderCursor(Placed(next), rest, right, e, siblings);
        AfterRow(Placed(next), e.nodes, Left(Except(rest, {e.key})));
        cursor := NextSibling(siblings, e.nodes[|e.nodes| - 1]);
      }
    }

    /** Pass 3: the walk. */
    method PlaceRows(items: seq<Item>, keys: seq<Key>) returns (next: seq<Entry<Key, Item>>)
      requires Valid() && |keys| == |items| && Distinct(keys)
      modifies this`siblings, this`nextId, this`insertions, this`rendered
      ensures WellPlaced() && siblings == Placed(next) + Left(Except(mounted, ToSet(keys)))
      ensures nextId >= old(nextId) && Rows(mounted, items, keys, rootsOf, old(nextId), next)
      ensures rendered == old(rendered) + Unmounted(keys, ToSet(KeysOf(mounted)))
      ensures insertions == old(insertions) + Insertions(mounted, next)
    {
      next := [];
      var cursor := NextSibling(siblings, start);
      ghost var started, paid, logged := nextId, insertions, rendered;
      StartsAtFirstRow();
      assert ToSet(keys[..0]) == {} && keys[..0] == [] && items[..0] == [];
      for i := 0 to |items|
        invariant Walking(next, Except(mounted, ToSet(keys[..i])), cursor)
        invariant nextId >= started && NodesBelow(mounted, started)
        invariant Rows(mounted, items[..i], keys[..i], rootsOf, started, next)
        invariant rendered == logged + Unmounted(keys[..i], ToSet(KeysOf(mounted)))
        invariant insertions == paid + Insertions(mounted, next) && KeysOf(next) == keys[..i]
      {
        var entry;
        entry, cursor := Turn(items[i], keys[i], next, keys[..i], cursor, logged);
        InsertionsStep(mounted, next, entry);
        RowsStep(mounted, items, keys, i, rootsOf, started, next, entry);
        PrefixGrows(keys, i);
        next := next + [entry];
      }
      WholePrefix(keys);
      WholePrefix(items);
    }

    /** The row for one item: the mounted one showing the item, or a new one. */
    method Obtain(item: Item, key: Key, ghost done: seq<Key>, ghost logged: seq<Key>)
        returns (entry: Entry<Key, Item>)
      requires UniqueKeys(mounted) && NodesBelow(mounted, nextId)
      requires rendered == logged + Unmounted(done, ToSet(KeysOf(mounted)))
      modifies this`nextId, this`rendered
      ensures entry.key == key && entry.item == item && nextId >= old(nextId)
      ensures forall n :: n in entry.nodes ==> n < nextId
      ensures forall w :: w in mounted && w.key == key ==> w == entry.(item := w.item)
      ensures key in KeysOf(mounted) ==> exists w :: w in mounted && w.key == key
      ensures key !in KeysOf(mounted) ==>
                && |entry.nodes| == rootsOf(item) && Distinct(entry.nodes)
                && forall n :: n in entry.nodes ==> n >= old(nextId)
      ensures rendered == logged + Unmounted(done + [key], ToSet(KeysOf(mounted)))
    {
      assert (done + [key])[..|done|] == done;
      var had := Get(mounted, key);
      GetSpec(mounted, key);
      LookedUp(mounted, key, {});
      if had.None? {
        var nodes := Render(item, key);
        entry := Entry(key, nodes, item);
      } else {
        entry := had.value.(item := item);
      }
    }

    /** One turn: the row is obtained and put in its place. */
    method Turn(item: Item, key: Key, ghost next: seq<Entry<Key, Item>>, ghost done: seq<Key>, from: Option<NodeId>,
                ghost logged: seq<Key>)
        returns (entry: Entry<Key, Item>, cursor: Option<NodeId>)
      requires Walking(next, Except(mounted, ToSet(done)), from) && UniqueKeys(mounted) && NodesBelow(mounted, nextId)
      requires key !in done && rendered == logged + Unmounted(done, ToSet(KeysOf(mounted)))
      modifies this`siblings, this`nextId, this`insertions, this`rendered
      ensures Walking(next + [entry], Except(mounted, ToSet(done + [key])), cursor)
      ensures entry.key == key && entry.item == item && nextId >= old(nextId)
      ensures forall w :: w in mounted && w.key == key ==> entry.nodes == w.nodes
      ensures key !in KeysOf(mounted) ==>
                |entry.nodes| == rootsOf(item) && forall n :: n in entry.nodes ==> n >= old(nextId)
      ensures rendered == logged + Unmounted(done + [key], ToSet(KeysOf(mounted)))
      ensures insertions ==
              old(insertions) + if UnderCursor(Except(mounted, ToSet(done)), entry) then 0 else |entry.nodes|
    {
      ghost var rest := Except(mounted, ToSet(done));
      entry := Obtain(item, key, done, logged);
      assert ToSet(done + [key]) == ToSet(done) + {key};
      ExceptTwice(mounted, ToSet(done), {key});
      LookedUp(mounted, key, ToSet(done));
      if key in KeysOf(mounted) {
        NodesOfMember(Placed(next), rest, Get(mounted, key).value);
        ExceptMembers(mounted, ToSet(done));
        assert Survives(rest, entry);
      } else {
        assert Arrives(rest, entry, siblings);
      }
      cursor := PlaceRow(entry, next, rest, from);
    }

    lemma NodesOfMember(a: seq<NodeId>, rest: seq<Entry<Key, Item>>, e: Entry<Key, Item>)
      requires Distinct(siblings) && e in rest && siblings == a + Left(rest)
      ensures Distinct(e.nodes)
    {
      DistinctParts(a, Left(rest));
      DistinctParts(Flat(rest), [end] + after);
      NodesDistinct(rest, e);
    }

    /** Shows a new list of items, or throws on a duplicate key with nothing changed. */
    method Update(items: seq<Item>) returns (thrown: bool)
      requires Valid()
      modifies this
      ensures Valid() && before == old(before) && after == old(after)
      ensures thrown <==> !Distinct(KeysFor(items))
      ensures thrown ==>
                && siblings == old(siblings) && mounted == old(mounted) && nextId == old(nextId)
                && insertions == old(insertions) && removals == old(removals)
                && rendered == old(rendered) && disposed == old(disposed)
      ensures !thrown ==> Rows(old(mounted), items, KeysFor(items), rootsOf, old(nextId), mounted)
      ensures !thrown ==>
                var gone := Except(old(mounted), ToSet(KeysFor(items)));
                && disposed == old(disposed) + KeysOf(gone)
                && removals == old(removals) + |Flat(gone)|
                && forall n :: n in Flat(gone) ==> n !in siblings
      ensures !thrown ==> rendered == old(rendered) + Unmounted(KeysFor(items), ToSet(KeysOf(old(mounted))))
      ensures !thrown ==>
                && |mounted| == |items|
                && (forall i :: 0 <= i < |items| ==> mounted[i].key == keyOf(items[i], i))
                && Logged(old(rendered), rendered, KeysOf(mounted), ToSet(KeysOf(old(mounted))))
                && Logged(old(disposed), disposed, KeysOf(old(mounted)), ToSet(KeysOf(mounted)))
      ensures !thrown ==>
                insertions == old(insertions) + Insertions(Only(old(mounted), ToSet(KeysFor(items))), mounted)
      ensures !thrown && SingleRoots(old(mounted)) && (forall i :: 0 <= i < |items| ==> rootsOf(items[i]) == 1) ==>
                insertions == old(insertions) + MoveCount(KeysOf(old(mounted)), KeysFor(items))
    {
      var duplicate, keys := CollectKeys(items);
      if duplicate {
        return true;
      }
      thrown := false;
      Show(items, keys);
    }

    method Show(items: seq<Item>, keys: seq<Key>)
      requires Valid() && |keys| == |items| && Distinct(keys)
      modifies this`siblings, this`mounted, this`nextId, this`insertions, this`removals, this`rendered, this`disposed
      ensures Valid() && Rows(old(mounted), items, keys, rootsOf, old(nextId), mounted) && KeysOf(mounted) == keys
      ensures disposed == old(disposed) + KeysOf(Except(old(mounted), ToSet(keys)))
      ensures removals == old(removals) + |Flat(Except(old(mounted), ToSet(keys)))|
      ensures forall n :: n in Flat(Except(old(mounted), ToSet(keys))) ==> n !in siblings
      ensures rendered == old(rendered) + Unmounted(keys, ToSet(KeysOf(old(mounted))))
      ensures Logged(old(rendered), rendered, KeysOf(mounted), ToSet(KeysOf(old(mounted))))
      ensures Logged(old(disposed), disposed, KeysOf(old(mounted)), ToSet(KeysOf(mounted)))
      ensures insertions == old(insertions) + Insertions(Only(old(mounted), ToSet(keys)), mounted)
      ensures SingleRoots(old(mounted)) && (forall i :: 0 <= i < |items| ==> rootsOf(items[i]) == 1) ==>
                insertions == old(insertions) + MoveCount(KeysOf(old(mounted)), keys)
    {
      PartsOfRegion();
      StartsAtFirstRow();
      ghost var was, fresh_ := mounted, nextId;
      Reconcile(items, keys);
      LogsOfUpdate(was, items, keys, rootsOf, fresh_, mounted, old(rendered), old(disposed));
      if SingleRoots(was) && (forall i :: 0 <= i < |items| ==> rootsOf(items[i]) == 1) {
        SingleRootCost(was, items, keys, rootsOf, fresh_, mounted);
      }
    }

    /** Passes 2 and 3. */
    method Reconcile(items: seq<Item>, keys: seq<Key>)
      requires Valid() && |keys| == |items| && Distinct(keys)
      modifies this`siblings, this`mounted, this`nextId, this`insertions, this`removals, this`rendered, this`disposed
      ensures Valid() && Rows(old(mounted), items, keys, rootsOf, old(nextId), mounted)
      ensures disposed == old(disposed) + KeysOf(Except(old(mounted), ToSet(keys)))
      ensures removals == old(removals) + |Flat(Except(old(mounted), ToSet(keys)))|
      ensures forall n :: n in Flat(Except(old(mounted), ToSet(keys))) ==> n !in siblings
      ensures rendered == old(rendered) + Unmounted(keys, ToSet(KeysOf(old(mounted))))
      ensures insertions == old(insertions) + Insertions(Only(old(mounted), ToSet(keys)), mounted)
    {
      ghost var was, fresh_ := mounted, nextId;
      StartsAtFirstRow();
      PartsOfRegion();
      DropRows(ToSet(keys));
      OnlyLeavesNothing(was, ToSet(keys));
      MountRows(items, keys);
      SurvivorsDecide(was, items, keys, rootsOf, fresh_, mounted);
      GoneForGood(was, items, keys, rootsOf, fresh_, mounted);
    }

    /** Pass 3 once every dropped row is out: the placed rows become the mounted ones. */
    method MountRows(items: seq<Item>, keys: seq<Key>)
      requires Valid() && |keys| == |items| && Distinct(keys) && Except(mounted, ToSet(keys)) == []
      modifies this`siblings, this`mounted, this`nextId, this`insertions, this`rendered
      ensures Valid() && Rows(old(mounted), items, keys, rootsOf, old(nextId), mounted)
      ensures rendered == old(rendered) + Unmounted(keys, ToSet(KeysOf(old(mounted))))
      ensures insertions == old(insertions) + Insertions(old(mounted), mounted)
    {
      var next := PlaceRows(items, keys);
      UniqueFromKeys(next, keys);
      NothingLeft(next);
      mounted := next;
    }

    lemma NothingLeft(next: seq<Entry<Key, Item>>)
      ensures Placed(next) + Left([]) == Around(Flat(next))
    {
      assert Left([]) == [end] + after;
    }

    lemma PartsOfRegion()
      requires Valid()
      ensures Distinct(Flat(mounted))
      ensures forall n :: n in Flat(mounted) ==> n !in before && n != start && n != end && n !in after
    {
      assert siblings == (before + [start]) + (Flat(mounted) + ([end] + after));
      DistinctParts(before + [start], Flat(mounted) + ([end] + after));
      DistinctParts(Flat(mounted), [end] + after);
      forall n | n in Flat(mounted) ensures n !in before && n != start && n != end && n !in after {
        assert n in Flat(mounted) + ([end] + after);
        assert start in before + [start] && end in [end] + after;
      }
    }

    lemma StartsAtFirstRow()
      requires Valid()
      ensures Walking([], Except(mounted, {}), NextSibling(siblings, start))
      ensures NodesBelow(mounted, nextId)
    {
      ExceptNone(mounted);
      assert siblings == before + ([start] + Left(mounted));
      DistinctParts(before, [start] + Left(mounted));
      assert start in [start] + Left(mounted);
      assert siblings == before + [start] + Left(mounted);
      NextSiblingSplit(before, start, Left(mounted));
      assert Placed([]) == before + [start];
      forall w, n | w in mounted && n in w.nodes ensures n < nextId {
        FlatMember(mounted, w);
        assert n in siblings;
      }
    }
  }

  ghost predicate SingleRoots<Key, Item>(es: seq<Entry<Key, Item>>) {
    forall e :: e in es ==> |e.nodes| == 1
  }

  lemma {:induction false} UnmountedSame<Key(!new)>(keys: seq<Key>, a: set<Key>, b: set<Key>)
    requires forall k :: k in keys ==> (k in a <==> k in b)
    ensures Unmounted(keys, a) == Unmounted(keys, b)
  {
    if keys != [] {
      UnmountedSame(keys[..|keys| - 1], a, b);
    }
  }

  lemma KeyHolder<Key(!new), Item(!new)>(es: seq<Entry<Key, Item>>, key: Key)
    ensures key in KeysOf(es) <==> exists w :: w in es && w.key == key
  {
    if key in KeysOf(es) {
      var i :| 0 <= i < |es| && KeysOf(es)[i] == key;
      assert es[i] in es;
    }
    if w :| w in es && w.key == key {
      var i :| 0 <= i < |es| && es[i] == w;
      assert KeysOf(es)[i] == key;
    }
  }

  /** For the keys of the new list it makes no difference whether one asks the old
      rows or the surviving ones. */
  lemma SurvivorsDecide<Key(!new), Item(!new)>(
      was: seq<Entry<Key, Item>>, items: seq<Item>, keys: seq<Key>, rootsOf: Item -> nat, fresh_: NodeId,
      next: seq<Entry<Key, Item>>)
    requires |keys| == |items| && Rows(Only(was, ToSet(keys)), items, keys, rootsOf, fresh_, next)
    ensures Rows(was, items, keys, rootsOf, fresh_, next)
    ensures Unmounted(keys, ToSet(KeysOf(Only(was, ToSet(keys))))) == Unmounted(keys, ToSet(KeysOf(was)))
  {
    OnlyMembers(was, ToSet(keys));
    forall k | k in keys ensures k in KeysOf(was) <==> k in KeysOf(Only(was, ToSet(keys))) {
      KeyHolder(was, k);
      KeyHolder(Only(was, ToSet(keys)), k);
    }
    UnmountedSame(keys, ToSet(KeysOf(Only(was, ToSet(keys)))), ToSet(KeysOf(was)));
  }

  lemma {:induction false} OnlyLeavesNothing<Key(!new), Item(!new)>(es: seq<Entry<Key, Item>>, keys: set<Key>)
    ensures Except(Only(es, keys), keys) == []
  {
    if es != [] {
      OnlyLeavesNothing(es[1..], keys);
      if es[0].key in keys {
        var rest := Only(es[1..], keys);
        assert ([es[0]] + rest)[1..] == rest;
      }
    }
  }

  lemma {:induction false} FlatOwner<Key(!new), Item(!new)>(es: seq<Entry<Key, Item>>, n: NodeId)
      returns (owner: Entry<Key, Item>)
    requires n in Flat(es)
    ensures owner in es && n in owner.nodes
  {
    if n in es[0].nodes {
      owner := es[0];
    } else {
      owner := FlatOwner(es[1..], n);
    }
  }

  lemma {:induction false} OneOwner<Key(!new), Item(!new)>(
      es: seq<Entry<Key, Item>>, a: Entry<Key, Item>, b: Entry<Key, Item>, n: NodeId)
    requires Distinct(Flat(es)) && a in es && b in es && n in a.nodes && n in b.nodes
    ensures a == b
  {
    DistinctParts(es[0].nodes, Flat(es[1..]));
    if a in es[1..] { FlatMember(es[1..], a); }
    if b in es[1..] { FlatMember(es[1..], b); }
    if a in es[1..] && b in es[1..] {
      OneOwner(es[1..], a, b, n);
    }
  }

  /** A dropped row's nodes are among the old ones and not among the new. */
  lemma GoneForGood<Key(!new), Item(!new)>(
      was: seq<Entry<Key, Item>>, items: seq<Item>, keys: seq<Key>, rootsOf: Item -> nat, fresh_: NodeId,
      next: seq<Entry<Key, Item>>)
    requires |keys| == |items| && Rows(was, items, keys, rootsOf, fresh_, next)
    requires Distinct(Flat(was)) && NodesBelow(was, fresh_)
    ensures forall n :: n in Flat(Except(was, ToSet(keys))) ==> n in Flat(was) && n !in Flat(next)
  {
    var gone := Except(was, ToSet(keys));
    ExceptMembers(was, ToSet(keys));
    forall n | n in Flat(gone) ensures n in Flat(was) && n !in Flat(next) {
      var a := FlatOwner(gone, n);
      FlatMember(was, a);
      if n in Flat(next) {
        var b := FlatOwner(next, n);
        var i :| 0 <= i < |next| && next[i] == b;
        KeyHolder(was, keys[i]);
        if w :| w in was && w.key == keys[i] {
          OneOwner(was, a, w, n);
        }
      }
    }
  }

  lemma UniqueFromKeys<Key(!new), Item(!new)>(next: seq<Entry<Key, Item>>, keys: seq<Key>)
    requires |next| == |keys| && Distinct(keys) && forall i :: 0 <= i < |next| ==> next[i].key == keys[i]
    ensures UniqueKeys(next)
  {
  }

  lemma RowsStep<Key(!new), Item(!new)>(
      was: seq<Entry<Key, Item>>, items: seq<Item>, keys: seq<Key>, i: nat, rootsOf: Item -> nat, fresh_: NodeId,
      next: seq<Entry<Key, Item>>, entry: Entry<Key, Item>)
    requires |keys| == |items| && i < |items|
    requires Rows(was, items[..i], keys[..i], rootsOf, fresh_, next) && KeysOf(next) == keys[..i]
    requires entry.key == keys[i] && entry.item == items[i]
    requires forall w :: w in was && w.key == keys[i] ==> entry.nodes == w.nodes
    requires keys[i] !in KeysOf(was) ==>
               |entry.nodes| == rootsOf(items[i]) && forall n :: n in entry.nodes ==> n >= fresh_
    ensures Rows(was, items[..i + 1], keys[..i + 1], rootsOf, fresh_, next + [entry])
    ensures KeysOf(next + [entry]) == keys[..i + 1]
  {
    KeysOfAppend(next, entry);
    assert keys[..i + 1] == keys[..i] + [keys[i]] && items[..i + 1] == items[..i] + [items[i]];
  }

  ghost predicate NodesBelow<Key(!new), Item(!new)>(es: seq<Entry<Key, Item>>, bound: NodeId) {
    forall w, n :: w in es && n in w.nodes ==> n < bound
  }

  lemma {:induction false} NodesDistinct<Key(!new), Item(!new)>(es: seq<Entry<Key, Item>>, e: Entry<Key, Item>)
    requires Distinct(Flat(es)) && e in es
    ensures Distinct(e.nodes)
  {
    DistinctParts(es[0].nodes, Flat(es[1..]));
    if e != es[0] {
      NodesDistinct(es[1..], e);
    }
  }

  /** What looking a key up says about the rows not yet placed. */
  lemma LookedUp<Key(!new), Item(!new)>(es: seq<Entry<Key, Item>>, key: Key, gone: set<Key>)
    requires key !in gone
    ensures Get(es, key).None? <==> key !in KeysOf(es)
    ensures Get(es, key).None? ==> key !in KeysOf(Except(es, gone))
    ensures Get(es, key).Some? ==> Get(es, key).value in Except(es, gone) && Get(es, key).value.key == key
  {
    GetSpec(es, key);
    ExceptMembers(es, gone);
    if Get(es, key).Some? {
      var i :| 0 <= i < |es| && es[i] == Get(es, key).value;
      assert KeysOf(es)[i] == key;
    }
  }

  /** The rows of a new list: every key that was mounted keeps its nodes, every
      other is rendered into as many fresh nodes as its item has roots. */
  ghost predicate Rows<Key(!new), Item(!new)>(
      was: seq<Entry<Key, Item>>, items: seq<Item>, keys: seq<Key>, rootsOf: Item -> nat, fresh_: NodeId,
      next: seq<Entry<Key, Item>>)
    requires |keys| == |items|
  {
    && |next| == |items|
    && (forall i :: 0 <= i < |next| ==> next[i].key == keys[i] && next[i].item == items[i])
    && (forall i, w :: 0 <= i < |next| && w in was && w.key == keys[i] ==> next[i].nodes == w.nodes)
    && (forall i :: 0 <= i < |next| && keys[i] !in KeysOf(was) ==>
          |next[i].nodes| == rootsOf(items[i]) && forall n :: n in next[i].nodes ==> n >= fresh_)
  }

  lemma KeepsCursor(left: seq<NodeId>, gone: set<NodeId>)
    requires left != [] && left[0] !in gone
    ensures Minus(left, gone) != [] && Minus(left, gone)[0] == left[0]
  {
  }

  /** A row of the old list, perhaps with a new item. */
  ghost predicate Survives<Key(!new), Item(!new)>(rest: seq<Entry<Key, Item>>, e: Entry<Key, Item>) {
    exists w :: w in rest && w.key == e.key && w.nodes == e.nodes
  }

  /** A row rendered now. */
  ghost predicate Arrives<Key(!new), Item(!new)>(
      rest: seq<Entry<Key, Item>>, e: Entry<Key, Item>, siblings: seq<NodeId>) {
    e.key !in KeysOf(rest) && forall n :: n in e.nodes ==> n !in siblings
  }

  lemma {:induction false} FirstNodeOpensItsRow<Key(!new), Item(!new)>(rest: seq<Entry<Key, Item>>, w: Entry<Key, Item>)
    requires Distinct(Flat(rest)) && w in rest && Flat(rest) != [] && Flat(rest)[0] in w.nodes
    ensures Flat(rest)[0] == w.nodes[0]
  {
    DistinctParts(rest[0].nodes, Flat(rest[1..]));
    if w != rest[0] {
      FlatMember(rest[1..], w);
      assert rest[0].nodes == [];
      assert Flat(rest) == Flat(rest[1..]);
      FirstNodeOpensItsRow(rest[1..], w);
    }
  }

  lemma NotUnderCursor<Key(!new), Item(!new)>(
      a: seq<NodeId>, rest: seq<Entry<Key, Item>>, right: seq<NodeId>, e: Entry<Key, Item>, siblings: seq<NodeId>)
    requires siblings == a + (Flat(rest) + right) && Distinct(siblings) && right != [] && UniqueKeys(rest)
    requires Survives(rest, e) || Arrives(rest, e, siblings)
    requires e.nodes == [] || e.nodes[0] != (Flat(rest) + right)[0]
    ensures !UnderCursor(rest, e)
    ensures Minus(Flat(rest) + right, ToSet(e.nodes)) == Flat(Except(rest, {e.key})) + right
    ensures (Flat(rest) + right)[0] !in e.nodes && forall n :: n in e.nodes ==> n !in a
  {
    var gone := ToSet(e.nodes);
    DistinctParts(a, Flat(rest) + right);
    DistinctParts(Flat(rest), right);
    MinusConcat(Flat(rest), right, gone);
    if Survives(rest, e) {
      var w :| w in rest && w.key == e.key && w.nodes == e.nodes;
      FlatMember(rest, w);
      MinusNone(right, gone);
      FlatMinus(rest, w);
      if Flat(rest) != [] && Flat(rest)[0] in w.nodes {
        FirstNodeOpensItsRow(rest, w);
      }
    } else {
      MinusNone(right, gone);
      FlatMinus(rest, e);
    }
  }

  lemma IsUnderCursor<Key(!new), Item(!new)>(
      a: seq<NodeId>, rest: seq<Entry<Key, Item>>, right: seq<NodeId>, e: Entry<Key, Item>, siblings: seq<NodeId>)
    requires siblings == a + (Flat(rest) + right) && Distinct(siblings) && right != [] && UniqueKeys(rest)
    requires Survives(rest, e) || Arrives(rest, e, siblings)
    requires e.nodes != [] && e.nodes[0] == (Flat(rest) + right)[0]
    ensures UnderCursor(rest, e)
    ensures siblings == a + e.nodes + (Flat(Except(rest, {e.key})) + right)
  {
    DistinctParts(a, Flat(rest) + right);
    DistinctParts(Flat(rest), right);
    assert e.nodes[0] in siblings by {
      assert siblings[|a|] == e.nodes[0];
    }
    var w :| w in rest && w.key == e.key && w.nodes == e.nodes;
    FlatMember(rest, w);
    assert e.nodes[0] in Flat(rest);
    assert Flat(rest) != [];
    RowUnderCursor(rest, w);
    RegroupRow(a, e.nodes, Flat(Except(rest, {e.key})), right);
  }

  lemma RegroupRow(a: seq<NodeId>, nodes: seq<NodeId>, left: seq<NodeId>, right: seq<NodeId>)
    ensures a + ((nodes + left) + right) == a + nodes + (left + right)
  {
  }

  lemma AfterRow(a: seq<NodeId>, nodes: seq<NodeId>, left: seq<NodeId>)
    requires Distinct(a + nodes + left) && nodes != [] && left != []
    ensures NextSibling(a + nodes + left, nodes[|nodes| - 1]) == Some(left[0])
  {
    var last := nodes[|nodes| - 1];
    var front := a + nodes[..|nodes| - 1];
    assert a + nodes + left == front + ([last] + left);
    DistinctParts(front, [last] + left);
    assert a + nodes + left == front + [last] + left;
    assert last in [last] + left;
    NextSiblingSplit(front, last, left);
  }

  lemma SplitStep<Key(!new), Item(!new)>(es: seq<Entry<Key, Item>>, keys: set<Key>, i: nat)
    requires i < |es|
    ensures es[i..] == [es[i]] + es[i + 1..]
    ensures Only(es[..i + 1], keys) == Only(es[..i], keys) + if es[i].key in keys then [es[i]] else []
    ensures Except(es[..i + 1], keys) == Except(es[..i], keys) + if es[i].key in keys then [] else [es[i]]
  {
    assert es[..i + 1] == es[..i] + [es[i]];
    OnlyConcat(es[..i], [es[i]], keys);
    ExceptConcat(es[..i], [es[i]], keys);
  }

  lemma KeepStep<Key(!new), Item(!new)>(es: seq<Entry<Key, Item>>, live: set<Key>, i: nat)
    requires i < |es| && es[i].key in live
    ensures Only(es[..i], live) + es[i..] == Only(es[..i + 1], live) + es[i + 1..]
    ensures Except(es[..i + 1], live) == Except(es[..i], live)
  {
    SplitStep(es, live, i);
  }

  lemma NothingToVisit<Key(!new), Item(!new)>(es: seq<Entry<Key, Item>>, live: set<Key>)
    ensures Only(es[..|es|], live) + es[|es|..] == Only(es, live) && es[..|es|] == es
  {
    assert es[..|es|] == es && es[|es|..] == [];
  }

  lemma DropStep<Key(!new), Item(!new)>(es: seq<Entry<Key, Item>>, live: set<Key>, i: nat)
    requires i < |es| && es[i].key !in live
    requires UniqueKeys(Only(es[..i], live) + es[i..])
    ensures es[i] in Only(es[..i], live) + es[i..]
    ensures Except(Only(es[..i], live) + es[i..], {es[i].key}) == Only(es[..i + 1], live) + es[i + 1..]
    ensures KeysOf(Except(es[..i + 1], live)) == KeysOf(Except(es[..i], live)) + [es[i].key]
    ensures |Flat(Except(es[..i + 1], live))| == |Flat(Except(es[..i], live))| + |es[i].nodes|
  {
    SplitStep(es, live, i);
    var kept := Only(es[..i], live);
    assert (kept + es[i..])[|kept|] == es[i];
    DropOne(kept, es[i], es[i + 1..]);
    KeysOfAppend(Except(es[..i], live), es[i]);
    FlatConcat(Except(es[..i], live), [es[i]]);
    assert Flat([es[i]]) == es[i].nodes;
  }

  lemma {:induction false} ExceptConcat<Key, Item>(a: seq<Entry<Key, Item>>, b: seq<Entry<Key, Item>>, keys: set<Key>)
    ensures Except(a + b, keys) == Except(a, keys) + Except(b, keys)
  {
    if a == [] {
      assert a + b == b;
    } else {
      assert (a + b)[1..] == a[1..] + b;
      ExceptConcat(a[1..], b, keys);
    }
  }

  lemma DropOne<Key(!new), Item(!new)>(a: seq<Entry<Key, Item>>, e: Entry<Key, Item>, b: seq<Entry<Key, Item>>)
    requires UniqueKeys(a + ([e] + b))
    ensures Except(a + ([e] + b), {e.key}) == a + b
    ensures UniqueKeys(a + b)
  {
    var s := a + ([e] + b);
    forall i | 0 <= i < |a| ensures a[i].key != e.key { assert s[i].key != s[|a|].key; }
    forall i | 0 <= i < |b| ensures b[i].key != e.key { assert s[|a|].key != s[|a| + 1 + i].key; }
    ExceptConcat(a, [e] + b, {e.key});
    assert ([e] + b)[1..] == b;
    NoSuchKey(a, e.key);
    NoSuchKey(b, e.key);
    UniqueOnly(s, {e.key});
  }

  lemma AroundMinus<Key(!new), Item(!new)>(
      left: seq<NodeId>, es: seq<Entry<Key, Item>>, e: Entry<Key, Item>, right: seq<NodeId>)
    requires UniqueKeys(es) && e in es && Distinct(left + Flat(es) + right)
    ensures Minus(left + Flat(es) + right, ToSet(e.nodes)) == left + Flat(Except(es, {e.key})) + right
  {
    var gone := ToSet(e.nodes);
    FlatMember(es, e);
    DistinctParts(left + Flat(es), right);
    DistinctParts(left, Flat(es));
    MinusConcat(left + Flat(es), right, gone);
    MinusConcat(left, Flat(es), gone);
    MinusNone(left, gone);
    MinusNone(right, gone);
    FlatMinus(es, e);
  }

  // ---- the cost of a list of single-root rows ----

  lemma AheadCons<Key(!new)>(x: Key, s: seq<Key>, a: Key, b: Key)
    ensures Ahead([x] + s, a, b) <==> (a == x && b in s) || Ahead(s, a, b)
  {
    var t := [x] + s;
    if Ahead(t, a, b) {
      var i, j :| 0 <= i < j < |t| && t[i] == a && t[j] == b;
      assert s[j - 1] == b;
      if i > 0 {
        assert s[i - 1] == a;
      }
    }
    if a == x && b in s {
      var j :| 0 <= j < |s| && s[j] == b;
      assert t[0] == a && t[j + 1] == b;
    }
    if Ahead(s, a, b) {
      var i, j :| 0 <= i < j < |s| && s[i] == a && s[j] == b;
      assert t[i + 1] == a && t[j + 1] == b;
    }
  }

  ghost predicate NoneLeftAhead<Key(!new), Item(!new)>(
      was: seq<Entry<Key, Item>>, live: set<Key>, done: set<Key>, key: Key) {
    && key in KeysOf(was) && key in live && key !in done
    && forall a :: a in live && Ahead(KeysOf(was), a, key) ==> a in done
  }

  /** The first of the surviving rows not yet placed is the one no such row was
      ahead of. */
  lemma {:induction false} FrontOfRest<Key(!new), Item(!new)>(
      was: seq<Entry<Key, Item>>, live: set<Key>, done: set<Key>, key: Key)
    requires UniqueKeys(was)
    ensures
      var rest := Except(Only(was, live), done);
      (rest != [] && rest[0].key == key) <==> NoneLeftAhead(was, live, done, key)
  {
    if was != [] {
      var head, tail := was[0], was[1..];
      FrontOfRest(tail, live, done, key);
      assert KeysOf(was) == [head.key] + KeysOf(tail);
      forall a { AheadCons(head.key, KeysOf(tail), a, key); }
      KeyHolder(tail, head.key);
      var kept := Only(tail, live);
      if head.key in live {
        assert ([head] + kept)[1..] == kept;
      }
      ExceptMembers(kept, done);
      OnlyMembers(tail, live);
    }
  }

  /** With single-root rows, being under the cursor and staying are one thing. */
  lemma CursorMeansStays<Key(!new), Item(!new)>(
      was: seq<Entry<Key, Item>>, keys: seq<Key>, i: nat, e: Entry<Key, Item>, fresh_: NodeId)
    requires i < |keys| && Distinct(keys) && e.key == keys[i]
    requires UniqueKeys(was) && Distinct(Flat(was)) && NodesBelow(was, fresh_) && SingleRoots(was)
    requires forall w :: w in was && w.key == e.key ==> e.nodes == w.nodes
    requires e.key !in KeysOf(was) ==> forall n :: n in e.nodes ==> n >= fresh_
    ensures UnderCursor(Except(Only(was, ToSet(keys)), ToSet(keys[..i])), e) <==> Stays(KeysOf(was), keys, i)
  {
    var live, done := ToSet(keys), ToSet(keys[..i]);
    var rest := Except(Only(was, live), done);
    FrontOfRest(was, live, done, e.key);
    NoneLeftIsStays(was, keys, i);
    RestIsOld(was, live, done);
    KeyHolder(was, e.key);
    if w :| w in was && w.key == e.key {
      CursorIsFront(was, rest, w, e);
    } else {
      NewIsNotFront(was, rest, e, fresh_);
    }
  }

  lemma RestIsOld<Key(!new), Item(!new)>(was: seq<Entry<Key, Item>>, live: set<Key>, done: set<Key>)
    ensures forall r :: r in Except(Only(was, live), done) ==> r in was
  {
    OnlyMembers(was, live);
    ExceptMembers(Only(was, live), done);
  }

  lemma NewIsNotFront<Key(!new), Item(!new)>(
      was: seq<Entry<Key, Item>>, rest: seq<Entry<Key, Item>>, e: Entry<Key, Item>, fresh_: NodeId)
    requires NodesBelow(was, fresh_) && SingleRoots(was) && forall r :: r in rest ==> r in was
    requires e.key !in KeysOf(was) && forall n :: n in e.nodes ==> n >= fresh_
    ensures !UnderCursor(rest, e) && !(rest != [] && rest[0].key == e.key)
  {
    if rest != [] {
      KeyHolder(was, e.key);
      assert rest[0] in was && rest[0].nodes[0] in rest[0].nodes;
      assert Flat(rest)[0] == rest[0].nodes[0];
      if e.nodes != [] {
        assert e.nodes[0] in e.nodes;
      }
    }
  }

  lemma NoneLeftIsStays<Key(!new), Item(!new)>(was: seq<Entry<Key, Item>>, keys: seq<Key>, i: nat)
    requires i < |keys| && Distinct(keys)
    ensures NoneLeftAhead(was, ToSet(keys), ToSet(keys[..i]), keys[i]) <==> Stays(KeysOf(was), keys, i)
  {
    assert keys[i] !in keys[..i];
  }

  lemma CursorIsFront<Key(!new), Item(!new)>(
      was: seq<Entry<Key, Item>>, rest: seq<Entry<Key, Item>>, w: Entry<Key, Item>, e: Entry<Key, Item>)
    requires UniqueKeys(was) && Distinct(Flat(was)) && SingleRoots(was) && w in was && e.nodes == w.nodes
    requires forall r :: r in rest ==> r in was
    ensures UnderCursor(rest, e) <==> rest != [] && rest[0].key == w.key
  {
    if rest != [] {
      var first := rest[0];
      assert first in was && Flat(rest)[0] == first.nodes[0];
      if first.nodes[0] == w.nodes[0] {
        OneOwner(was, first, w, w.nodes[0]);
      }
    }
  }

  lemma RowFacts<Key(!new), Item(!new)>(
      was: seq<Entry<Key, Item>>, items: seq<Item>, keys: seq<Key>, rootsOf: Item -> nat, fresh_: NodeId,
      next: seq<Entry<Key, Item>>, i: nat)
    requires |keys| == |items| && i < |items| && Rows(was, items, keys, rootsOf, fresh_, next)
    requires SingleRoots(was) && rootsOf(items[i]) == 1
    ensures next[i].key == keys[i] && |next[i].nodes| == 1
    ensures forall w :: w in was && w.key == next[i].key ==> next[i].nodes == w.nodes
    ensures next[i].key !in KeysOf(was) ==> forall n :: n in next[i].nodes ==> n >= fresh_
  {
    KeyHolder(was, keys[i]);
  }

  lemma MovedNone<Key(!new)>(old_: seq<Key>, want: seq<Key>)
    ensures |Moved(old_, want, 0)| == 0
  {
    assert Moved(old_, want, 0) == {};
  }

  lemma MovedStep<Key(!new)>(old_: seq<Key>, want: seq<Key>, i: nat)
    requires i < |want|
    ensures |Moved(old_, want, i + 1)| == |Moved(old_, want, i)| + if Stays(old_, want, i) then 0 else 1
  {
    assert Moved(old_, want, i + 1) == Moved(old_, want, i) + if Stays(old_, want, i) then {} else {i};
  }

  lemma LogsOfUpdate<Key(!new), Item(!new)>(
      was: seq<Entry<Key, Item>>, items: seq<Item>, keys: seq<Key>, rootsOf: Item -> nat, fresh_: NodeId,
      next: seq<Entry<Key, Item>>, rendered: seq<Key>, disposed: seq<Key>)
    requires |keys| == |items| && Rows(was, items, keys, rootsOf, fresh_, next) && Distinct(keys) && UniqueKeys(was)
    ensures KeysOf(next) == keys
    ensures Logged(rendered, rendered + Unmounted(keys, ToSet(KeysOf(was))), KeysOf(next), ToSet(KeysOf(was)))
    ensures Logged(disposed, disposed + KeysOf(Except(was, ToSet(keys))), KeysOf(was), ToSet(KeysOf(next)))
  {
    assert KeysOf(next) == keys;
    UnmountedIsLogged(rendered, keys, ToSet(KeysOf(was)));
    DroppedIsLogged(disposed, was, ToSet(keys));
  }

  lemma KeysOfPrefix<Key, Item>(next: seq<Entry<Key, Item>>, keys: seq<Key>, i: nat)
    requires |next| == |keys| && i <= |keys| && forall k :: 0 <= k < |next| ==> next[k].key == keys[k]
    ensures KeysOf(next[..i]) == keys[..i]
  {
  }

  lemma SingleRootStep<Key(!new), Item(!new)>(
      was: seq<Entry<Key, Item>>, items: seq<Item>, keys: seq<Key>, rootsOf: Item -> nat, fresh_: NodeId,
      next: seq<Entry<Key, Item>>, i: nat)
    requires |keys| == |items| && i < |items| && Rows(was, items, keys, rootsOf, fresh_, next)
    requires Distinct(keys) && UniqueKeys(was) && Distinct(Flat(was)) && NodesBelow(was, fresh_)
    requires SingleRoots(was) && rootsOf(items[i]) == 1
    ensures Insertions(Only(was, ToSet(keys)), next[..i + 1]) ==
            Insertions(Only(was, ToSet(keys)), next[..i]) + if Stays(KeysOf(was), keys, i) then 0 else 1
  {
    RowFacts(was, items, keys, rootsOf, fresh_, next, i);
    CursorMeansStays(was, keys, i, next[i], fresh_);
    PrefixGrows(next, i);
    InsertionsStep(Only(was, ToSet(keys)), next[..i], next[i]);
    KeysOfPrefix(next, keys, i);
  }

  lemma {:induction false} SingleRootPrefix<Key(!new), Item(!new)>(
      was: seq<Entry<Key, Item>>, items: seq<Item>, keys: seq<Key>, rootsOf: Item -> nat, fresh_: NodeId,
      next: seq<Entry<Key, Item>>, n: nat)
    requires |keys| == |items| && n <= |items| && Rows(was, items, keys, rootsOf, fresh_, next)
    requires Distinct(keys) && UniqueKeys(was) && Distinct(Flat(was)) && NodesBelow(was, fresh_)
    requires SingleRoots(was) && forall i :: 0 <= i < |items| ==> rootsOf(items[i]) == 1
    ensures Insertions(Only(was, ToSet(keys)), next[..n]) == |Moved(KeysOf(was), keys, n)|
  {
    if n == 0 {
      MovedNone(KeysOf(was), keys);
    } else {
      var i := n - 1;
      SingleRootPrefix(was, items, keys, rootsOf, fresh_, next, i);
      SingleRootStep(was, items, keys, rootsOf, fresh_, next, i);
      MovedStep(KeysOf(was), keys, i);
    }
  }

  /** What an update of single-root rows inserts is what its key lists say. */
  lemma SingleRootCost<Key(!new), Item(!new)>(
      was: seq<Entry<Key, Item>>, items: seq<Item>, keys: seq<Key>, rootsOf: Item -> nat, fresh_: NodeId,
      next: seq<Entry<Key, Item>>)
    requires |keys| == |items| && Rows(was, items, keys, rootsOf, fresh_, next)
    requires Distinct(keys) && UniqueKeys(was) && Distinct(Flat(was)) && NodesBelow(was, fresh_)
    requires SingleRoots(was) && forall i :: 0 <= i < |items| ==> rootsOf(items[i]) == 1
    ensures Insertions(Only(was, ToSet(keys)), next) == MoveCount(KeysOf(was), keys)
  {
    assert next[..|items|] == next;
    SingleRootPrefix(was, items, keys, rootsOf, fresh_, next, |items|);
  }
}
