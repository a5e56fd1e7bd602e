/** A table with writes over it that are applied when somebody looks: a chain of links,
    each one write over what is behind it, that a look flattens and remembers. */
module Overlays {
  import opened Wrappers
  import opened Tables
  import opened Serialiser

  /** What a link is over: a real table, another link, or nothing any more. */
  datatype Base = Table(rows: seq<Row>) | Link(node: MapSet) | Dropped

  /** The rows of links, the last first. */
  function RowsBack(links: seq<MapSet>): seq<Row> {
    if links == [] then []
    else [links[|links| - 1].row] + RowsBack(links[..|links| - 1])
  }

  lemma RowsBackGrows(links: seq<MapSet>, link: MapSet)
    ensures RowsBack(links + [link]) == [link.row] + RowsBack(links)
  {
    assert (links + [link])[..|links|] == links;
  }

  lemma FlatStarts(rows: seq<Row>)
    ensures Flat(rows, []) == Built(rows, RowSlot)
  {
    assert rows + [] == rows;
  }

  lemma FlatGrows(rows: seq<Row>, writes: seq<Row>, row: Row)
    ensures Flat(rows, writes + [row]) == Put(Flat(rows, writes), row, RowSlot)
  {
    var all := rows + (writes + [row]);
    assert all[..|all| - 1] == rows + writes && all[|all| - 1] == row;
  }

  lemma FlatIsBuilt(rows: seq<Row>, writes: seq<Row>)
    ensures Built(Flat(rows, writes), RowSlot) == Flat(rows, writes)
  {
    PutAllKeepsOrder([], rows + writes, RowSlot);
    OrderedIsBuilt(Flat(rows, writes), RowSlot);
  }

  class MapSet {
    var base: Base
    const row: Row
    var flat: Option<seq<Row>>

    /** The links behind this one, the table behind all of them, and every write over it
        up to this one's, in order. */
    ghost const behind: set<MapSet>
    ghost const rows: seq<Row>
    ghost const writes: seq<Row>

    ghost predicate Sound()
      reads this
    {
      && this !in behind
      && (flat.Some? ==> flat.value == Flat(rows, writes))
      && match base
         case Table(table) => table == rows && writes == [row]
         case Link(node) =>
           && behind == node.behind + {node} && node !in node.behind
           && rows == node.rows && writes == node.writes + [row]
         case Dropped => flat.Some?
    }

    ghost predicate Valid()
      reads this, behind
    {
      Sound() && forall link :: link in behind ==> link.Sound() && link.behind <= behind
    }

    constructor (base: Base, row: Row)
      requires !base.Dropped? && (base.Link? ==> base.node.Valid())
      ensures Valid() && this.base == base && this.row == row && flat == None
      ensures base.Table? ==> rows == base.rows && writes == [row]
      ensures base.Link? ==> rows == base.node.rows && writes == base.node.writes + [row]
    {
      this.base, this.row, flat := base, row, None;
      behind := if base.Link? then base.node.behind + {base.node} else {};
      rows := if base.Link? then base.node.rows else base.rows;
      writes := (if base.Link? then base.node.writes else []) + [row];
    }

    /** On the way down from this link `written` has been passed and `node` is next. */
    ghost predicate Passed(written: seq<MapSet>, node: Base) {
      && !node.Dropped? && (node.Link? ==> node.node in behind + {this})
      && rows == TableUnder(node) && writes == WritesUpTo(node) + RowsBack(written)
    }

    lemma PassesLink(written: seq<MapSet>, link: MapSet)
      requires Valid() && Passed(written, Link(link)) && link.flat.None?
      ensures Passed(written + [link], link.base)
      ensures link.base.Link? ==> |link.base.node.behind| < |link.behind|
    {
      RowsBackGrows(written, link);
      assert link.Sound() && link.behind <= behind;
      Regroup(WritesUpTo(link.base), [link.row], RowsBack(written));
    }

    /** The links that have not been looked at, down to one that has or to the table. */
    method Collect() returns (written: seq<MapSet>, node: Base)
      requires Valid()
      ensures Passed(written, node) && (node.Link? ==> node.node.flat == Some(Flat(node.node.rows, node.node.writes)))
    {
      written, node := [], Link(this);
      assert writes + [] == writes;
      while node.Link? && node.node.flat.None?
        invariant Passed(written, node)
        decreases if node.Link? then |node.node.behind| + 1 else 0
      {
        PassesLink(written, node.node);
        written := written + [node.node];
        node := node.node.base;
      }
      assert node.Link? ==> node.node.Sound();
    }

    /** Whatever the links behind it have been asked before, a link gives the table that
        all its writes stand for, remembers it and lets go of what it was over. Links over
        it, or elsewhere, stand for what they stood for. */
    method Force() returns (out: seq<Row>)
      requires Valid()
      modifies this`flat, this`base
      ensures Valid() && out == Flat(rows, writes) && flat == Some(out)
      ensures base == if old(flat).Some? then old(base) else Dropped
      ensures forall other: MapSet :: old(allocated(other)) && old(other.Valid()) ==> other.Valid()
    {
      if flat.Some? {
        return flat.value;
      }
      var written, node := Collect();
      out := Copy(node);
      out := Apply(out, written, TableUnder(node), WritesUpTo(node));
      Remember(out);
    }

    method Remember(table: seq<Row>)
      requires Valid() && table == Flat(rows, writes)
      modifies this`flat, this`base
      ensures Valid() && flat == Some(table) && base == Dropped
      ensures forall other: MapSet :: old(allocated(other)) && old(other.Valid()) ==> other.Valid()
    {
      flat := Some(table);
      base := Dropped;
    }
  }

  ghost function TableUnder(node: Base): seq<Row>
    requires !node.Dropped?
  {
    if node.Link? then node.node.rows else node.rows
  }

  ghost function WritesUpTo(node: Base): seq<Row> {
    if node.Link? then node.node.writes else []
  }

  /** A new table with the rows of a table, or of a link that has been looked at. */
  method Copy(node: Base) returns (out: seq<Row>)
    requires !node.Dropped?
    requires node.Link? ==> node.node.flat == Some(Flat(node.node.rows, node.node.writes))
    ensures out == Flat(TableUnder(node), WritesUpTo(node))
  {
    if node.Link? {
      out := Built(node.node.flat.value, RowSlot);
      FlatIsBuilt(node.node.rows, node.node.writes);
    } else {
      out := Built(node.rows, RowSlot);
      FlatStarts(node.rows);
    }
  }

  /** The writes of links put in, from the last link to the first. */
  method Apply(table: seq<Row>, written: seq<MapSet>, ghost rows: seq<Row>, ghost before: seq<Row>)
      returns (out: seq<Row>)
    requires table == Flat(rows, before)
    ensures out == Flat(rows, before + RowsBack(written))
  {
    out := table;
    ghost var applied := before;
    var i := |written|;
    assert written[..i] == written;
    while i > 0
      invariant 0 <= i <= |written|
      invariant before + RowsBack(written) == applied + RowsBack(written[..i])
      invariant out == Flat(rows, applied)
    {
      i := i - 1;
      FlatGrows(rows, applied, written[i].row);
      assert written[..i + 1][..i] == written[..i];
      Regroup(applied, [written[i].row], RowsBack(written[..i]));
      out := Put(out, written[i].row, RowSlot);
      applied := applied + [written[i].row];
    }
    assert applied + [] == applied;
  }
}
