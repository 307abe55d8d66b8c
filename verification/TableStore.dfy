/** The row store of common/table.c on a heap whose every allocation may fail. */
module TableStore {
  import opened Growth
  import opened Memory
  import opened Strings
  import opened Sums
  import opened TableLayout
  import opened TableText
  import opened TableWidths

  /** Replacing block `previous` of a table by a fresh one keeps its blocks apart and everyone else's untouched. */
  lemma MoveBlock(columns: set<nat>, previous: set<nat>, rows: set<nat>, live: set<nat>, added: set<nat>)
    requires columns !! previous && columns + previous !! rows && columns + previous + rows <= live && added !! live
    ensures columns !! added && columns + added !! rows && columns + added + rows <= live - previous + added
    ensures (live - previous + added) - (columns + added + rows) == live - (columns + previous + rows)
  {
  }

  /** A row of fresh blocks joins the blocks of a table. */
  lemma MoreBlocks(own: set<nat>, rows: set<nat>, live: set<nat>, row: set<nat>)
    requires own !! rows && own + rows <= live && row !! live
    ensures row !! rows && own !! rows + row && own + (rows + row) <= live + row
    ensures (live + row) - (own + (rows + row)) == live - (own + rows)
  {
  }

  /** `cells` is the block of the cell array, `blocks[j]` that of the copy of text `texts[j]`. */
  datatype Row = Row(cells: Option<nat>, blocks: seq<nat>, texts: seq<string>)

  ghost function RowBlocks(row: Row): set<nat> {
    BlockOf(row.cells) + set b | b in row.blocks
  }

  ghost predicate NoDuplicates(s: seq<nat>) {
    forall i, j :: 0 <= i < j < |s| ==> s[i] != s[j]
  }

  ghost predicate RowOk(row: Row, n: nat) {
    && row.cells.Some? && |row.blocks| == |row.texts| == n
    && NoDuplicates(row.blocks) && row.cells.value !in row.blocks
  }

  ghost function AllBlocks(rows: seq<Row>): set<nat> {
    if rows == [] then {} else AllBlocks(rows[..|rows| - 1]) + RowBlocks(rows[|rows| - 1])
  }

  /** All blocks of all rows are distinct. */
  ghost predicate RowsOk(rows: seq<Row>, n: nat) {
    rows != [] ==>
      var last := rows[|rows| - 1];
      && RowsOk(rows[..|rows| - 1], n) && RowOk(last, n)
      && AllBlocks(rows[..|rows| - 1]) !! RowBlocks(last)
  }

  lemma {:induction false} RowsOkPrefix(rows: seq<Row>, n: nat, i: nat)
    requires RowsOk(rows, n) && i < |rows|
    ensures RowsOk(rows[..i], n) && RowsOk(rows[..i + 1], n) && RowOk(rows[i], n)
    ensures AllBlocks(rows[..i + 1]) == AllBlocks(rows[..i]) + RowBlocks(rows[i])
    ensures AllBlocks(rows[..i]) !! RowBlocks(rows[i]) && AllBlocks(rows[..i + 1]) <= AllBlocks(rows)
  {
    if i + 1 == |rows| {
      assert rows[..i + 1] == rows;
    } else {
      var init := rows[..|rows| - 1];
      RowsOkPrefix(init, n, i);
      assert init[..i] == rows[..i] && init[..i + 1] == rows[..i + 1];
    }
  }

  lemma StoreAppend(rows: seq<Row>, row: Row, n: nat)
    requires RowsOk(rows, n) && RowOk(row, n) && AllBlocks(rows) !! RowBlocks(row)
    ensures RowsOk(rows + [row], n) && AllBlocks(rows + [row]) == AllBlocks(rows) + RowBlocks(row)
    ensures Texts(rows + [row]) == Texts(rows) + [row.texts]
  {
    assert (rows + [row])[..|rows|] == rows;
  }

  function Texts(rows: seq<Row>): (r: seq<seq<string>>)
    ensures |r| == |rows|
  {
    seq(|rows|, i requires 0 <= i < |rows| => rows[i].texts)
  }

  /** A null text is stored as the empty string. */
  function Stored(cells: seq<Option<string>>): (r: seq<string>)
    ensures |r| == |cells|
  {
    seq(|cells|, j requires 0 <= j < |cells| => if cells[j].Some? then cells[j].value else "")
  }

  /** A row keeps its texts, and the empty text for a missing one. */
  lemma StoredTexts(cells: seq<Option<string>>)
    ensures forall j :: 0 <= j < |cells| ==> Stored(cells)[j] == if cells[j].Some? then cells[j].value else ""
  {
  }

  class Table {
    const heap: Heap
    var columns: seq<Column>
    var columnsBlock: Option<nat>
    var rows: array<Row>
    var rowsBlock: Option<nat>
    var rowCount: nat
    var rowCapacity: nat
    ghost var copied: nat

    ghost predicate Valid()
      reads this, rows, heap
      ensures Valid() ==> rowCount <= rows.Length && heap.Valid()
    {
      && heap.Valid()
      && rowCount <= rowCapacity == rows.Length
      && Amortised(rowCapacity, rowCount, copied)
      && RowsOk(rows[..rowCount], |columns|)
      && (columnsBlock.Some? <==> columns != [])
      && (rowsBlock.Some? <==> rowCapacity > 0)
      && BlockOf(columnsBlock) !! BlockOf(rowsBlock)
      && BlockOf(columnsBlock) + BlockOf(rowsBlock) !! AllBlocks(rows[..rowCount])
      && Owned() <= heap.live
    }

    /** The live blocks reachable from the table. */
    ghost function Owned(): set<nat>
      requires rowCount <= rows.Length
      reads this, rows
    {
      BlockOf(columnsBlock) + BlockOf(rowsBlock) + AllBlocks(rows[..rowCount])
    }

    /** The stored texts, row by row. */
    function Grid(): (grid: seq<seq<string>>)
      requires rowCount <= rows.Length
      reads this, rows
    {
      Texts(rows[..rowCount])
    }

    lemma GridIsRectangular()
      requires Valid()
      ensures Rectangular(columns, Grid())
    {
      forall i | 0 <= i < rowCount ensures |Grid()[i]| == |columns| {
        RowsOkPrefix(rows[..rowCount], |columns|, i);
      }
    }

    /** Zeroed storage, as after `memset`. */
    constructor (heap: Heap)
      requires heap.Valid()
      ensures this.heap == heap && Valid() && fresh(rows)
      ensures columns == [] && Owned() == {} && rowCount == rowCapacity == 0
    {
      this.heap := heap;
      columns, columnsBlock, rowsBlock := [], None, None;
      rowCount, rowCapacity, copied := 0, 0, 0;
      rows := new Row[0];
    }

    /**
      Lines 129-149. The fields are overwritten whatever they held: blocks of an earlier use stay
      live and belong to nobody. Without columns nothing is touched.
    */
    method Init(newColumns: seq<Column>) returns (rc: int)
      requires heap.Valid()
      modifies this, heap
      ensures heap.Valid() && heap.next >= old(heap.next) && (rc == 0 || rc == -1)
      ensures newColumns == [] ==> rc == -1 && unchanged(this) && unchanged(heap)
      ensures newColumns != [] ==> heap.refused == old(heap.refused) + if rc == 0 then 0 else 1
      ensures newColumns != [] ==> Valid() && fresh(rows) && Grid() == [] && rowCapacity == 0
      ensures newColumns != [] ==> columns == if rc == 0 then newColumns else []
      ensures newColumns != [] ==> heap.live - Owned() == old(heap.live)
      ensures rc != 0 ==> heap.live == old(heap.live)
    {
      if newColumns == [] {
        return -1;
      }
      columns, columnsBlock, rowsBlock := [], None, None;
      rowCount, rowCapacity, copied := 0, 0, 0;
      rows := new Row[0];
      columnsBlock := heap.Alloc();
      if columnsBlock.None? {
        return -1;
      }
      columns := newColumns;
      rc := 0;
    }

    lemma RowsBlockLive()
      requires Valid()
      ensures rowsBlock.Some? ==> rowsBlock.value in heap.live
      ensures columnsBlock.Some? ==> columnsBlock.value in heap.live
    {
    }

    /** Lines 31-53. */
    method ReserveRows(required: nat) returns (rc: int)
      requires Valid() && required == rowCount + 1
      modifies this, heap
      ensures Valid() && columns == old(columns) && columnsBlock == old(columnsBlock)
      ensures rows == old(rows) || fresh(rows)
      ensures rowCount == old(rowCount) && rows[..rowCount] == old(rows[..rowCount])
      ensures rc == 0 || rc == -1
      ensures heap.refused == old(heap.refused) + if rc == 0 then 0 else 1
      ensures rc == 0 ==> rowCount < rowCapacity
      ensures heap.live - Owned() == old(heap.live - Owned()) && heap.next >= old(heap.next)
    {
      hide AllBlocks, RowsOk, Amortised, IsGrowth, BlockOf, Heap.Valid;
      if rowCapacity >= required {
        return 0;
      }
      var grown := GrownCapacity(rowCapacity, required);
      GrowthAmortised(rowCapacity, rowCount, copied, grown);
      ghost var stored := rows[..rowCount];
      RowsBlockLive();
      var newRows := heap.Realloc(rowsBlock);
      if newRows.None? {
        return -1;
      }
      FreshBlock(newRows, old(heap.live));
      MoveBlock(BlockOf(columnsBlock), BlockOf(rowsBlock), AllBlocks(stored), old(heap.live), BlockOf(newRows));
      var slots := new Row[grown](_ => Row(None, [], []));
      forall i | 0 <= i < rowCapacity {
        slots[i] := rows[i];
      }
      assert slots[..rowCount] == stored;
      copied := copied + rowCapacity;
      rows, rowsBlock, rowCapacity := slots, newRows, grown;
      assert rows[..rowCount] == stored;
      rc := 0;
    }

    /** Lines 191-202: copies the texts into the row under construction, or gives all of it back. */
    method FillRow(cells: seq<Option<string>>) returns (ok: bool)
      requires |cells| == |columns| && rowCount < rows.Length && heap.Valid()
      requires rows[rowCount].cells.Some? && rows[rowCount].blocks == [] && rows[rowCount].texts == []
      requires rows[rowCount].cells.value in heap.live
      modifies rows, heap
      ensures heap.Valid() && heap.next >= old(heap.next) && rows[..rowCount] == old(rows[..rowCount])
      ensures heap.refused == old(heap.refused) + if ok then 0 else 1
      ensures ok ==> RowOk(rows[rowCount], |columns|) && rows[rowCount].texts == Stored(cells)
      ensures ok ==> old(BlockOf(rows[rowCount].cells)) <= RowBlocks(rows[rowCount])
      ensures ok ==> RowBlocks(rows[rowCount]) - old(BlockOf(rows[rowCount].cells)) !! old(heap.live)
      ensures ok ==> heap.live == old(heap.live) + RowBlocks(rows[rowCount])
      ensures !ok ==> heap.live == old(heap.live) - old(BlockOf(rows[rowCount].cells))
    {
      ghost var cellsBlock := rows[rowCount].cells.value;
      var i := 0;
      while i < |columns|
        modifies rows, heap
        invariant i <= |columns|
        invariant rows[..rowCount] == old(rows[..rowCount])
        invariant heap.Valid() && heap.next >= old(heap.next) && heap.refused == old(heap.refused)
        invariant rows[rowCount].cells == Some(cellsBlock) && |rows[rowCount].blocks| == i
        invariant rows[rowCount].texts == Stored(cells)[..i]
        invariant NoDuplicates(rows[rowCount].blocks)
        invariant forall b :: b in rows[rowCount].blocks ==> old(heap.next) <= b < heap.next
        invariant heap.live == old(heap.live) + set b | b in rows[rowCount].blocks
      {
        var row := rows[rowCount];
        var copy := heap.Alloc();
        if copy.None? {
          ReleaseRow(row);
          rows[rowCount] := Row(None, [], []);
          return false;
        }
        var text := if cells[i].Some? then cells[i].value else "";
        rows[rowCount] := Row(row.cells, row.blocks + [copy.value], row.texts + [text]);
        i := i + 1;
      }
      ok := true;
    }

    /** Lines 185-202: a complete row of fresh blocks in the first free slot, or no new block at all. */
    method NewRow(cells: seq<Option<string>>) returns (ok: bool)
      requires |cells| == |columns| && rowCount < rows.Length && heap.Valid()
      modifies rows, heap
      ensures heap.Valid() && heap.next >= old(heap.next) && rows[..rowCount] == old(rows[..rowCount])
      ensures heap.refused == old(heap.refused) + if ok then 0 else 1
      ensures ok ==> RowOk(rows[rowCount], |columns|) && rows[rowCount].texts == Stored(cells)
      ensures ok ==> RowBlocks(rows[rowCount]) !! old(heap.live)
      ensures heap.live == old(heap.live) + if ok then RowBlocks(rows[rowCount]) else {}
    {
      hide Heap.Valid, RowOk, RowBlocks, Stored;
      var block := heap.Alloc();
      if block.None? {
        return false;
      }
      ghost var before := rows[..rowCount];
      rows[rowCount] := Row(block, [], []);
      assert rows[..rowCount] == before;
      ok := FillRow(cells);
    }

    /**
      Lines 172-206. Only a failed allocation makes it fail. The stored rows survive that, and the
      heap holds no block that the table does not own.
    */
    method AddRow(cells: seq<Option<string>>) returns (rc: int)
      requires Valid() && |cells| == |columns|
      modifies this, rows, heap
      ensures Valid() && columns == old(columns)
      ensures rows == old(rows) || fresh(rows)
      ensures rc == 0 || rc == -1
      ensures heap.refused == old(heap.refused) + if rc == 0 then 0 else 1
      ensures rc == 0 ==> Grid() == old(Grid()) + [Stored(cells)]
      ensures rc != 0 ==> rowCount == old(rowCount) && rows[..rowCount] == old(rows[..rowCount])
      ensures heap.live - Owned() == old(heap.live - Owned()) && heap.next >= old(heap.next)
    {
      hide AllBlocks, RowsOk, RowOk, Amortised, Heap.Valid, RowBlocks, BlockOf, Texts, Stored;
      rc := ReserveRows(rowCount + 1);
      if rc != 0 {
        return -1;
      }
      ghost var before, live0 := rows[..rowCount], heap.live;
      var ok := NewRow(cells);
      if !ok {
        return -1;
      }
      MoreBlocks(BlockOf(columnsBlock) + BlockOf(rowsBlock), AllBlocks(before), live0, RowBlocks(rows[rowCount]));
      StoreAppend(before, rows[rowCount], |columns|);
      assert rows[..rowCount + 1] == before + [rows[rowCount]];
      MoreRows(rowCapacity, rowCount, copied);
      rowCount := rowCount + 1;
      rc := 0;
    }

    /** Gives back the blocks of one row, texts first (lines 161-164 and 195-198). */
    method ReleaseRow(row: Row)
      requires heap.Valid() && RowOk(row, |row.blocks|) && RowBlocks(row) <= heap.live
      modifies heap
      ensures heap.Valid() && heap.next == old(heap.next) && heap.refused == old(heap.refused)
      ensures heap.live == old(heap.live) - RowBlocks(row)
    {
      var j := 0;
      while j < |row.blocks|
        invariant j <= |row.blocks| && heap.Valid()
        invariant heap.next == old(heap.next) && heap.refused == old(heap.refused)
        invariant heap.live == old(heap.live) - set b | b in row.blocks[..j]
      {
        heap.Free(Some(row.blocks[j]));
        j := j + 1;
      }
      assert row.blocks[..j] == row.blocks;
      heap.Free(row.cells);
    }

    /** `app_table_render` on the stored rows. */
    method Render(out: Stream, available: nat, widthsMemory: bool)
      requires Valid()
      modifies out
      ensures Rectangular(columns, Grid())
      ensures out.text == old(out.text) +
        if columns == [] || !widthsMemory then ""
        else Unlines(TableLines(columns, Grid(), FinalWidths(columns, Grid(), available)))
    {
      GridIsRectangular();
      TableText.Render(out, columns, Grid(), available, widthsMemory);
    }

    /** Lines 160-165. */
    method ReleaseRows()
      requires Valid()
      modifies heap
      ensures heap.Valid() && heap.next == old(heap.next) && heap.refused == old(heap.refused)
      ensures heap.live == old(heap.live) - AllBlocks(rows[..rowCount])
    {
      hide RowBlocks, Amortised, Heap.Valid;
      ghost var stored, n := rows[..rowCount], |columns|;
      assert stored[..0] == [];
      var i := 0;
      while i < rowCount
        invariant i <= rowCount && heap.Valid()
        invariant heap.next == old(heap.next) && heap.refused == old(heap.refused)
        invariant heap.live == old(heap.live) - AllBlocks(stored[..i])
      {
        RowsOkPrefix(stored, n, i);
        ReleaseRow(rows[i]);
        i := i + 1;
      }
      assert stored[..i] == stored;
    }

    /** Lines 151-170. */
    method Free()
      requires Valid()
      modifies this, heap
      ensures Valid() && columns == [] && Owned() == {} && rowCount == rowCapacity == 0
      ensures heap.live == old(heap.live - Owned()) && heap.next == old(heap.next)
      ensures heap.refused == old(heap.refused)
    {
      hide Heap.Valid, RowBlocks, RowsOk, AllBlocks, Amortised;
      RowsBlockLive();
      EmptyStore(0);
      ghost var stored := AllBlocks(rows[..rowCount]);
      ReleaseRows();
      heap.Free(rowsBlock);
      heap.Free(columnsBlock);
      assert heap.live == old(heap.live) - (BlockOf(columnsBlock) + BlockOf(rowsBlock) + stored);
      columns, columnsBlock, rowsBlock := [], None, None;
      rowCount, rowCapacity, copied := 0, 0, 0;
      rows := new Row[0];
      assert rows[..rowCount] == [];
    }
  }

  lemma EmptyStore(n: nat)
    ensures RowsOk([], n) && AllBlocks([]) == {} && Amortised(0, 0, 0)
  {
  }

  /** The inputs that were accepted, in order. */
  function Accepted(inputs: seq<seq<Option<string>>>, results: seq<int>): (r: seq<seq<string>>)
    requires |inputs| == |results|
  {
    if inputs == [] then []
    else
      var n := |inputs| - 1;
      Accepted(inputs[..n], results[..n]) + if results[n] == 0 then [Stored(inputs[n])] else []
  }

  function Failures(results: seq<int>): nat {
    if results == [] then 0 else Failures(results[..|results| - 1]) + if results[|results| - 1] == 0 then 0 else 1
  }

  /**
    Initialise, add any rows with any outcome, free. The store holds exactly the accepted rows,
    every block handed out on the way has been released, and every failure is a failed allocation.
  */
  method Lifetime(heap: Heap, columns: seq<Column>, inputs: seq<seq<Option<string>>>)
    returns (results: seq<int>, grid: seq<seq<string>>, initialized: int)
    requires heap.Valid() && forall i :: 0 <= i < |inputs| ==> |inputs[i]| == |columns|
    modifies heap
    ensures heap.Valid() && heap.live == old(heap.live)
    ensures forall b: nat :: old(heap.next) <= b < heap.next ==> b in heap.released
    ensures initialized == 0 ==> |results| == |inputs| && grid == Accepted(inputs, results)
    ensures initialized != 0 ==> results == [] && grid == []
    ensures columns == [] ==> initialized != 0 && heap.refused == old(heap.refused)
    ensures columns != [] ==>
      heap.refused == old(heap.refused) + Failures(results) + if initialized == 0 then 0 else 1
  {
    hide Table.Valid, Table.Owned, Heap.Valid, Stored;
    heap.LiveIsOld();
    var table := new Table(heap);
    results, grid := [], [];
    initialized := table.Init(columns);
    if initialized == 0 {
      var i := 0;
      while i < |inputs|
        invariant i <= |inputs| && table.Valid() && table.columns == columns && fresh(table) && fresh(table.rows)
        invariant table.heap == heap && heap.live - table.Owned() == old(heap.live) && heap.next >= old(heap.next)
        invariant |results| == i && table.Grid() == Accepted(inputs[..i], results)
        invariant heap.refused == old(heap.refused) + Failures(results)
      {
        var rc := table.AddRow(inputs[i]);
        assert inputs[..i + 1][..i] == inputs[..i] && (results + [rc])[..i] == results;
        results := results + [rc];
        i := i + 1;
      }
      assert inputs[..i] == inputs;
      grid := table.Grid();
    }
    table.Free();
    heap.Accounted(old(heap.next), heap.live);
  }
}
