/**
 * The string table decoder (assets/stringtable.cpp).
 *
 * A string table is a four-word block in the arena: the name handle, the
 * column count, the row count and the handle of the cell index.  Load reads
 * the block and everything FOLLOWING it refers to, rewriting each handle in
 * place; Store then turns the block into the object's fields, translating
 * the index into an array of `columns * rows` cells in row-major order.
 */
module Stringtables {
  import opened Errors
  import opened Utility
  import opened AddressCodec
  import opened Memory
  import opened Arenas

  /** SIZE_STRINGTABLE (docs/types.h:68): four words. */
  const SIZE_STRINGTABLE: nat := 0x10

  /** The largest column or row count Load accepts (stringtable.cpp:67-73). */
  const MAX_DIMENSION: int := 0xFF

  /** The fields of a Stringtable; a cell is a string offset or null. */
  datatype StringtableValue =
    StringtableValue(name: Option<nat>, columns: int, rows: int, cells: Option<seq<Option<nat>>>)

  /** The constructor's and Release's values (stringtable.cpp:7-31). */
  const DEFAULT: StringtableValue := StringtableValue(None, 0, 0, None)

  /** Load's bounds on the column and row counts. */
  predicate InBounds(columns: int, rows: int)
  {
    1 <= columns <= MAX_DIMENSION && 1 <= rows <= MAX_DIMENSION
  }

  // ---------------------------------------------------------------------
  // Load.

  /**
   * Stringtable::Load (stringtable.cpp:33-103) from the handle slot at
   * `slot`: the FOLLOWING data is read, then Store runs on the slot.
   */
  function LoadStringtable(m: Mem, slot: nat, v: StringtableValue): (r: Result<(Mem, StringtableValue)>)
    requires slot + 4 <= |m.bytes|
    ensures r.Ok? ==> |r.value.0.bytes| == |m.bytes|
  {
    var handle := WordAt(m.bytes, slot);
    :- Check(handle == ADDRESS_MISSING || handle == ADDRESS_FOLLOWING, InternalError);
    var m1 :- if handle == ADDRESS_FOLLOWING then LoadTable(m, slot) else Ok(m);
    var v1 :- StoreTable(m1, WordAt(m1.bytes, slot), v);
    Ok((m1, v1))
  }

  /** The FOLLOWING case (stringtable.cpp:51-99): the block is read and the slot rewritten. */
  function LoadTable(m: Mem, slot: nat): (r: Result<Mem>)
    requires slot + 4 <= |m.bytes|
    ensures r.Ok? ==> |r.value.bytes| == |m.bytes|
  {
    var block :- FollowMemory(m, slot, SIZE_STRINGTABLE, 4);
    LoadTableBlock(block.0, block.1)
  }

  /**
   * The block at `at` (stringtable.cpp:54-65): the name and index words must
   * not be MISSING, and the name is read before the counts are checked.
   */
  function LoadTableBlock(m: Mem, at: nat): (r: Result<Mem>)
    requires at + SIZE_STRINGTABLE <= |m.bytes|
    ensures r.Ok? ==> |r.value.bytes| == |m.bytes|
  {
    if !(WordAt(m.bytes, at) != ADDRESS_MISSING && WordAt(m.bytes, at + 12) != ADDRESS_MISSING) then Fail(CorruptedData) else
    var m1 :- FollowStringIf(m, at);
    LoadTableCells(m1, at)
  }

  /** The counts' bounds, then a FOLLOWING index with its cells (stringtable.cpp:67-99). */
  function LoadTableCells(m: Mem, at: nat): (r: Result<Mem>)
    requires at + SIZE_STRINGTABLE <= |m.bytes|
    ensures r.Ok? ==> |r.value.bytes| == |m.bytes|
  {
    var columns, rows := Signed(WordAt(m.bytes, at + 4)), Signed(WordAt(m.bytes, at + 8));
    :- Check(InBounds(columns, rows), StringtableSizeOutOfBounds);
    if WordAt(m.bytes, at + 12) == ADDRESS_FOLLOWING then LoadIndex(m, at + 12, columns, rows)
    else Ok(m)
  }

  /**
   * The index of `columns * rows` cells at 4-byte alignment, then each
   * FOLLOWING cell (stringtable.cpp:78-98).
   */
  function LoadIndex(m: Mem, p: nat, columns: int, rows: int): (r: Result<Mem>)
    requires p + 4 <= |m.bytes| && InBounds(columns, rows)
    ensures r.Ok? ==> |r.value.bytes| == |m.bytes|
  {
    var n := columns * rows;
    var index :- FollowMemory(m, p, n * 4, 4);
    LoadCells(index.0, index.1, n, 0)
  }

  /** The cell loop (stringtable.cpp:89-98) from cell i on. */
  function LoadCells(m: Mem, index: nat, n: nat, i: nat): (r: Result<Mem>)
    requires index + 4 * n <= |m.bytes| && i <= n
    ensures r.Ok? ==> |r.value.bytes| == |m.bytes|
    decreases n - i
  {
    if i == n then Ok(m)
    else
      var m1 :- FollowStringIf(m, index + 4 * i);
      LoadCells(m1, index, n, i + 1)
  }

  // ---------------------------------------------------------------------
  // Store.

  /** Word j of the cell index at `index`. */
  function IndexWord(m: Mem, index: nat, j: nat): u32
    requires index + 4 * j + 4 <= |m.bytes|
  {
    WordAt(m.bytes, index + 4 * j)
  }

  /**
   * The cell z of the index (stringtable.cpp:150-161).  The original reads
   * the index without a bounds check; the model fails with UncheckedRead
   * instead.
   */
  function CellOf(m: Mem, index: nat, z: nat): Result<Option<nat>>
  {
    if index + 4 * z + 4 > |m.bytes| then Fail(UncheckedRead)
    else
      var w := IndexWord(m, index, z);
      if w == ADDRESS_FOLLOWING then Fail(CorruptedData)
      else if w == ADDRESS_MISSING then Ok(None)
      else
        var p := GetPointer(|m.bytes|, w);
        if p.Ok? then Ok(Some(p.value)) else Fail(p.error)
  }

  /** The first n cells in index order; the first cell that fails aborts. */
  function StoreCells(m: Mem, index: nat, n: nat): (r: Result<seq<Option<nat>>>)
    ensures r.Ok? ==> |r.value| == n
  {
    if n == 0 then Ok([])
    else
      var init :- StoreCells(m, index, n - 1);
      var c :- CellOf(m, index, n - 1);
      Ok(init + [c])
  }

  /** How many cells the two loops of Store visit: none unless both counts are positive. */
  function Visited(columns: int, rows: int): nat
  {
    if columns > 0 && rows > 0 then columns * rows else 0
  }

  /**
   * Stringtable::Store (stringtable.cpp:109-165) on the handle h.  The
   * block is read without a bounds check in the original; the model fails
   * with UncheckedRead.  `calloc(columns * rows, ...)` fails for a negative
   * count, which becomes a huge size_t; a count of zero gives an empty
   * array.  Cells the loops do not visit stay null.
   */
  function StoreTable(m: Mem, h: u32, v: StringtableValue): Result<StringtableValue>
  {
    if h == ADDRESS_FOLLOWING then Fail(CorruptedData) else
    if h == ADDRESS_MISSING then Ok(v)
    else
      var p :- GetPointer(|m.bytes|, h);
      StoreBlock(m, p)
  }

  /** Store once the handle has resolved to the block at p. */
  function StoreBlock(m: Mem, p: nat): Result<StringtableValue>
  {
    var header :- StoreHeader(m, p);
    var (name, columns, rows, index) := header;
    :- Check(columns * rows >= 0, OutOfMemory);
    var visited :- StoreCells(m, index, Visited(columns, rows));
    Ok(StringtableValue(Some(name), columns, rows,
      Some(visited + seq(columns * rows - Visited(columns, rows), _ => None))))
  }

  /**
   * The block at p as Store reads it (stringtable.cpp:130-136): the name's
   * offset, the two counts as signed ints and the index's offset.
   */
  function StoreHeader(m: Mem, p: nat): Result<(nat, int, int, nat)>
  {
    if !(p + SIZE_STRINGTABLE <= |m.bytes|) then Fail(UncheckedRead) else
    var name :- GetPointer(|m.bytes|, WordAt(m.bytes, p));
    var columns, rows := Signed(WordAt(m.bytes, p + 4)), Signed(WordAt(m.bytes, p + 8));
    var index :- GetPointer(|m.bytes|, WordAt(m.bytes, p + 12));
    Ok((name, columns, rows, index))
  }

  /** A Store outcome and the fields it leaves. */
  predicate Stored(spec: Result<StringtableValue>, r: Result<()>, v: StringtableValue)
  {
    if spec.Ok? then r == Ok(()) && v == spec.value else r == Fail(spec.error)
  }

  // ---------------------------------------------------------------------
  // What Load leaves in the arena.

  /**
   * Load's handle rule (stringtable.cpp:41-49, 101): only MISSING or
   * FOLLOWING is accepted, and MISSING leaves the arena and the fields as
   * they are.
   */
  lemma LoadHandleRule(m: Mem, slot: nat, v: StringtableValue)
    requires slot + 4 <= |m.bytes|
    ensures var h := WordAt(m.bytes, slot);
      h != ADDRESS_MISSING && h != ADDRESS_FOLLOWING ==> LoadStringtable(m, slot, v) == Fail(InternalError)
    ensures WordAt(m.bytes, slot) == ADDRESS_MISSING ==> LoadStringtable(m, slot, v) == Ok((m, v))
  {
  }

  /** The cell loop from cell i on rewrites no word below the cursor outside cells i to n - 1. */
  lemma {:induction false} LoadCellsKeeps(m: Mem, index: nat, n: nat, i: nat, q: nat)
    requires Wf(m) && index + 4 * n <= |m.bytes| && i <= n && LoadCells(m, index, n, i).Ok?
    requires q + 4 <= m.cursor && (q + 4 <= index + 4 * i || index + 4 * n <= q)
    ensures var m1 := LoadCells(m, index, n, i).value;
      Wf(m1) && m.cursor <= m1.cursor && WordAt(m1.bytes, q) == WordAt(m.bytes, q)
    decreases n - i
  {
    hide FollowStringIf;
    if i < n {
      FollowStringIfKeeps(m, index + 4 * i, q);
      LoadCellsKeeps(FollowStringIf(m, index + 4 * i).value, index, n, i + 1, q);
    }
  }

  /**
   * The cell loop (stringtable.cpp:89-98) resolves every cell from i on: a
   * FOLLOWING cell now holds a valid address, any other cell is untouched.
   */
  lemma {:induction false} CellsResolved(m: Mem, index: nat, n: nat, i: nat)
    requires Wf(m) && index + 4 * n <= m.cursor && i <= n && LoadCells(m, index, n, i).Ok?
    ensures var m1 := LoadCells(m, index, n, i).value;
      forall j :: i <= j < n ==> Resolved(|m.bytes|, IndexWord(m, index, j), IndexWord(m1, index, j))
    decreases n - i
  {
    hide FollowStringIf;
    if i < n {
      var p := index + 4 * i;
      var m1 := FollowStringIf(m, p).value;
      FollowStringIfResolves(m, p);
      CellsResolved(m1, index, n, i + 1);
      LoadCellsKeeps(m1, index, n, i + 1, p);
      forall j | i < j < n
        ensures IndexWord(m1, index, j) == IndexWord(m, index, j)
      {
        FollowStringIfKeeps(m, p, index + 4 * j);
      }
    }
  }

  /**
   * A FOLLOWING index (stringtable.cpp:78-98): the slot at p now decodes to
   * the index, which lies at or after the old cursor, and each of its n
   * cells is the stream's cell, resolved.
   */
  lemma IndexLoaded(m: Mem, p: nat, columns: int, rows: int, n: nat, m2: Mem)
    requires Wf(m) && p + 4 <= m.cursor && InBounds(columns, rows) && n == columns * rows
    requires LoadIndex(m, p, columns, rows) == Ok(m2)
    ensures 4 * n <= |m.input| && GetPointer(|m2.bytes|, WordAt(m2.bytes, p)).Ok?
    ensures var index := GetPointer(|m2.bytes|, WordAt(m2.bytes, p)).value;
      && m.cursor <= index && index + 4 * n <= m2.cursor <= |m2.bytes|
      && forall j :: 0 <= j < n ==> Resolved(|m.bytes|, WordAt(m.input, 4 * j), IndexWord(m2, index, j))
  {
    hide FollowMemory, LoadCells;
    var (m1, index) := FollowMemory(m, p, n * 4, 4).value;
    FollowMemoryRewrites(m, p, n * 4, 4);
    IndexCellsLoaded(m, m1, index, n, p);
  }

  /** IndexLoaded once the index block has been read: the cell loop's part. */
  lemma IndexCellsLoaded(m: Mem, m1: Mem, index: nat, n: nat, p: nat)
    requires Wf(m1) && |m1.bytes| == |m.bytes| && m.cursor <= index && m1.cursor == index + 4 * n
    requires 4 * n <= |m.input| && m1.bytes[index..index + 4 * n] == m.input[..4 * n]
    requires p + 4 <= m.cursor && GetPointer(|m1.bytes|, WordAt(m1.bytes, p)) == Ok(index)
    requires LoadCells(m1, index, n, 0).Ok?
    ensures var m2 := LoadCells(m1, index, n, 0).value;
      && Wf(m2) && GetPointer(|m2.bytes|, WordAt(m2.bytes, p)) == Ok(index) && index + 4 * n <= m2.cursor
      && forall j :: 0 <= j < n ==> Resolved(|m.bytes|, WordAt(m.input, 4 * j), IndexWord(m2, index, j))
  {
    hide LoadCells;
    CellsResolved(m1, index, n, 0);
    LoadCellsKeeps(m1, index, n, 0, p);
    forall j | 0 <= j < n
      ensures IndexWord(m1, index, j) == WordAt(m.input, 4 * j)
    {
      WordOfBlock(m1.bytes, m.input, index, 4 * n, 4 * j);
    }
  }

  /** The index and its cells go at or after the cursor: no word below it changes but the slot at p. */
  lemma IndexKeeps(m: Mem, p: nat, columns: int, rows: int, n: nat, q: nat, m2: Mem)
    requires Wf(m) && p + 4 <= m.cursor && InBounds(columns, rows) && n == columns * rows
    requires LoadIndex(m, p, columns, rows) == Ok(m2)
    requires q + 4 <= m.cursor && (q + 4 <= p || p + 4 <= q)
    ensures Wf(m2) && m.cursor <= m2.cursor && WordAt(m2.bytes, q) == WordAt(m.bytes, q)
  {
    hide FollowMemory, LoadCells;
    var (m1, index) := FollowMemory(m, p, n * 4, 4).value;
    FollowMemoryKeeps(m, p, n * 4, 4, q);
    FollowMemoryRewrites(m, p, n * 4, 4);
    LoadCellsKeeps(m1, index, n, 0, q);
  }

  /**
   * The counts' check and word 3 (stringtable.cpp:67-99): both counts are
   * in [1, 255], word 3 is resolved, and the words below it are kept.
   */
  lemma TableCellsLoaded(m: Mem, at: nat, q: nat)
    requires Wf(m) && at + SIZE_STRINGTABLE <= m.cursor && LoadTableCells(m, at).Ok?
    requires q + 4 <= m.cursor && q + 4 <= at + 12
    ensures var m1 := LoadTableCells(m, at).value;
      && Wf(m1) && m.cursor <= m1.cursor && WordAt(m1.bytes, q) == WordAt(m.bytes, q)
      && InBounds(Signed(WordAt(m.bytes, at + 4)), Signed(WordAt(m.bytes, at + 8)))
      && Resolved(|m.bytes|, WordAt(m.bytes, at + 12), WordAt(m1.bytes, at + 12))
  {
    hide LoadIndex;
    var columns, rows := Signed(WordAt(m.bytes, at + 4)), Signed(WordAt(m.bytes, at + 8));
    if WordAt(m.bytes, at + 12) == ADDRESS_FOLLOWING {
      var m1 := LoadIndex(m, at + 12, columns, rows).value;
      IndexLoaded(m, at + 12, columns, rows, columns * rows, m1);
      IndexKeeps(m, at + 12, columns, rows, columns * rows, q, m1);
      GetPointerAcceptsValid(|m1.bytes|, WordAt(m1.bytes, at + 12));
    }
  }

  /**
   * The block's checks (stringtable.cpp:54-73): name and index words are
   * not MISSING, the counts are in bounds, and the name and index words
   * are resolved; the counts and the words below the block are kept.
   */
  lemma TableBlockLoaded(m: Mem, at: nat, q: nat)
    requires Wf(m) && at + SIZE_STRINGTABLE <= m.cursor && LoadTableBlock(m, at).Ok?
    requires q + 4 <= m.cursor && (q + 4 <= at || at + 4 <= q <= at + 8)
    ensures var m1 := LoadTableBlock(m, at).value;
      && Wf(m1) && m.cursor <= m1.cursor && WordAt(m1.bytes, q) == WordAt(m.bytes, q)
      && WordAt(m.bytes, at) != ADDRESS_MISSING && WordAt(m.bytes, at + 12) != ADDRESS_MISSING
      && InBounds(Signed(WordAt(m.bytes, at + 4)), Signed(WordAt(m.bytes, at + 8)))
      && Resolved(|m.bytes|, WordAt(m.bytes, at), WordAt(m1.bytes, at))
      && Resolved(|m.bytes|, WordAt(m.bytes, at + 12), WordAt(m1.bytes, at + 12))
  {
    hide FollowStringIf, LoadTableCells;
    var m1 := FollowStringIf(m, at).value;
    FollowStringIfResolves(m, at);
    FollowStringIfKeeps(m, at, q);
    FollowStringIfKeeps(m, at, at + 4);
    FollowStringIfKeeps(m, at, at + 8);
    FollowStringIfKeeps(m, at, at + 12);
    TableCellsLoaded(m1, at, q);
    TableCellsLoaded(m1, at, at);
  }

  /**
   * The FOLLOWING case of Load (stringtable.cpp:51-99): the slot now
   * decodes to a block at or after the old cursor holding the stream's
   * first four words, with the counts kept and checked and the name and
   * index words resolved.
   */
  lemma TableLoaded(m: Mem, slot: nat)
    requires Wf(m) && slot + 4 <= m.cursor && LoadTable(m, slot).Ok?
    ensures SIZE_STRINGTABLE <= |m.input|
    ensures var m1 := LoadTable(m, slot).value;
      var at := GetPointer(|m1.bytes|, WordAt(m1.bytes, slot));
      && Wf(m1) && at.Ok? && m.cursor <= at.value && at.value + SIZE_STRINGTABLE <= m1.cursor
      && WordAt(m1.bytes, at.value + 4) == WordAt(m.input, 4) && WordAt(m1.bytes, at.value + 8) == WordAt(m.input, 8)
      && InBounds(Signed(WordAt(m.input, 4)), Signed(WordAt(m.input, 8)))
      && WordAt(m.input, 0) != ADDRESS_MISSING && WordAt(m.input, 12) != ADDRESS_MISSING
      && Resolved(|m.bytes|, WordAt(m.input, 0), WordAt(m1.bytes, at.value))
      && Resolved(|m.bytes|, WordAt(m.input, 12), WordAt(m1.bytes, at.value + 12))
  {
    hide FollowMemory, LoadTableBlock;
    var (m1, at) := FollowMemory(m, slot, SIZE_STRINGTABLE, 4).value;
    FollowMemoryRewrites(m, slot, SIZE_STRINGTABLE, 4);
    BlockWordsLoaded(m, m1, at, slot);
  }

  /** TableLoaded once the block has been read: the block's words come from the stream. */
  lemma BlockWordsLoaded(m: Mem, m1: Mem, at: nat, slot: nat)
    requires Wf(m1) && |m1.bytes| == |m.bytes| && m.cursor <= at && m1.cursor == at + SIZE_STRINGTABLE
    requires SIZE_STRINGTABLE <= |m.input| && m1.bytes[at..at + SIZE_STRINGTABLE] == m.input[..SIZE_STRINGTABLE]
    requires slot + 4 <= m.cursor && GetPointer(|m1.bytes|, WordAt(m1.bytes, slot)) == Ok(at)
    requires LoadTableBlock(m1, at).Ok?
    ensures var m2 := LoadTableBlock(m1, at).value;
      && Wf(m2) && at + SIZE_STRINGTABLE <= m2.cursor && GetPointer(|m2.bytes|, WordAt(m2.bytes, slot)) == Ok(at)
      && WordAt(m2.bytes, at + 4) == WordAt(m.input, 4) && WordAt(m2.bytes, at + 8) == WordAt(m.input, 8)
      && InBounds(Signed(WordAt(m.input, 4)), Signed(WordAt(m.input, 8)))
      && WordAt(m.input, 0) != ADDRESS_MISSING && WordAt(m.input, 12) != ADDRESS_MISSING
      && Resolved(|m.bytes|, WordAt(m.input, 0), WordAt(m2.bytes, at))
      && Resolved(|m.bytes|, WordAt(m.input, 12), WordAt(m2.bytes, at + 12))
  {
    hide LoadTableBlock, WordAt, GetPointer, Signed;
    WordOfBlock(m1.bytes, m.input, at, SIZE_STRINGTABLE, 0);
    WordOfBlock(m1.bytes, m.input, at, SIZE_STRINGTABLE, 4);
    WordOfBlock(m1.bytes, m.input, at, SIZE_STRINGTABLE, 8);
    WordOfBlock(m1.bytes, m.input, at, SIZE_STRINGTABLE, 12);
    TableBlockLoaded(m1, at, slot);
    TableBlockLoaded(m1, at, at + 4);
    TableBlockLoaded(m1, at, at + 8);
  }

  /**
   * A FOLLOWING string table that loads (stringtable.cpp:51-100, 118-163):
   * the object gets a name, the stream's counts, both in [1, 255], and all
   * `columns * rows` cells, every one of them visited by the loops.
   */
  lemma FollowingLoaded(m: Mem, slot: nat, v: StringtableValue)
    requires Wf(m) && slot + 4 <= m.cursor && WordAt(m.bytes, slot) == ADDRESS_FOLLOWING
    requires LoadStringtable(m, slot, v).Ok?
    ensures SIZE_STRINGTABLE <= |m.input|
    ensures var t := LoadStringtable(m, slot, v).value.1;
      && t.columns == Signed(WordAt(m.input, 4)) && t.rows == Signed(WordAt(m.input, 8))
      && InBounds(t.columns, t.rows) && t.name.Some? && t.cells.Some?
      && |t.cells.value| == t.columns * t.rows == Visited(t.columns, t.rows)
  {
    hide LoadTable, StoreTable;
    TableLoaded(m, slot);
    var m1 := LoadTable(m, slot).value;
    var h := WordAt(m1.bytes, slot);
    StoreTableLayout(m1, h, v);
  }

  // ---------------------------------------------------------------------
  // What Store computes.

  /**
   * The handle rule of Store (stringtable.cpp:122-129): FOLLOWING is
   * corrupted data, MISSING keeps the fields, any other handle must decode.
   */
  lemma StoreHandleRule(m: Mem, h: u32, v: StringtableValue)
    ensures h == ADDRESS_FOLLOWING ==> StoreTable(m, h, v) == Fail(CorruptedData)
    ensures h == ADDRESS_MISSING ==> StoreTable(m, h, v) == Ok(v)
    ensures h != ADDRESS_MISSING && GetPointer(|m.bytes|, h).Fail? ==> StoreTable(m, h, v).Fail?
  {
  }

  /**
   * A cell decodes when it is MISSING (to null) or a valid address other
   * than FOLLOWING; a FOLLOWING cell is corrupted data.
   */
  lemma CellDecodes(m: Mem, index: nat, z: nat)
    requires index + 4 * z + 4 <= |m.bytes|
    ensures var w := IndexWord(m, index, z);
      && (CellOf(m, index, z).Ok? <==> w == ADDRESS_MISSING || (w != ADDRESS_FOLLOWING && IsValidAddress(|m.bytes|, w)))
      && (CellOf(m, index, z) == Ok(None) <==> w == ADDRESS_MISSING)
      && (w == ADDRESS_FOLLOWING ==> CellOf(m, index, z) == Fail(CorruptedData))
  {
    GetPointerAcceptsValid(|m.bytes|, IndexWord(m, index, z));
  }

  /** A cell holding the encoded address of an arena offset decodes back to that offset. */
  lemma CellOfEncoded(m: Mem, index: nat, z: nat, p: nat)
    requires index + 4 * z + 4 <= |m.bytes| <= MAX_DATA_SIZE && p < |m.bytes|
    requires IndexWord(m, index, z) == Encode(p)
    ensures CellOf(m, index, z) == Ok(Some(p))
  {
    RoundTrip(|m.bytes|, p);
    GetAddressEncodes(|m.bytes|, 0, Some(p));
  }

  /**
   * The first n cells succeed exactly when each of them does, and then
   * they are those cells in index order.
   */
  lemma {:induction false} StoreCellsAll(m: Mem, index: nat, n: nat)
    ensures StoreCells(m, index, n).Ok? <==> forall z :: 0 <= z < n ==> CellOf(m, index, z).Ok?
    ensures StoreCells(m, index, n).Ok? ==>
      forall z :: 0 <= z < n ==> Ok(StoreCells(m, index, n).value[z]) == CellOf(m, index, z)
  {
    hide CellOf;
    if n > 0 {
      StoreCellsAll(m, index, n - 1);
    }
  }

  /** A failing Store reports the first cell, in index order, that fails. */
  lemma {:induction false} StoreCellsFirstFailure(m: Mem, index: nat, n: nat)
    requires StoreCells(m, index, n).Fail?
    ensures exists z ::
              && 0 <= z < n && CellOf(m, index, z) == Fail(StoreCells(m, index, n).error)
              && forall y :: 0 <= y < z ==> CellOf(m, index, y).Ok?
  {
    hide CellOf;
    if StoreCells(m, index, n - 1).Fail? {
      StoreCellsFirstFailure(m, index, n - 1);
    } else {
      StoreCellsAll(m, index, n - 1);
      assert CellOf(m, index, n - 1) == Fail(StoreCells(m, index, n).error);
    }
  }

  /**
   * What a successful Store of a non-MISSING handle holds: the header's
   * name and counts, and `columns * rows` cells of which the first
   * Visited(columns, rows) are the decoded index cells and the rest null.
   */
  lemma StoreTableLayout(m: Mem, h: u32, v: StringtableValue)
    requires h != ADDRESS_MISSING && StoreTable(m, h, v).Ok?
    ensures GetPointer(|m.bytes|, h).Ok? && StoreHeader(m, GetPointer(|m.bytes|, h).value).Ok?
    ensures var (name, columns, rows, index) := StoreHeader(m, GetPointer(|m.bytes|, h).value).value;
      var t := StoreTable(m, h, v).value;
      && t.name == Some(name) && t.columns == columns && t.rows == rows
      && t.cells.Some? && |t.cells.value| == columns * rows
      && forall z :: 0 <= z < |t.cells.value| ==>
           Ok(t.cells.value[z]) == if z < Visited(columns, rows) then CellOf(m, index, z) else Ok(None)
  {
    var (name, columns, rows, index) := StoreHeader(m, GetPointer(|m.bytes|, h).value).value;
    StoreCellsAll(m, index, Visited(columns, rows));
  }

  /**
   * Row-major order (stringtable.cpp:148-152): cell x of row y is entry
   * `y * columns + x` of the array, the index cell of the same number.
   */
  lemma RowMajor(m: Mem, h: u32, v: StringtableValue, y: int, x: int)
    requires h != ADDRESS_MISSING && StoreTable(m, h, v).Ok?
    requires 0 <= y < StoreTable(m, h, v).value.rows && 0 <= x < StoreTable(m, h, v).value.columns
    ensures var t := StoreTable(m, h, v).value;
      var index := StoreHeader(m, GetPointer(|m.bytes|, h).value).value.3;
      var z := y * t.columns + x;
      && t.cells.Some? && 0 <= z < |t.cells.value| && z < Visited(t.columns, t.rows)
      && Ok(t.cells.value[z]) == CellOf(m, index, z)
  {
    hide StoreTable, StoreHeader, CellOf;
    StoreTableLayout(m, h, v);
    var t := StoreTable(m, h, v).value;
    MulLe(y + 1, t.rows, t.columns);
    assert (y + 1) * t.columns == y * t.columns + t.columns;
  }

  class Stringtable {
    var name: Option<nat>
    var columns: int
    var rows: int
    var cells: array?<Option<nat>>

    function Value(): StringtableValue
      reads this, cells
    {
      StringtableValue(name, columns, rows, if cells == null then None else Some(cells[..]))
    }

    /** Stringtable::Stringtable (stringtable.cpp:7-13). */
    constructor ()
      ensures Value() == DEFAULT
    {
      name, columns, rows, cells := None, 0, 0, null;
    }

    /** Stringtable::Release (stringtable.cpp:20-31): the cells are freed. */
    method Release()
      modifies this
      ensures Value() == DEFAULT
    {
      name, columns, rows, cells := None, 0, 0, null;
    }

    /** Stringtable::Load (stringtable.cpp:33-103). */
    method Load(arena: Arena, slot: nat) returns (r: Result<()>)
      requires arena.Valid() && slot + 4 <= arena.data.Length
      modifies this, arena, arena.data, arena.stream, arena.stream.buffer
      ensures arena.Valid()
      ensures Agrees(LoadStringtable(old(arena.State()), slot, old(Value())), r, arena.State(), Value())
    {
      hide LoadTable, StoreTable;
      var handle := arena.ReadWord(slot);
      if handle != ADDRESS_MISSING && handle != ADDRESS_FOLLOWING {
        return Fail(InternalError);
      }
      if handle == ADDRESS_FOLLOWING {
        var _ :- DecodeTable(arena, slot);
      }
      r := Store(arena, slot);
    }

    /**
     * Stringtable::Store (stringtable.cpp:109-165) on the handle at `slot`:
     * the cells are filled row by row, cell `y * columns + x` at a time.
     */
    method Store(arena: Arena, slot: nat) returns (r: Result<()>)
      requires arena.Valid() && slot + 4 <= arena.data.Length
      modifies this
      ensures Stored(StoreTable(arena.State(), WordAt(arena.mem, slot), old(Value())), r, Value())
    {
      ghost var m := arena.State();
      var handle := arena.ReadWord(slot);
      if handle == ADDRESS_FOLLOWING {
        return Fail(CorruptedData);
      }
      if handle == ADDRESS_MISSING {
        return Ok(());
      }
      var p :- GetPointer(arena.data.Length, handle);
      r := StoreAt(arena, p);
    }

    /** Store from the block at p on: the header fields, then the cells. */
    method StoreAt(arena: Arena, p: nat) returns (r: Result<()>)
      requires arena.Valid()
      modifies this
      ensures Stored(StoreBlock(arena.State(), p), r, Value())
    {
      var header :- DecodeStoreHeader(arena, p);
      name, columns, rows := Some(header.0), header.1, header.2;
      if columns * rows < 0 {
        return Fail(OutOfMemory);
      }
      var table :- Tabulate(arena, header.3, columns, rows);
      cells := table;
      r := Ok(());
    }
  }

  /** The block at p as Store reads it. */
  method DecodeStoreHeader(arena: Arena, p: nat) returns (r: Result<(nat, int, int, nat)>)
    requires arena.Valid()
    ensures r == StoreHeader(arena.State(), p)
  {
    if p + SIZE_STRINGTABLE > arena.data.Length {
      return Fail(UncheckedRead);
    }
    var w0 := arena.ReadWord(p);
    var w1 := arena.ReadWord(p + 4);
    var w2 := arena.ReadWord(p + 8);
    var w3 := arena.ReadWord(p + 12);
    var name :- GetPointer(arena.data.Length, w0);
    var index :- GetPointer(arena.data.Length, w3);
    r := Ok((name, Signed(w1), Signed(w2), index));
  }

  /**
   * The allocation and the two loops of Store (stringtable.cpp:139-163):
   * cell `y * columns + x` is translated for every row y and column x, so
   * the cells are visited in index order.
   */
  method Tabulate(arena: Arena, index: nat, columns: int, rows: int) returns (r: Result<array<Option<nat>>>)
    requires arena.Valid() && columns * rows >= 0
    ensures r.Ok? ==> fresh(r.value)
    ensures var spec := StoreCells(arena.State(), index, Visited(columns, rows));
      if spec.Ok? then r.Ok? && r.value[..] == spec.value + seq(columns * rows - Visited(columns, rows), _ => None)
      else r == Fail(spec.error)
  {
    ghost var m := arena.State();
    var table := new Option<nat>[columns * rows](_ => None);
    ghost var visited := Visited(columns, rows);
    VisitedFits(columns, rows);
    var y := 0;
    var k := 0;
    while y < rows
      invariant 0 <= y && (rows > 0 ==> y <= rows)
      invariant k == y * Span(columns) && k <= visited
      invariant StoreCells(m, index, k) == Ok(table[..k])
      invariant forall j :: k <= j < table.Length ==> table[j] == None
    {
      RowFits(y, rows, columns);
      var filled := FillRow(arena, m, index, table, k, columns, visited);
      if filled.Fail? {
        return Fail(filled.error);
      }
      k := k + Span(columns);
      y := y + 1;
    }
    AllRows(rows, columns);
    assert table[..] == table[..k] + seq(columns * rows - k, _ => None);
    r := Ok(table);
  }

  /**
   * The inner loop of Store (stringtable.cpp:148-162): one row, column by
   * column; `start` is `y * columns`, the index of the row's first cell, so
   * cell x of the row is cell `y * columns + x` of the table.
   */
  method FillRow(arena: Arena, ghost m: Mem, index: nat, table: array<Option<nat>>, start: nat, columns: int, ghost end: nat)
    returns (r: Result<()>)
    requires arena.Valid() && m == arena.State() && start + Span(columns) <= end <= table.Length
    requires StoreCells(m, index, start) == Ok(table[..start])
    requires forall j :: start <= j < table.Length ==> table[j] == None
    modifies table
    ensures r.Ok? ==> (StoreCells(m, index, start + Span(columns)) == Ok(table[..start + Span(columns)])
      && forall j :: start + Span(columns) <= j < table.Length ==> table[j] == None)
    ensures r.Fail? ==> StoreCells(m, index, end) == Fail(r.error)
  {
    hide StoreCells, CellOf;
    var x := 0;
    while x < columns
      invariant 0 <= x <= Span(columns)
      invariant StoreCells(m, index, start + x) == Ok(table[..start + x])
      invariant forall j :: start + x <= j < table.Length ==> table[j] == None
    {
      r := FillCell(arena, m, index, table, start + x, end);
      if r.Fail? {
        return;
      }
      x := x + 1;
    }
    r := Ok(());
  }

  /** Cell z of the table (stringtable.cpp:97): its value, or the failure that ends Store. */
  method FillCell(arena: Arena, ghost m: Mem, index: nat, table: array<Option<nat>>, z: nat, ghost end: nat)
    returns (r: Result<()>)
    requires arena.Valid() && m == arena.State() && z < end <= table.Length
    requires StoreCells(m, index, z) == Ok(table[..z])
    requires forall j :: z <= j < table.Length ==> table[j] == None
    modifies table
    ensures r.Ok? ==> (StoreCells(m, index, z + 1) == Ok(table[..z + 1])
      && forall j :: z + 1 <= j < table.Length ==> table[j] == None)
    ensures r.Fail? ==> StoreCells(m, index, end) == Fail(r.error)
  {
    var c := DecodeCell(arena, index, z);
    StoreCellsNext(m, index, z, table[..z]);
    if c.Fail? {
      FailureSticks(m, index, z + 1, end);
      return Fail(c.error);
    }
    table[z] := c.value;
    assert table[..z + 1] == old(table[..z]) + [c.value];
    r := Ok(());
  }

  /** One more cell: its value is appended, or its failure is the result. */
  lemma StoreCellsNext(m: Mem, index: nat, z: nat, cells: seq<Option<nat>>)
    requires StoreCells(m, index, z) == Ok(cells)
    ensures CellOf(m, index, z).Ok? ==> StoreCells(m, index, z + 1) == Ok(cells + [CellOf(m, index, z).value])
    ensures CellOf(m, index, z).Fail? ==> StoreCells(m, index, z + 1) == Fail(CellOf(m, index, z).error)
  {
  }

  /** Once a cell fails, every longer prefix fails with the same error. */
  lemma {:induction false} FailureSticks(m: Mem, index: nat, a: nat, b: nat)
    requires a <= b && StoreCells(m, index, a).Fail?
    ensures StoreCells(m, index, b) == StoreCells(m, index, a)
    decreases b - a
  {
    if a < b {
      FailureSticks(m, index, a, b - 1);
    }
  }

  /** How many columns the inner loop of Store visits. */
  function Span(columns: int): nat
  {
    if columns > 0 then columns else 0
  }

  /** The visited cells fit in an array of `columns * rows` cells. */
  lemma VisitedFits(columns: int, rows: int)
    requires columns * rows >= 0
    ensures Visited(columns, rows) <= columns * rows
  {
  }

  /** Row y of a table ends inside the cells the loops visit, where row y + 1 begins. */
  lemma RowFits(y: int, rows: int, columns: int)
    requires 0 <= y < rows
    ensures y * Span(columns) + Span(columns) == (y + 1) * Span(columns)
    ensures (y + 1) * Span(columns) <= Visited(columns, rows)
  {
    if columns > 0 {
      MulLe(y + 1, rows, columns);
    }
  }

  /** After the last row, every visited cell has been visited. */
  lemma AllRows(rows: int, columns: int)
    ensures (if rows > 0 then rows else 0) * Span(columns) == Visited(columns, rows)
  {
  }

  lemma MulLe(a: int, b: int, c: nat)
    requires a <= b
    ensures a * c <= b * c
  {
  }

  /** One cell of the index, read in place. */
  method DecodeCell(arena: Arena, index: nat, z: nat) returns (r: Result<Option<nat>>)
    requires arena.Valid()
    ensures r == CellOf(arena.State(), index, z)
  {
    if index + 4 * z + 4 > arena.data.Length {
      return Fail(UncheckedRead);
    }
    var w := arena.ReadWord(index + 4 * z);
    if w == ADDRESS_FOLLOWING {
      return Fail(CorruptedData);
    }
    if w == ADDRESS_MISSING {
      return Ok(None);
    }
    var p :- GetPointer(arena.data.Length, w);
    r := Ok(Some(p));
  }

  /** The FOLLOWING case of Load (stringtable.cpp:51-52). */
  method DecodeTable(arena: Arena, slot: nat) returns (r: Result<()>)
    requires arena.Valid() && slot + 4 <= arena.data.Length
    modifies arena, arena.data, arena.stream, arena.stream.buffer
    ensures arena.Valid()
    ensures AgreesState(LoadTable(old(arena.State()), slot), r, arena.State())
  {
    var at :- arena.FollowMemory(slot, SIZE_STRINGTABLE, 4);
    r := DecodeTableBlock(arena, at);
  }

  /** The block's checks and name (stringtable.cpp:54-65). */
  method DecodeTableBlock(arena: Arena, at: nat) returns (r: Result<()>)
    requires arena.Valid() && at + SIZE_STRINGTABLE <= arena.data.Length
    modifies arena, arena.data, arena.stream, arena.stream.buffer
    ensures arena.Valid()
    ensures AgreesState(LoadTableBlock(old(arena.State()), at), r, arena.State())
  {
    var w0 := arena.ReadWord(at);
    var w3 := arena.ReadWord(at + 12);
    if w0 == ADDRESS_MISSING || w3 == ADDRESS_MISSING {
      return Fail(CorruptedData);
    }
    var _ :- arena.FollowStringIf(at);
    r := DecodeTableCells(arena, at);
  }

  /** The counts and the index (stringtable.cpp:67-99). */
  method DecodeTableCells(arena: Arena, at: nat) returns (r: Result<()>)
    requires arena.Valid() && at + SIZE_STRINGTABLE <= arena.data.Length
    modifies arena, arena.data, arena.stream, arena.stream.buffer
    ensures arena.Valid()
    ensures AgreesState(LoadTableCells(old(arena.State()), at), r, arena.State())
  {
    var w1 := arena.ReadWord(at + 4);
    var w2 := arena.ReadWord(at + 8);
    var columns, rows := Signed(w1), Signed(w2);
    if !InBounds(columns, rows) {
      return Fail(StringtableSizeOutOfBounds);
    }
    var cellsHandle := arena.ReadWord(at + 12);
    if cellsHandle == ADDRESS_FOLLOWING {
      r := DecodeIndex(arena, at + 12, columns, rows);
    } else {
      r := Ok(());
    }
  }

  /** The index and its cells (stringtable.cpp:78-98). */
  method DecodeIndex(arena: Arena, p: nat, columns: int, rows: int) returns (r: Result<()>)
    requires arena.Valid() && p + 4 <= arena.data.Length && InBounds(columns, rows)
    modifies arena, arena.data, arena.stream, arena.stream.buffer
    ensures arena.Valid()
    ensures AgreesState(LoadIndex(old(arena.State()), p, columns, rows), r, arena.State())
  {
    var n := columns * rows;
    var index :- arena.FollowMemory(p, n * 4, 4);
    r := DecodeCells(arena, index, n);
  }

  /** The cell loop (stringtable.cpp:89-98). */
  method DecodeCells(arena: Arena, index: nat, n: nat) returns (r: Result<()>)
    requires arena.Valid() && index + 4 * n <= arena.data.Length
    modifies arena, arena.data, arena.stream, arena.stream.buffer
    ensures arena.Valid()
    ensures AgreesState(LoadCells(old(arena.State()), index, n, 0), r, arena.State())
  {
    ghost var m0 := arena.State();
    var i := 0;
    while i < n
      invariant 0 <= i <= n && arena.Valid() && |arena.mem| == |m0.bytes|
      invariant LoadCells(m0, index, n, 0) == LoadCells(arena.State(), index, n, i)
    {
      var _ :- arena.FollowStringIf(index + 4 * i);
      i := i + 1;
    }
    r := Ok(());
  }
}
