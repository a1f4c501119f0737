/**
 * The parser object: the constructor's two passes over the buffer (a
 * pre-scan that counts rows, then a pass that reads the header and fills
 * every cell), `SaveNewValue`, and the accessors.
 *
 * `keys` and `values` are the two arrays the constructor `calloc`s: a
 * null entry is `None`. A column of `values` holds the cells of the
 * column's type, one per data row; `-` columns have none.
 */
module CsvParser {
  import opened Options
  import opened Schema
  import opened Tokenizer
  import opened Coercion
  import opened RowWalk
  import opened Fill

  /** The index of the first key equal to `key`; null keys match nothing. */
  function KeyIndex(keys: seq<Option<string>>, key: string): (r: Option<nat>)
    ensures r.Some? ==> r.value < |keys| && keys[r.value] == Some(key)
    ensures r.Some? ==> forall c :: 0 <= c < r.value ==> keys[c] != Some(key)
    ensures r.None? ==> forall c :: 0 <= c < |keys| ==> keys[c] != Some(key)
  {
    if keys == [] then None
    else if keys[0] == Some(key) then Some(0)
    else match KeyIndex(keys[1..], key)
      case None => None
      case Some(i) => Some(i + 1)
  }

  /**
   * Looking a key up among the header keys finds the first column that is
   * not `-` and whose header field reads `key`; without a header nothing
   * is found.
   */
  lemma KeyLookup(s: string, fmt: string, hasHeader: bool, delim: char, quote: char, key: string)
    ensures var i := KeyIndex(HeaderKeys(s, fmt, hasHeader, |fmt|, delim, quote), key);
      && (!hasHeader ==> i.None?)
      && (i.Some? ==> fmt[i.value] != '-' && HeaderText(s, fmt, i.value, delim, quote) == key)
      && (i.Some? ==> forall c :: 0 <= c < i.value && fmt[c] != '-' ==> HeaderText(s, fmt, c, delim, quote) != key)
      && (i.None? && hasHeader ==> forall c :: 0 <= c < |fmt| && fmt[c] != '-' ==> HeaderText(s, fmt, c, delim, quote) != key)
  {
    HeaderKeysAt(s, fmt, hasHeader, |fmt|, delim, quote);
  }

  /** Two sequences that agree on their first `n` elements and on element `n` agree on the first `n + 1`. */
  lemma PrefixStep<T>(a: seq<T>, b: seq<T>, n: nat)
    requires n < |a| && n < |b| && a[..n] == b[..n] && a[n] == b[n]
    ensures a[..n + 1] == b[..n + 1]
  {
  }

  class Parser {
    const types: string
    const colsCount: nat
    const hasHeader: bool
    const delimiter: char
    const quoteChar: char
    const rowsCount: nat
    const keys: array<Option<string>>
    const values: array<Option<seq<Cell>>>
    /** The buffer the parser was built from. */
    ghost const input: string

    /** The facts about the buffer and the format that the constructor's pre-scan establishes. */
    ghost predicate Built() {
      && Buildable(input, types, hasHeader, delimiter, quoteChar)
      && rowsCount == Rows(input, types, hasHeader, delimiter, quoteChar)
      && colsCount == |types|
    }

    /**
     * The storage the constructor allocates: one key and one column slot per
     * format character, and a column of `rowsCount` cells of the column's
     * width for every column but `-`.
     */
    ghost predicate Allocated()
      reads keys, values
    {
      && colsCount == |types| && keys.Length == colsCount && values.Length == colsCount
      && (forall c :: 0 <= c < colsCount ==> (values[c].None? <==> types[c] == '-'))
      && (forall c :: 0 <= c < colsCount && values[c].Some? ==> |values[c].value| == CellCount(types[c], rowsCount))
    }

    /**
     * The storage `malloc` gives column type `t` for `rows` rows: none for
     * `-`, otherwise `GetTypeSize(t) * rows` bytes, that is `rows` cells
     * (none for a type of size 0). Its contents are not yet written.
     */
    static function Storage(t: char, rows: nat): (column: Option<seq<Cell>>)
      ensures column.None? <==> t == '-'
      ensures column.Some? ==> |column.value| == CellCount(t, rows)
    {
      if t == '-' then None else Some(seq(CellCount(t, rows), _ => Int(0)))
    }

    /** What the constructor sets up: the storage, the keys read from the header, and every cell. */
    ghost predicate Valid()
      reads this, keys, values
    {
      && Built()
      && Allocated()
      && keys[..] == HeaderKeys(input, types, hasHeader, |types|, delimiter, quoteChar)
      && forall c :: 0 <= c < colsCount && values[c].Some? ==>
           values[c].value == ColumnCells(input, types, hasHeader, delimiter, quoteChar, c)
    }

    /**
     * Builds the table from the C string `s` and the format `fmt`: counts
     * the rows, reads the header (keeping its keys only when there is one),
     * allocates the columns, then reads every field of every data row into
     * its cell.
     */
    constructor (s: string, fmt: string, hasHeader: bool, delim: char, quote: char)
      requires Buildable(s, fmt, hasHeader, delim, quote)
      ensures Valid()
      ensures input == s && types == fmt && this.hasHeader == hasHeader
      ensures delimiter == delim && quoteChar == quote
      ensures colsCount == |fmt|
      ensures rowsCount == RowCount(s, fmt, hasHeader, delim, quote)
      ensures forall c :: 0 <= c < colsCount && values[c].Some? ==>
        values[c].value == ColumnCells(s, fmt, hasHeader, delim, quote, c)
      ensures fresh(keys) && fresh(values)
    {
      input := s;
      types := fmt;
      colsCount := |fmt|;
      this.hasHeader := hasHeader;
      delimiter := delim;
      quoteChar := quote;
      var n := CountRows(s, fmt, hasHeader, delim, quote);
      rowsCount := n;
      keys := new Option<string>[|fmt|](_ => None);
      values := new Option<seq<Cell>>[|fmt|](_ => None);
      new;
      var p := ReadHeader(s);
      if !hasHeader {
        p := 0;
      }
      ghost var grid := seq(|fmt|, c requires 0 <= c < |fmt| => ColumnCells(s, fmt, hasHeader, delim, quote, c));
      FillRows(s, p, grid);
    }

    /** The first loop of the constructor: reads the header fields, keeps the keys, allocates the columns. */
    method ReadHeader(s: string) returns (p: nat)
      requires colsCount == |types| && keys.Length == colsCount && values.Length == colsCount
      requires forall c :: 0 <= c < colsCount ==> values[c].None?
      modifies keys, values
      ensures keys[..] == HeaderKeys(s, types, hasHeader, |types|, delimiter, quoteChar)
      ensures p == WalkCols(s, 0, types, true, |types|, delimiter, quoteChar)
      ensures Allocated()
    {
      p := 0;
      var col := 0;
      while col < |types|
        invariant col <= |types|
        invariant p == WalkCols(s, 0, types, true, col, delimiter, quoteChar)
        invariant keys[..col] == HeaderKeys(s, types, hasHeader, col, delimiter, quoteChar)
        invariant forall c :: 0 <= c < col ==> values[c] == Storage(types[c], rowsCount)
        invariant forall c :: col <= c < colsCount ==> values[c].None?
      {
        p := ReadHeaderField(s, p, col);
        col := col + 1;
      }
      assert keys[..] == keys[..col];
    }

    /** One pass of the header loop: the key of column `col`, and the column's storage. */
    method ReadHeaderField(s: string, p: nat, col: nat) returns (next: nat)
      requires colsCount == |types| && keys.Length == colsCount && values.Length == colsCount && col < colsCount
      requires p == WalkCols(s, 0, types, true, col, delimiter, quoteChar)
      requires keys[..col] == HeaderKeys(s, types, hasHeader, col, delimiter, quoteChar)
      requires forall c :: 0 <= c < col ==> values[c] == Storage(types[c], rowsCount)
      requires forall c :: col <= c < colsCount ==> values[c].None?
      modifies keys, values
      ensures next == WalkCols(s, 0, types, true, col + 1, delimiter, quoteChar)
      ensures keys[..col + 1] == HeaderKeys(s, types, hasHeader, col + 1, delimiter, quoteChar)
      ensures forall c :: 0 <= c <= col ==> values[c] == Storage(types[c], rowsCount)
      ensures forall c :: col < c < colsCount ==> values[c].None?
    {
      var key;
      key, next := ReadKey(s, types, col, delimiter, quoteChar, p);
      keys[col] := Some(key);
      if types[col] == '-' || !hasHeader {
        keys[col] := None;
      }
      if types[col] != '-' {
        values[col] := Storage(types[col], rowsCount);
      }
      assert keys[..col + 1] == keys[..col] + [keys[col]];
    }

    /**
     * The cells the fill loop has written so far agree with `grid`: every
     * stored column holds `grid`'s cells in its first `row` rows, and in row
     * `row` for its first `col` columns.
     */
    ghost predicate Filled(grid: seq<seq<Cell>>, row: nat, col: nat)
      reads values
    {
      && colsCount == |types| && values.Length == colsCount && |grid| == colsCount && row <= rowsCount
      && forall c :: 0 <= c < colsCount && IsStored(types[c]) ==>
           && values[c].Some? && |values[c].value| == rowsCount && |grid[c]| == rowsCount
           && values[c].value[..row] == grid[c][..row]
           && (c < col && row < rowsCount ==> values[c].value[row] == grid[c][row])
    }

    /**
     * The rows after `row` hold what they held in `before`: the fill loop
     * has not reached them yet.
     */
    ghost predicate Untouched(before: seq<Option<seq<Cell>>>, row: nat)
      reads values
    {
      && values.Length == |before|
      && forall c, r :: 0 <= c < |before| && values[c].Some? && before[c].Some? && row < r < |values[c].value| && r < |before[c].value| ==>
           values[c].value[r] == before[c].value[r]
    }

    /**
     * The second loop of the constructor: every field of every data row, row
     * by row. `grid` holds, column by column, the cells the rows should give.
     */
    method FillRows(s: string, start: nat, ghost grid: seq<seq<Cell>>)
      requires Built() && Allocated() && s == input
      requires start == FillStart(s, types, hasHeader, delimiter, quoteChar)
      requires |grid| == colsCount
      requires forall c :: 0 <= c < colsCount && IsStored(types[c]) ==> |grid[c]| == rowsCount
      requires forall c, r {:trigger CellAt(s, types, hasHeader, delimiter, quoteChar, r, c)} ::
        0 <= c < colsCount && IsStored(types[c]) && 0 <= r < rowsCount ==>
        grid[c][r] == CellAt(s, types, hasHeader, delimiter, quoteChar, r, c).value
      modifies values
      ensures Allocated()
      ensures forall c :: 0 <= c < colsCount && IsStored(types[c]) ==> values[c].value == grid[c]
    {
      var p := start;
      var row := 0;
      while row < rowsCount
        invariant Allocated() && Filled(grid, row, 0)
        invariant row < rowsCount ==> |types| > 0
        invariant |types| > 0 ==> p == WalkRows(s, start, types, row, delimiter, quoteChar)
      {
        p := FillRow(s, p, row, grid);
        row := row + 1;
      }
      forall c | 0 <= c < colsCount && IsStored(types[c])
        ensures values[c].value == grid[c]
      {
        assert values[c].value == values[c].value[..row];
      }
    }

    /** One pass of the fill loop's column loop: every field of data row `row`. */
    method FillRow(s: string, p: nat, row: nat, ghost grid: seq<seq<Cell>>) returns (e: nat)
      requires Built() && Allocated() && s == input && row < rowsCount
      requires p == WalkRows(s, FillStart(s, types, hasHeader, delimiter, quoteChar), types, row, delimiter, quoteChar)
      requires Filled(grid, row, 0)
      requires forall c, r {:trigger CellAt(s, types, hasHeader, delimiter, quoteChar, r, c)} ::
        0 <= c < colsCount && IsStored(types[c]) && 0 <= r < rowsCount ==>
        grid[c][r] == CellAt(s, types, hasHeader, delimiter, quoteChar, r, c).value
      modifies values
      ensures Allocated() && Filled(grid, row + 1, 0)
      ensures e == WalkRows(s, FillStart(s, types, hasHeader, delimiter, quoteChar), types, row + 1, delimiter, quoteChar)
      ensures Untouched(old(values[..]), row)
    {
      ghost var before := values[..];
      e := p;
      var col := 0;
      while col < |types|
        invariant col <= |types|
        invariant Allocated() && Filled(grid, row, col)
        invariant e == FieldPos(s, FillStart(s, types, hasHeader, delimiter, quoteChar), types, row, col, delimiter, quoteChar)
        invariant Untouched(before, row)
      {
        e := FillCell(s, e, row, col, grid, before);
        col := col + 1;
      }
      forall c | 0 <= c < colsCount && IsStored(types[c])
        ensures values[c].value[..row + 1] == grid[c][..row + 1]
      {
        PrefixStep(values[c].value, grid[c], row);
      }
    }

    /**
     * One field of the fill loop: reads the field at `p` of data row `row`,
     * column `col`, stores its cell and moves the cursor to the next field.
     */
    method FillCell(s: string, p: nat, row: nat, col: nat, ghost grid: seq<seq<Cell>>, ghost before: seq<Option<seq<Cell>>>)
      returns (q: nat)
      requires Built() && Allocated() && s == input && row < rowsCount && col < colsCount
      requires Untouched(before, row)
      requires p == FieldPos(s, FillStart(s, types, hasHeader, delimiter, quoteChar), types, row, col, delimiter, quoteChar)
      requires Filled(grid, row, col)
      requires IsStored(types[col]) ==> grid[col][row] == CellAt(s, types, hasHeader, delimiter, quoteChar, row, col).value
      modifies values
      ensures Allocated() && Filled(grid, row, col + 1)
      ensures q == FieldPos(s, FillStart(s, types, hasHeader, delimiter, quoteChar), types, row, col + 1, delimiter, quoteChar)
      ensures forall c :: 0 <= c < colsCount && c != col ==> values[c] == old(values[c])
      ensures Untouched(before, row)
    {
      var val;
      val, q := ReadCell(s, types, hasHeader, delimiter, quoteChar, row, col, p);
      SaveNewValue(val, types[col], row, col);
    }

    /** Stores the cell made of `val` at `row` of column `col`, converted as the column's type says. */
    method SaveNewValue(val: string, t: char, row: nat, col: nat)
      requires Allocated() && col < colsCount && t == types[col] && row < rowsCount
      modifies values
      ensures Allocated()
      ensures values[..] == old(values[..])[col := if IsStored(t) then Some(old(values[col]).value[row := Convert(val, t).value]) else old(values[col])]
    {
      match t
      case 's' => values[col] := Some(values[col].value[row := Text(val)]);
      case 'f' => values[col] := Some(values[col].value[row := Float(val)]);
      case 'L' => values[col] := Some(values[col].value[row := Int(Wrap(LeadingInteger(val, 10), Modulus32))]);
      case 'd' => values[col] := Some(values[col].value[row := Int(Wrap(LeadingInteger(val, 10), Modulus16))]);
      case 'c' => values[col] := Some(values[col].value[row := Int(Wrap(LeadingInteger(val, 10), Modulus8))]);
      case 'x' => values[col] := Some(values[col].value[row := Int(Wrap(LeadingInteger(val, 16), Modulus32))]);
      case _ =>
    }

    function GetColumnsCount(): (r: nat)
      requires Valid()
      reads this, keys, values
      ensures r == |types|
    {
      colsCount
    }

    /** The data rows, not counting the header. */
    function GetRowsCount(): (r: nat)
      requires Valid()
      reads this, keys, values
      ensures r == RowCount(input, types, hasHeader, delimiter, quoteChar)
    {
      rowsCount
    }

    /** `GetValues(index)`: the column at `index`, or null past the last column. */
    function GetValuesAt(index: int): (r: Option<seq<Cell>>)
      requires Valid() && index >= 0
      reads this, keys, values
      ensures r.Some? <==> index < colsCount && types[index] != '-'
      ensures r.Some? ==> r.value == ColumnCells(input, types, hasHeader, delimiter, quoteChar, index)
    {
      if index < colsCount then values[index] else None
    }

    /** `GetValues(key)`: the column of the first header key equal to `key`, or null. */
    method GetValuesByKey(key: string) returns (r: Option<seq<Cell>>)
      requires Valid() && NoNul(key)
      ensures r == match KeyIndex(keys[..], key)
        case None => None
        case Some(c) => values[c]
      ensures r.Some? <==> KeyIndex(keys[..], key).Some?
      ensures r.Some? ==> r.value == ColumnCells(input, types, hasHeader, delimiter, quoteChar, KeyIndex(keys[..], key).value)
    {
      for col := 0 to colsCount
        invariant forall c :: 0 <= c < col ==> keys[c] != Some(key)
      {
        if keys[col].Some? && keys[col].value == key {
          return values[col];
        }
      }
      return None;
    }
  }
}
