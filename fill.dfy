/**
 * What the constructor reads from the buffer: the header keys, and for
 * each data row and column the text of the field and the cell
 * `SaveNewValue` makes of it.
 *
 * Data fields of `s` columns are read with `ParseStringValue`; every other
 * column takes the `strcspn` run, copies it with `strndup` and strips one
 * pair of enclosing quotes with `RemoveEnclosingDoubleQuotes`.
 */
module Fill {
  import opened Options
  import opened Schema
  import opened Tokenizer
  import opened Coercion
  import opened RowWalk

  /** The raw `strcspn` run of a non-`s` field at `p`. */
  function RawField(s: string, p: nat, delim: char): (v: string)
    ensures |v| == Span(s, p, delim)
    ensures NoNul(v)
  {
    SpanIsLongest(s, p, delim);
    Slice(s, p, Span(s, p, delim))
  }

  /** The de-quoting of the raw field stays inside its buffer. */
  predicate FieldSafe(s: string, p: nat, delim: char, quote: char) {
    DequoteSafe(RawField(s, p, delim), quote)
  }

  /** The text the fill pass hands to `SaveNewValue` for a field at `p` in a column of type `t`. */
  function FieldText(s: string, p: nat, t: char, delim: char, quote: char): (v: string)
    requires t == 's' || FieldSafe(s, p, delim, quote)
    ensures t == 's' ==> v == ParseString(s, p, delim, quote).0
    ensures t != 's' && At(s, p) != quote ==> v == RawField(s, p, delim)
  {
    if t == 's' then ParseString(s, p, delim, quote).0 else Dequote(RawField(s, p, delim), quote)
  }

  /** The cursor at column `c` of data row `r`, data rows starting at `start`. */
  function FieldPos(s: string, start: nat, fmt: string, r: nat, c: nat, delim: char, quote: char): nat
    requires c <= |fmt| && |fmt| > 0
  {
    WalkCols(s, WalkRows(s, start, fmt, r, delim, quote), fmt, false, c, delim, quote)
  }

  /** The fill pass reaches the next column by stepping over one field, `strcspn`-wise unless the column is `s`. */
  lemma FieldPosStep(s: string, start: nat, fmt: string, r: nat, c: nat, delim: char, quote: char)
    requires c < |fmt|
    ensures FieldPos(s, start, fmt, r, c + 1, delim, quote)
         == NextField(s, FieldPos(s, start, fmt, r, c, delim, quote), fmt[c] == 's', delim, quote)
  {
  }

  /** The non-`s` field at row `r`, column `c` can be de-quoted. */
  predicate FieldSafeAt(s: string, start: nat, fmt: string, r: nat, c: nat, delim: char, quote: char)
    requires c < |fmt|
  {
    fmt[c] != 's' ==> FieldSafe(s, FieldPos(s, start, fmt, r, c, delim, quote), delim, quote)
  }

  /** Every non-`s` field of the first `rows` data rows can be de-quoted. */
  predicate RowsSafe(s: string, start: nat, fmt: string, rows: nat, delim: char, quote: char)
  {
    forall r, c :: 0 <= r < rows && 0 <= c < |fmt| ==> FieldSafeAt(s, start, fmt, r, c, delim, quote)
  }

  /**
   * The inputs the constructor is defined on: C strings, a quote that is
   * not NUL, a schema with columns (or nothing to read), some input when
   * a header is expected, and no lone quote in a non-`s` field.
   */
  predicate Buildable(s: string, fmt: string, hasHeader: bool, delim: char, quote: char) {
    && NoNul(s) && NoNul(fmt) && quote != NUL
    && (|fmt| > 0 || |s| == 0)
    && !(hasHeader && |s| == 0)
    && (|fmt| > 0 ==>
          RowsSafe(s, FillStart(s, fmt, hasHeader, delim, quote), fmt,
                   RowCount(s, fmt, hasHeader, delim, quote) as nat, delim, quote))
  }

  /** The number of data rows of a buildable input. */
  function Rows(s: string, fmt: string, hasHeader: bool, delim: char, quote: char): (n: nat)
    requires Buildable(s, fmt, hasHeader, delim, quote)
    ensures n == RowCount(s, fmt, hasHeader, delim, quote)
  {
    RowCount(s, fmt, hasHeader, delim, quote) as nat
  }

  /** The cell `SaveNewValue` stores for row `r`, column `c` (None for columns that store nothing). */
  function CellAt(s: string, fmt: string, hasHeader: bool, delim: char, quote: char, r: nat, c: nat): (cell: Option<Cell>)
    requires Buildable(s, fmt, hasHeader, delim, quote)
    requires r < Rows(s, fmt, hasHeader, delim, quote) && c < |fmt|
    ensures cell.Some? <==> IsStored(fmt[c])
  {
    var p := FieldPos(s, FillStart(s, fmt, hasHeader, delim, quote), fmt, r, c, delim, quote);
    assert FieldSafeAt(s, FillStart(s, fmt, hasHeader, delim, quote), fmt, r, c, delim, quote);
    Convert(FieldText(s, p, fmt[c], delim, quote), fmt[c])
  }

  /** The cells column `c` holds once the constructor is done: one per row, or none. */
  function ColumnCells(s: string, fmt: string, hasHeader: bool, delim: char, quote: char, c: nat): (cells: seq<Cell>)
    requires Buildable(s, fmt, hasHeader, delim, quote) && c < |fmt|
    ensures |cells| == CellCount(fmt[c], Rows(s, fmt, hasHeader, delim, quote))
  {
    if IsStored(fmt[c]) then
      seq(Rows(s, fmt, hasHeader, delim, quote), r requires 0 <= r < Rows(s, fmt, hasHeader, delim, quote) =>
        CellAt(s, fmt, hasHeader, delim, quote, r, c).value)
    else []
  }

  /** The header field of column `c`, read string-aware from the start of the buffer. */
  function HeaderText(s: string, fmt: string, c: nat, delim: char, quote: char): string
    requires c < |fmt|
  {
    ParseString(s, WalkCols(s, 0, fmt, true, c, delim, quote), delim, quote).0
  }

  /** The key the constructor keeps for column `c`: none without a header, none for a `-` column. */
  function HeaderKey(s: string, fmt: string, hasHeader: bool, c: nat, delim: char, quote: char): (key: Option<string>)
    requires c < |fmt|
    ensures key.None? <==> fmt[c] == '-' || !hasHeader
  {
    if fmt[c] == '-' || !hasHeader then None else Some(HeaderText(s, fmt, c, delim, quote))
  }

  /** The keys of the first `k` columns. */
  function HeaderKeys(s: string, fmt: string, hasHeader: bool, k: nat, delim: char, quote: char): (keys: seq<Option<string>>)
    requires k <= |fmt|
    ensures |keys| == k
    ensures forall c :: 0 <= c < k ==> (keys[c].None? <==> fmt[c] == '-' || !hasHeader)
  {
    if k == 0 then [] else HeaderKeys(s, fmt, hasHeader, k - 1, delim, quote) + [HeaderKey(s, fmt, hasHeader, k - 1, delim, quote)]
  }

  /** Key `c` of the prefix is the key of column `c`. */
  lemma {:induction false} HeaderKeysAt(s: string, fmt: string, hasHeader: bool, k: nat, delim: char, quote: char)
    requires k <= |fmt|
    ensures forall c :: 0 <= c < k ==> HeaderKeys(s, fmt, hasHeader, k, delim, quote)[c] == HeaderKey(s, fmt, hasHeader, c, delim, quote)
  {
    if k > 0 {
      HeaderKeysAt(s, fmt, hasHeader, k - 1, delim, quote);
    }
  }

  /**
   * One field of the header loop: reads the key of column `col` string-aware
   * and moves the cursor on to the next field.
   */
  method ReadKey(s: string, fmt: string, col: nat, delim: char, quote: char, p: nat) returns (key: string, next: nat)
    requires col < |fmt| && p == WalkCols(s, 0, fmt, true, col, delim, quote)
    ensures key == HeaderText(s, fmt, col, delim, quote)
    ensures next == WalkCols(s, 0, fmt, true, col + 1, delim, quote)
  {
    var len;
    key, len := ParseStringValue(s, p, delim, quote);
    next := SkipLineEnds(s, p + len + 1);
  }

  /**
   * One data field of the fill pass: for a non-`s` column, `strcspn`,
   * `strndup` into a fresh buffer and `RemoveEnclosingDoubleQuotes`; for an
   * `s` column, `ParseStringValue`. Returns the text handed to
   * `SaveNewValue` and the bytes the cursor steps over.
   */
  method ReadField(s: string, p: nat, t: char, delim: char, quote: char) returns (val: string, len: nat)
    requires t == 's' || FieldSafe(s, p, delim, quote)
    ensures val == FieldText(s, p, t, delim, quote)
    ensures len == FieldLen(s, p, t == 's', delim, quote)
  {
    if t != 's' {
      len := Span(s, p, delim);
      var buf := new char[len + 1](i => if 0 <= i < len then At(s, p + i) else NUL);
      assert buf[..len] == RawField(s, p, delim);
      RemoveEnclosingDoubleQuotes(buf, quote);
      val := CString(buf[..]);
    } else {
      val, len := ParseStringValue(s, p, delim, quote);
    }
  }

  /**
   * One field of the fill loop, up to the conversion: reads the field at
   * column `col` of data row `row` and moves the cursor on to the next
   * field. The text read converts to the cell the table holds there.
   */
  method ReadCell(s: string, fmt: string, hasHeader: bool, delim: char, quote: char, row: nat, col: nat, p: nat)
    returns (val: string, next: nat)
    requires Buildable(s, fmt, hasHeader, delim, quote)
    requires row < Rows(s, fmt, hasHeader, delim, quote) && col < |fmt|
    requires p == FieldPos(s, FillStart(s, fmt, hasHeader, delim, quote), fmt, row, col, delim, quote)
    ensures next == FieldPos(s, FillStart(s, fmt, hasHeader, delim, quote), fmt, row, col + 1, delim, quote)
    ensures Convert(val, fmt[col]) == CellAt(s, fmt, hasHeader, delim, quote, row, col)
  {
    ghost var start := FillStart(s, fmt, hasHeader, delim, quote);
    assert FieldSafeAt(s, start, fmt, row, col, delim, quote);
    var len;
    val, len := ReadField(s, p, fmt[col], delim, quote);
    next := SkipLineEnds(s, p + len + 1);
    FieldPosStep(s, start, fmt, row, col, delim, quote);
  }
}
