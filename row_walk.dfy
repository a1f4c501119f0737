/**
 * The cursor walk over rows and fields shared by the pre-scan (`CountRows`)
 * and the fill pass of the constructor.
 *
 * After every field the cursor moves past the field, past the one byte that
 * ended it (a delimiter, a line end or the terminator), and then past any run
 * of CR and LF. A field is walked string-aware (`ParseStringValue`, which
 * honours quotes) in `s` columns and in every column of the header row, and
 * with `strcspn` otherwise.
 */
module RowWalk {
  import opened Tokenizer

  /** The bytes the field at `p` occupies: `chars_occupied` when string-aware, `strcspn` otherwise. */
  function FieldLen(s: string, p: nat, aware: bool, delim: char, quote: char): (n: nat)
    ensures !aware || At(s, p) != quote ==> n == Span(s, p, delim)
    ensures aware && At(s, p) == quote ==> n >= 2
  {
    if aware then ParseString(s, p, delim, quote).1 else Span(s, p, delim)
  }

  /** `s += len + 1; while (*s == '\n' || *s == '\r') s++;` */
  function NextField(s: string, p: nat, aware: bool, delim: char, quote: char): (r: nat)
    ensures p + FieldLen(s, p, aware, delim, quote) + 1 <= r
  {
    SkipEol(s, p + FieldLen(s, p, aware, delim, quote) + 1)
  }

  /** Whether column `c` is walked string-aware: `s` columns, and every column of the header row. */
  predicate Aware(fmt: string, c: nat, header: bool)
    requires c < |fmt|
  {
    fmt[c] == 's' || header
  }

  /** The cursor after the first `k` fields of the row that starts at `p`. */
  function WalkCols(s: string, p: nat, fmt: string, header: bool, k: nat, delim: char, quote: char): (r: nat)
    requires k <= |fmt|
    ensures p + k <= r
  {
    if k == 0 then p
    else NextField(s, WalkCols(s, p, fmt, header, k - 1, delim, quote), Aware(fmt, k - 1, header), delim, quote)
  }

  /** Where the row that starts at `p` ends and the next one starts. */
  function RowEnd(s: string, p: nat, fmt: string, header: bool, delim: char, quote: char): (r: nat)
    requires |fmt| > 0
    ensures p < r
  {
    WalkCols(s, p, fmt, header, |fmt|, delim, quote)
  }

  /**
   * The rows `CountRows` walks from `p`: none at the terminator; otherwise
   * this row, and then the rest unless the byte that ended the row was the
   * terminator. Only the first row walked can be the header.
   */
  function RowsFrom(s: string, p: nat, fmt: string, header: bool, delim: char, quote: char): (n: nat)
    requires |fmt| > 0 || At(s, p) == NUL
    ensures n == 0 <==> At(s, p) == NUL
    decreases |s| - p
  {
    if At(s, p) == NUL then 0
    else
      var e := RowEnd(s, p, fmt, header, delim, quote);
      1 + (if At(s, e - 1) == NUL then 0 else RowsFrom(s, e, fmt, false, delim, quote))
  }

  /** `CountRows`: the rows walked from the start of the buffer, less one for the header. */
  function RowCount(s: string, fmt: string, hasHeader: bool, delim: char, quote: char): (r: int)
    requires |fmt| > 0 || At(s, 0) == NUL
    ensures r >= -1
    ensures r == -1 <==> hasHeader && At(s, 0) == NUL
    ensures !hasHeader ==> (r == 0 <==> At(s, 0) == NUL)
  {
    RowsFrom(s, 0, fmt, hasHeader, delim, quote) - (if hasHeader then 1 else 0)
  }

  /** The cursor step after one field of the pre-scan: measure the field, step past it and its end byte, skip line ends. */
  method StepField(s: string, p: nat, aware: bool, delim: char, quote: char) returns (r: nat)
    ensures r == NextField(s, p, aware, delim, quote)
  {
    var len;
    if aware {
      var _, occupied := ParseStringValue(s, p, delim, quote);
      len := occupied;
    } else {
      len := Span(s, p, delim);
    }
    r := SkipLineEnds(s, p + len + 1);
  }

  /** One pass of the column loop of `CountRows`: walks the fields of the row at `p`. */
  method WalkRow(s: string, p: nat, fmt: string, header: bool, delim: char, quote: char) returns (e: nat)
    requires |fmt| > 0
    ensures e == RowEnd(s, p, fmt, header, delim, quote)
  {
    e := p;
    var col := 0;
    while col < |fmt|
      invariant col <= |fmt|
      invariant e == WalkCols(s, p, fmt, header, col, delim, quote)
    {
      e := StepField(s, e, fmt[col] == 's' || header, delim, quote);
      col := col + 1;
    }
  }

  /** The pre-scan of the constructor: walks every field of every row and counts the rows. */
  method CountRows(s: string, fmt: string, hasHeader: bool, delim: char, quote: char) returns (count: int)
    requires |fmt| > 0 || At(s, 0) == NUL
    ensures count == RowCount(s, fmt, hasHeader, delim, quote)
  {
    ghost var total := RowsFrom(s, 0, fmt, hasHeader, delim, quote);
    var n := 0;
    var p := 0;
    while At(s, p) != NUL
      invariant |fmt| > 0 || At(s, p) == NUL
      invariant n == 0 ==> p == 0
      invariant n + RowsFrom(s, p, fmt, hasHeader && n == 0, delim, quote) == total
      decreases |s| - p
    {
      var header := hasHeader && n == 0;
      var e := WalkRow(s, p, fmt, header, delim, quote);
      RowsFromStep(s, p, fmt, header, delim, quote);
      p := e;
      n := n + 1;
      if At(s, p - 1) == NUL {
        assert n == total;
        break;
      }
    }
    assert n == total;
    count := n - (if hasHeader then 1 else 0);
  }

  lemma RowsFromStep(s: string, p: nat, fmt: string, header: bool, delim: char, quote: char)
    requires |fmt| > 0 && At(s, p) != NUL
    ensures RowsFrom(s, p, fmt, header, delim, quote) == 1 +
      (if At(s, RowEnd(s, p, fmt, header, delim, quote) - 1) == NUL then 0
       else RowsFrom(s, RowEnd(s, p, fmt, header, delim, quote), fmt, false, delim, quote))
  {
  }

  /** The cursor at the start of data row `k` when data rows start at `p`. */
  function WalkRows(s: string, p: nat, fmt: string, k: nat, delim: char, quote: char): (r: nat)
    requires |fmt| > 0
    ensures p + k <= r
  {
    if k == 0 then p else RowEnd(s, WalkRows(s, p, fmt, k - 1, delim, quote), fmt, false, delim, quote)
  }

  /** Where the fill pass starts its first data row: past the header, or at the start. */
  function FillStart(s: string, fmt: string, hasHeader: bool, delim: char, quote: char): (r: nat)
    ensures hasHeader ==> |fmt| <= r
    ensures !hasHeader ==> r == 0
  {
    if hasHeader then WalkCols(s, 0, fmt, true, |fmt|, delim, quote) else 0
  }

  lemma {:induction false} WalkRowsShift(s: string, p: nat, fmt: string, k: nat, delim: char, quote: char)
    requires |fmt| > 0
    ensures WalkRows(s, p, fmt, k + 1, delim, quote)
         == WalkRows(s, RowEnd(s, p, fmt, false, delim, quote), fmt, k, delim, quote)
  {
    if k > 0 {
      WalkRowsShift(s, p, fmt, k - 1, delim, quote);
    }
  }

  /**
   * The data rows the walk counts from `p` are exactly the rows that start
   * inside the text: each of the first `RowsFrom` row starts is before the
   * terminator, and the one after them is at or past it.
   */
  lemma {:induction false} RowsFromWalk(s: string, p: nat, fmt: string, delim: char, quote: char)
    requires NoNul(s) && |fmt| > 0
    ensures forall k :: 0 <= k < RowsFrom(s, p, fmt, false, delim, quote) ==> WalkRows(s, p, fmt, k, delim, quote) < |s|
    ensures WalkRows(s, p, fmt, RowsFrom(s, p, fmt, false, delim, quote), delim, quote) >= |s|
    decreases |s| - p
  {
    var n := RowsFrom(s, p, fmt, false, delim, quote);
    if p < |s| {
      var e := RowEnd(s, p, fmt, false, delim, quote);
      if At(s, e - 1) == NUL {
        assert n == 1;
        WalkRowsShift(s, p, fmt, 0, delim, quote);
      } else {
        RowsFromWalk(s, e, fmt, delim, quote);
        forall k | 0 <= k < n
          ensures WalkRows(s, p, fmt, k, delim, quote) < |s|
        {
          if k > 0 {
            WalkRowsShift(s, p, fmt, k - 1, delim, quote);
          }
        }
        WalkRowsShift(s, p, fmt, n - 1, delim, quote);
      }
    }
  }

  /**
   * Past a header, the rows counted are the data rows the fill pass walks:
   * the header row itself is the one subtracted.
   */
  lemma HeaderRowCount(s: string, fmt: string, hasHeader: bool, delim: char, quote: char)
    requires NoNul(s) && |fmt| > 0 && !(hasHeader && |s| == 0)
    ensures RowCount(s, fmt, hasHeader, delim, quote) == RowsFrom(s, FillStart(s, fmt, hasHeader, delim, quote), fmt, false, delim, quote)
  {
  }

  /**
   * The pre-scan and the fill pass agree: every one of the `RowCount` rows
   * the fill pass reads starts inside the text, and the text is used up
   * right after the last of them.
   */
  lemma PrescanMatchesFill(s: string, fmt: string, hasHeader: bool, delim: char, quote: char)
    requires NoNul(s) && |fmt| > 0 && !(hasHeader && |s| == 0)
    ensures RowCount(s, fmt, hasHeader, delim, quote) >= 0
    ensures forall k :: 0 <= k < RowCount(s, fmt, hasHeader, delim, quote) ==>
      WalkRows(s, FillStart(s, fmt, hasHeader, delim, quote), fmt, k, delim, quote) < |s|
    ensures WalkRows(s, FillStart(s, fmt, hasHeader, delim, quote), fmt, RowCount(s, fmt, hasHeader, delim, quote), delim, quote) >= |s|
  {
    HeaderRowCount(s, fmt, hasHeader, delim, quote);
    RowsFromWalk(s, FillStart(s, fmt, hasHeader, delim, quote), fmt, delim, quote);
  }

  /**
   * Blank lines are absorbed: `1` and `2` with a CRLF and an empty line
   * between them are walked as two rows; the walk steps from the end of
   * the `1` field straight to the `2`.
   */
  lemma BlankLinesAbsorbed()
    ensures RowEnd("1\r\n\r\n2", 0, "d", false, ',', '"') == 5
    ensures RowsFrom("1\r\n\r\n2", 0, "d", false, ',', '"') == 2
  {
    var s := "1\r\n\r\n2";
    assert Span(s, 0, ',') == 1 && SkipEol(s, 2) == 5;
    assert Span(s, 5, ',') == 1 && SkipEol(s, 7) == 7;
    assert RowEnd(s, 5, "d", false, ',', '"') == 7;
  }

  /**
   * An empty last field is lost: in `1,` LF `2,3` the field after `1,` is
   * empty, but the cursor steps over the comma and then the line end, so
   * the second field of the first row is read at `2`.
   */
  lemma EmptyLastFieldSkipped()
    ensures WalkCols("1,\n2,3", 0, "dd", false, 1, ',', '"') == 3
  {
    var s := "1,\n2,3";
    assert Span(s, 0, ',') == 1;
    assert SkipEol(s, 3) == 3;
    assert SkipEol(s, 2) == 3;
    assert NextField(s, 0, false, ',', '"') == 3;
  }

  /**
   * The walk reads past the terminator. After a last field that ends on the
   * terminator the cursor steps one byte further: in `1,2` the row ends at
   * index 4, and the line-end skip reads that byte. In `1,2` LF `3` the
   * short last row's second field is read at index 6, past the terminator
   * at 5. Such bytes read as NUL here.
   */
  lemma ReadsPastTerminator()
    ensures RowEnd("1,2", 0, "dd", false, ',', '"') == |"1,2"| + 1
    ensures WalkCols("1,2\n3", 4, "dd", false, 1, ',', '"') == |"1,2\n3"| + 1
  {
    assert Span("1,2", 2, ',') == 1;
    assert Span("1,2\n3", 4, ',') == 1;
  }
}
