/**
 * The field tokenizer of the CSV parser.
 *
 * The input buffer is a C string: its text `s` holds no NUL byte and is
 * followed by the terminator. A cursor is an index into it; `At(s, i)`
 * is the byte the C code reads at index `i`. Reads at or past the
 * terminator give NUL (past the terminator C leaves them undefined).
 */
module Tokenizer {

  const NUL: char := '\0'
  const CR: char := '\r'
  const LF: char := '\n'

  function At(s: string, i: nat): char {
    if i < |s| then s[i] else NUL
  }

  /** The text of a C string holds no NUL byte. */
  predicate NoNul(s: string) {
    forall i :: 0 <= i < |s| ==> s[i] != NUL
  }

  /** The `n` bytes that start at cursor `p`. */
  function Slice(s: string, p: nat, n: nat): (r: string)
    ensures |r| == n
    ensures forall i :: 0 <= i < n ==> r[i] == At(s, p + i)
  {
    seq(n, i requires 0 <= i < n => At(s, p + i))
  }

  /** A byte of the reject set `{'\r', '\n', delimiter, 0}` given to `strcspn`. */
  predicate IsStop(c: char, delim: char) {
    c == CR || c == LF || c == delim || c == NUL
  }

  predicate IsLineEnd(c: char) {
    c == CR || c == LF
  }

  /**
   * `strcspn(s + p, delim_chars)`: the length of the longest run of bytes
   * from `p` that holds no CR, LF, delimiter or terminator.
   */
  function Span(s: string, p: nat, delim: char): (n: nat)
    ensures IsStop(At(s, p + n), delim)
    decreases |s| - p
  {
    if IsStop(At(s, p), delim) then 0 else 1 + Span(s, p + 1, delim)
  }

  /** No stop byte comes before the one `Span` stops at: the run is the longest one. */
  lemma {:induction false} SpanIsLongest(s: string, p: nat, delim: char)
    ensures forall i :: p <= i < p + Span(s, p, delim) ==> !IsStop(At(s, i), delim)
    decreases |s| - p
  {
    if !IsStop(At(s, p), delim) {
      SpanIsLongest(s, p + 1, delim);
    }
  }

  /** A run of `n` non-stop bytes followed by a stop byte is what `Span` measures. */
  lemma {:induction false} SpanOfRun(s: string, p: nat, n: nat, delim: char)
    requires forall i :: p <= i < p + n ==> !IsStop(At(s, i), delim)
    requires IsStop(At(s, p + n), delim)
    ensures Span(s, p, delim) == n
    decreases n
  {
    if n > 0 {
      SpanOfRun(s, p + 1, n - 1, delim);
    }
  }

  /**
   * Where `while (*s == '\n' || *s == '\r') s++;` leaves the cursor: past
   * the whole run of line ends at `p`, so CRLF pairs and blank lines vanish.
   */
  function SkipEol(s: string, p: nat): (r: nat)
    ensures p <= r
    ensures !IsLineEnd(At(s, r))
    decreases |s| - p
  {
    if IsLineEnd(At(s, p)) then SkipEol(s, p + 1) else p
  }

  /** Everything `SkipEol` passes over is a line end. */
  lemma {:induction false} SkipEolSkipsLineEnds(s: string, p: nat)
    ensures forall i :: p <= i < SkipEol(s, p) ==> IsLineEnd(At(s, i))
    decreases |s| - p
  {
    if IsLineEnd(At(s, p)) {
      SkipEolSkipsLineEnds(s, p + 1);
    }
  }

  /** A run of line ends from `p` that ends at `q` is exactly what `SkipEol` skips. */
  lemma {:induction false} SkipEolOfRun(s: string, p: nat, q: nat)
    requires p <= q
    requires forall i :: p <= i < q ==> IsLineEnd(At(s, i))
    requires !IsLineEnd(At(s, q))
    ensures SkipEol(s, p) == q
    decreases q - p
  {
    if p < q {
      SkipEolOfRun(s, p + 1, q);
    }
  }

  /** The line-end skipping loop the parser runs after every field. */
  method SkipLineEnds(s: string, p: nat) returns (r: nat)
    ensures r == SkipEol(s, p)
  {
    r := p;
    while At(s, r) == LF || At(s, r) == CR
      invariant p <= r
      invariant SkipEol(s, r) == SkipEol(s, p)
      decreases |s| - r
    {
      r := r + 1;
    }
  }

  /** The quoted field's scan stops here: at the end of input or at a quote not doubled. */
  predicate EndsQuoted(s: string, i: nat, quote: char) {
    At(s, i) == NUL || (At(s, i) == quote && At(s, i + 1) != quote)
  }

  /**
   * The interior of a quoted field from `p` (just after the opening quote):
   * the decoded text and the number of interior bytes scanned. A doubled
   * quote is one character of text and two bytes of input.
   */
  function QuotedBody(s: string, p: nat, quote: char): (r: (string, nat))
    ensures |r.0| <= r.1
    ensures EndsQuoted(s, p + r.1, quote)
    decreases |s| - p
  {
    var c := At(s, p);
    if EndsQuoted(s, p, quote) then ([], 0)
    else
      var step := if c == quote then 2 else 1;
      var rest := QuotedBody(s, p + step, quote);
      ([c] + rest.0, rest.1 + step)
  }

  /**
   * ParseStringValue: the text of the field at `p` and the number of bytes
   * it occupies (`chars_occupied`). An unquoted field runs to the first
   * stop byte; a quoted one occupies its two quotes plus the interior.
   */
  function ParseString(s: string, p: nat, delim: char, quote: char): (r: (string, nat))
    ensures At(s, p) != quote ==> IsStop(At(s, p + r.1), delim) && r.0 == Slice(s, p, r.1)
    ensures At(s, p) == quote ==>
      2 <= r.1 && |r.0| <= r.1 - 2 && EndsQuoted(s, p + r.1 - 1, quote)
  {
    if At(s, p) != quote then
      var n := Span(s, p, delim);
      (Slice(s, p, n), n)
    else
      var body := QuotedBody(s, p + 1, quote);
      (body.0, body.1 + 2)
  }

  /**
   * An unquoted field is the longest run from `p` without a CR, LF,
   * delimiter or terminator, and it occupies exactly that run.
   */
  lemma UnquotedField(s: string, p: nat, delim: char, quote: char)
    requires At(s, p) != quote
    ensures var r := ParseString(s, p, delim, quote);
      (forall i :: p <= i < p + r.1 ==> !IsStop(At(s, i), delim)) &&
      IsStop(At(s, p + r.1), delim) &&
      r.0 == Slice(s, p, r.1)
  {
    SpanIsLongest(s, p, delim);
  }

  /**
   * The C routine: an unquoted field is copied with `strndup`; a quoted one
   * is scanned once to count its bytes and its decoded length, then copied
   * into a fresh buffer of that length.
   */
  method ParseStringValue(s: string, p: nat, delim: char, quote: char)
    returns (text: string, occupied: nat)
    ensures (text, occupied) == ParseString(s, p, delim, quote)
  {
    if At(s, p) != quote {
      occupied := Span(s, p, delim);
      var copy := new char[occupied + 1](i => if 0 <= i < occupied then At(s, p + i) else NUL);
      text := copy[..occupied];
      assert text == Slice(s, p, occupied);
      return;
    }
    var len;
    len, occupied := ScanQuoted(s, p + 1, quote);
    text := CopyQuoted(s, p + 1, quote, len);
  }

  /**
   * The scan loop of a quoted field from `base`, just past the opening
   * quote: `chars_occupied` starts at 2 for the two quotes and grows by the
   * bytes each step takes; `len` counts the decoded characters.
   */
  method ScanQuoted(s: string, base: nat, quote: char) returns (len: nat, occupied: nat)
    ensures len == |QuotedBody(s, base, quote).0|
    ensures occupied == QuotedBody(s, base, quote).1 + 2
  {
    occupied := 2;
    var cur := base;
    len := 0;
    ghost var whole := QuotedBody(s, base, quote);
    while At(s, cur) != NUL
      invariant base <= cur
      invariant occupied == 2 + (cur - base)
      invariant len + |QuotedBody(s, cur, quote).0| == |whole.0|
      invariant (cur - base) + QuotedBody(s, cur, quote).1 == whole.1
      decreases |s| - cur
    {
      if At(s, cur) == quote && At(s, cur + 1) != quote {
        break;
      }
      var toAdd := if At(s, cur) == quote && At(s, cur + 1) == quote then 2 else 1;
      QuotedStep(s, cur, quote);
      cur := cur + toAdd;
      occupied := occupied + toAdd;
      len := len + 1;
    }
    assert EndsQuoted(s, cur, quote);
  }

  /**
   * The copy loop of a quoted field: `len` characters into a buffer of
   * `len + 1` bytes, skipping the second quote of every doubled pair.
   */
  method CopyQuoted(s: string, base: nat, quote: char, len: nat) returns (text: string)
    requires len == |QuotedBody(s, base, quote).0|
    ensures text == QuotedBody(s, base, quote).0
  {
    ghost var whole := QuotedBody(s, base, quote).0;
    var buf := new char[len + 1];
    buf[len] := NUL;
    var cur := base;
    var i := 0;
    while i < len
      invariant 0 <= i <= len
      invariant QuotedBody(s, cur, quote).0 == whole[i..]
      invariant forall j :: 0 <= j < i ==> buf[j] == whole[j]
    {
      QuotedStep(s, cur, quote);
      buf[i] := At(s, cur);
      cur := cur + 1;
      if At(s, cur - 1) == quote && At(s, cur) == quote {
        cur := cur + 1;
      }
      assert whole[i + 1..] == whole[i..][1..];
      i := i + 1;
    }
    text := buf[..len];
  }

  /** One step of the quoted scan: a plain byte costs one input byte, a doubled quote two. */
  lemma QuotedStep(s: string, p: nat, quote: char)
    requires !EndsQuoted(s, p, quote)
    ensures var step := if At(s, p) == quote then 2 else 1;
      QuotedBody(s, p, quote) == ([At(s, p)] + QuotedBody(s, p + step, quote).0, QuotedBody(s, p + step, quote).1 + step)
  {
  }

  /** How often `c` occurs in `t`. */
  function Occurrences(t: string, c: char): (n: nat)
    ensures n <= |t|
  {
    if t == [] then 0 else (if t[0] == c then 1 else 0) + Occurrences(t[1..], c)
  }

  /** The escaping of section 2, item 7 of RFC 4180: every quote is written twice. */
  function Escape(t: string, quote: char): (e: string)
    ensures |e| == |t| + Occurrences(t, quote)
  {
    if t == [] then [] else (if t[0] == quote then [quote, quote] else [t[0]]) + Escape(t[1..], quote)
  }

  /**
   * Counting: every character of the decoded text costs one input byte,
   * and each quote in it (a collapsed doubled quote) one byte more.
   */
  lemma {:induction false} QuotedCounts(s: string, p: nat, quote: char)
    ensures QuotedBody(s, p, quote).1 == |QuotedBody(s, p, quote).0| + Occurrences(QuotedBody(s, p, quote).0, quote)
    decreases |s| - p
  {
    var c := At(s, p);
    if !EndsQuoted(s, p, quote) {
      var step := if c == quote then 2 else 1;
      QuotedCounts(s, p + step, quote);
      var t := [c] + QuotedBody(s, p + step, quote).0;
      assert t[1..] == QuotedBody(s, p + step, quote).0;
    }
  }

  /** Decoding then escaping gives back exactly the interior bytes scanned. */
  lemma {:induction false} EscapeOfDecoded(s: string, p: nat, quote: char)
    ensures Escape(QuotedBody(s, p, quote).0, quote) == Slice(s, p, QuotedBody(s, p, quote).1)
    decreases |s| - p
  {
    var c := At(s, p);
    if !EndsQuoted(s, p, quote) {
      var step := if c == quote then 2 else 1;
      var rest := QuotedBody(s, p + step, quote);
      var t := [c] + rest.0;
      assert QuotedBody(s, p, quote) == (t, rest.1 + step);
      assert Escape(t, quote) == Slice(s, p, step) + Escape(rest.0, quote) by {
        assert t[1..] == rest.0;
        assert Slice(s, p, step) == (if c == quote then [quote, quote] else [c]);
      }
      EscapeOfDecoded(s, p + step, quote);
      SliceSplit(s, p, step, rest.1);
    }
  }

  /** Adjacent slices join into one. */
  lemma SliceSplit(s: string, p: nat, a: nat, b: nat)
    ensures Slice(s, p, a + b) == Slice(s, p, a) + Slice(s, p + a, b)
  {
  }

  /**
   * Escaping then decoding is the identity: if the interior bytes at `p`
   * are the escaping of `t` and a single quote follows, the scan decodes
   * `t` and stops on that quote.
   */
  lemma {:induction false} DecodeOfEscaped(s: string, p: nat, t: string, quote: char)
    requires quote != NUL && NoNul(t)
    requires Slice(s, p, |Escape(t, quote)|) == Escape(t, quote)
    requires At(s, p + |Escape(t, quote)|) == quote
    requires At(s, p + |Escape(t, quote)| + 1) != quote
    ensures QuotedBody(s, p, quote) == (t, |Escape(t, quote)|)
    decreases |t|
  {
    if t != [] {
      var step := if t[0] == quote then 2 else 1;
      EscapedStep(s, p, t, quote);
      DecodeOfEscaped(s, p + step, t[1..], quote);
      QuotedStep(s, p, quote);
      assert [t[0]] + t[1..] == t;
    }
  }

  /** The first character of an escaped text, read back: one step of the scan. */
  lemma EscapedStep(s: string, p: nat, t: string, quote: char)
    requires t != [] && quote != NUL && NoNul(t)
    requires Slice(s, p, |Escape(t, quote)|) == Escape(t, quote)
    ensures var step := if t[0] == quote then 2 else 1;
      && !EndsQuoted(s, p, quote)
      && At(s, p) == t[0]
      && NoNul(t[1..])
      && Slice(s, p + step, |Escape(t[1..], quote)|) == Escape(t[1..], quote)
      && |Escape(t, quote)| == step + |Escape(t[1..], quote)|
  {
    var step := if t[0] == quote then 2 else 1;
    var head := if t[0] == quote then [quote, quote] else [t[0]];
    var e' := Escape(t[1..], quote);
    assert Escape(t, quote) == head + e';
    SliceSplit(s, p, step, |e'|);
    assert Slice(s, p, step) == head && Slice(s, p + step, |e'|) == e' by {
      assert Slice(s, p, step) + Slice(s, p + step, |e'|) == head + e';
      assert Slice(s, p, step) == (head + e')[..step];
      assert Slice(s, p + step, |e'|) == (head + e')[step..];
    }
    assert At(s, p) == t[0] by {
      assert Slice(s, p, step)[0] == At(s, p);
    }
    if step == 2 {
      assert Slice(s, p, step)[1] == At(s, p + 1);
    }
    assert NoNul(t[1..]) by {
      assert forall i :: 0 <= i < |t[1..]| ==> t[1..][i] == t[i + 1];
    }
  }

  /** Round trip of the whole quoted field: `"` + Escape(t) + `"` parses back to `t`. */
  lemma ParseQuotedRoundTrip(s: string, p: nat, t: string, delim: char, quote: char)
    requires quote != NUL && NoNul(t)
    requires At(s, p) == quote
    requires Slice(s, p + 1, |Escape(t, quote)|) == Escape(t, quote)
    requires At(s, p + 1 + |Escape(t, quote)|) == quote
    requires At(s, p + 2 + |Escape(t, quote)|) != quote
    ensures ParseString(s, p, delim, quote) == (t, |Escape(t, quote)| + 2)
  {
    DecodeOfEscaped(s, p + 1, t, quote);
  }

  /** The quoted field `"he said ""hi"""` decodes to `he said "hi"` and occupies all 16 bytes. */
  lemma QuotedExample(q: char)
    requires q == '"'
    ensures ParseString([q] + ("he said " + [q, q] + "hi" + [q, q]) + [q], 0, ',', q) == ("he said " + [q] + "hi" + [q], 16)
  {
    var t := "he said " + [q] + "hi" + [q];
    var e := "he said " + [q, q] + "hi" + [q, q];
    var s := [q] + e + [q];
    EscapeTwoQuotes("he said ", "hi", q);
    assert NoNul("he said ") && NoNul("hi") && NoNul([q]);
    NoNulJoin("he said ", [q]);
    NoNulJoin("he said " + [q], "hi");
    NoNulJoin("he said " + [q] + "hi", [q]);
    SliceOfJoin([q], e, [q]);
    DecodeOfEscaped(s, 1, t, q);
  }

  /** Escaping a text with two quotes in it, as in the example above. */
  lemma EscapeTwoQuotes(a: string, b: string, q: char)
    requires forall i :: 0 <= i < |a| ==> a[i] != q
    requires forall i :: 0 <= i < |b| ==> b[i] != q
    ensures Escape(a + [q] + b + [q], q) == a + [q, q] + b + [q, q]
  {
    assert Escape(a, q) == a by { EscapeUnquoted(a, q); }
    assert Escape(b, q) == b by { EscapeUnquoted(b, q); }
    assert Escape([q], q) == [q, q];
    assert Escape(a + [q], q) == a + [q, q] by { EscapeAppend(a, [q], q); }
    assert Escape(a + [q] + b, q) == a + [q, q] + b by { EscapeAppend(a + [q], b, q); }
    EscapeAppend(a + [q] + b, [q], q);
  }

  lemma NoNulJoin(a: string, b: string)
    requires NoNul(a) && NoNul(b)
    ensures NoNul(a + b)
  {
  }

  /** Escaping works character by character, so it distributes over concatenation. */
  lemma {:induction false} EscapeAppend(a: string, b: string, quote: char)
    ensures Escape(a + b, quote) == Escape(a, quote) + Escape(b, quote)
    decreases |a|
  {
    if a != [] {
      assert (a + b)[1..] == a[1..] + b;
      EscapeAppend(a[1..], b, quote);
    } else {
      assert a + b == b;
    }
  }

  /** Text without the quote character is its own escaping. */
  lemma {:induction false} EscapeUnquoted(t: string, quote: char)
    requires forall i :: 0 <= i < |t| ==> t[i] != quote
    ensures Escape(t, quote) == t
    decreases |t|
  {
    if t != [] {
      EscapeUnquoted(t[1..], quote);
      assert [t[0]] + t[1..] == t;
    }
  }

  /** The bytes of the middle part of `a + e + b`. */
  lemma SliceOfJoin(a: string, e: string, b: string)
    ensures Slice(a + e + b, |a|, |e|) == e
  {
  }

  /** The bytes up to the first NUL: what C sees as the string stored in `buf`. */
  function CString(buf: string): (r: string)
    ensures NoNul(r) && |r| <= |buf| && r == buf[..|r|]
    ensures |r| < |buf| ==> buf[|r|] == NUL
  {
    if buf == [] || buf[0] == NUL then [] else [buf[0]] + CString(buf[1..])
  }

  /** A buffer whose first NUL is at `k` holds the C string `buf[..k]`. */
  lemma CStringAt(buf: string, k: nat)
    requires k < |buf| && buf[k] == NUL && NoNul(buf[..k])
    ensures CString(buf) == buf[..k]
  {
  }

  /**
   * The cases where RemoveEnclosingDoubleQuotes stays inside its buffer:
   * a string that starts with the quote has at least two bytes, and the
   * quote is not NUL (else the empty string would be taken as quoted).
   */
  predicate DequoteSafe(v: string, quote: char) {
    quote != NUL && (|v| > 0 && v[0] == quote ==> |v| >= 2)
  }

  /**
   * RemoveEnclosingDoubleQuotes on the C string `v`: a leading quote is
   * dropped by shifting everything left, and the last byte is dropped if
   * it is a quote. When it is not, the shift leaves the old last byte in
   * place, so the result ends with that byte twice (`"12` becomes `122`).
   */
  function Dequote(v: string, quote: char): (r: string)
    requires DequoteSafe(v, quote)
    ensures (v == [] || v[0] != quote) ==> r == v
    ensures |v| >= 2 && v[0] == quote && v[|v| - 1] == quote ==> [quote] + r + [quote] == v
    ensures |v| >= 2 && v[0] == quote && v[|v| - 1] != quote ==> r == v[1..] + [v[|v| - 1]]
  {
    if |v| > 0 && v[0] == quote then
      if v[|v| - 1] == quote then v[1..|v| - 1] else v[1..] + [v[|v| - 1]]
    else v
  }

  /** A numeric field wrapped in quotes loses exactly the wrapping: `"1"` gives `1`. */
  lemma DequoteEnclosed(t: string, quote: char)
    requires quote != NUL
    ensures Dequote([quote] + t + [quote], quote) == t
  {
  }

  /**
   * The C routine, in place on the buffer made by `strndup`: `a` holds the
   * string and its terminator. The loop `while (*++s) *(s-1) = *s;` shifts
   * the bytes left; the terminator is not moved.
   */
  method RemoveEnclosingDoubleQuotes(a: array<char>, quote: char)
    requires a.Length >= 1 && a[a.Length - 1] == NUL && NoNul(a[..a.Length - 1])
    requires DequoteSafe(a[..a.Length - 1], quote)
    modifies a
    ensures CString(a[..]) == Dequote(old(a[..a.Length - 1]), quote)
  {
    ghost var v := a[..a.Length - 1];
    var n := a.Length - 1;
    if a[0] == quote {
      var i := 1;
      while a[i] != NUL
        invariant 1 <= i <= n
        invariant forall j :: 0 <= j < i - 1 ==> a[j] == v[j + 1]
        invariant forall j :: i - 1 <= j < a.Length ==> a[j] == old(a[j])
        decreases n - i
      {
        a[i - 1] := a[i];
        i := i + 1;
      }
      if a[i - 2] == quote {
        a[i - 2] := NUL;
        assert a[..n - 2] == v[1..n - 1];
        CStringAt(a[..], n - 2);
      } else {
        assert a[..n] == v[1..] + [v[n - 1]];
        CStringAt(a[..], n);
      }
    } else {
      assert a[..n] == v;
      CStringAt(a[..], n);
    }
  }
}
