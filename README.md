# CSV_Parser for Arduino, modelled in Dafny

This project models the parsing and layout engine of CSV_Parser
(`src/csv_parser.cpp`). The engine takes a NUL-terminated CSV buffer and a
format string with one character per column:

- `s`: string
- `f`: float
- `L`: 32-bit integer
- `d`: 16-bit integer
- `c`: 8-bit integer
- `x`: hexadecimal, stored in 32 bits
- `-`: unused

From these it builds a table: one typed array of values per column, plus
the header keys.

The modules follow the structure of the source file:

- `Schema`: `GetTypeSize` and `GetTypeName`, the two switches over the
  format characters, and the number of cells a column's block holds.
- `Tokenizer`: the field tokenizer.
  - `ParseStringValue` is both a pure function `ParseString` and a method
    with the C routine's two loops: a scan that counts, then a copy that
    collapses doubled quotes.
  - The narrow de-quoting path for non-string columns (`strcspn`, then
    `RemoveEnclosingDoubleQuotes`, which shifts the buffer in place) is
    modelled as its own operation.
  - Includes the cursor step over line ends.
- `Coercion`: `SaveNewValue`'s conversion of a field's text.
  - `atoi`, `atol` and `strtol(.., 16)` are modelled as one function: the
    leading integer of the text, read without bound.
  - That value is then narrowed to the column's width in two's complement.
- `RowWalk`: the cursor walk over rows and fields.
  - `CountRows` (the pre-scan) and the fill pass share it.
  - Proves that the pre-scan's row count is exactly the number of data rows
    the fill pass walks.
- `Fill`: what the fill pass reads at each row and column, and the header
  keys.
- `CsvParser`: the `Parser` class.
  - The constructor counts rows, reads the header, allocates, then fills
    the cells. Each loop is proved against its specification function.
  - Also holds `SaveNewValue` and the accessors.

The input buffer is a `string` with no NUL in it. A read at or past its
end gives NUL, which stands for the terminator.

Behaviour of the code that the model keeps as written:

- After every field the cursor steps over one byte and then over any run of
  CR and LF. Blank lines therefore vanish.
- An empty last field on a line is stepped over together with the line
  end. The first field of the next line is then read in its place.
- `RemoveEnclosingDoubleQuotes` on text that opens with a quote but does
  not close with one drops the opening quote and repeats the last byte:
  `"12` becomes `122`.

## Model

| member | source | states |
|---|---|---|
| Schema.TypeSize | src/csv_parser.cpp:158-171 | a cell has a width exactly for `s f L d c x`; integer widths are 1, 2 or 4 bytes, a float 4; `-`, NUL and unknown specifiers give 0 |
| Schema.TypeName | src/csv_parser.cpp:173-185 | `unused` exactly for `-` and NUL, `unknown` exactly for every other specifier without storage |
| Schema.SizeAgreesWithName | src/csv_parser.cpp:158-185 | the two switches agree: zero width exactly when the name is `unused` or `unknown` |
| Schema.CellCount | src/csv_parser.cpp:23-24 | a column block of `GetTypeSize * rows_count` bytes holds `rows_count` cells for a typed column and none otherwise |
| Tokenizer.Span | src/csv_parser.cpp:94-96 | `strcspn` stops on a CR, LF, delimiter or terminator |
| Tokenizer.SpanIsLongest | src/csv_parser.cpp:94-96 | no stop byte comes before the one `strcspn` stops on |
| Tokenizer.SpanOfRun | src/csv_parser.cpp:94-96 | a run without stop bytes that ends on a stop byte is exactly what `strcspn` measures |
| Tokenizer.SkipEol | src/csv_parser.cpp:26-27 | the line-end skip never moves back and stops on a byte that is not CR or LF |
| Tokenizer.SkipEolSkipsLineEnds | src/csv_parser.cpp:146-147 | every byte the skip passes over is a CR or LF |
| Tokenizer.SkipEolOfRun | src/csv_parser.cpp:146-147 | a run of CR/LF is skipped whole, so CRLF pairs and blank lines are absorbed |
| Tokenizer.SkipLineEnds | src/csv_parser.cpp:49 | the loop leaves the cursor where `SkipEol` says |
| Tokenizer.QuotedBody | src/csv_parser.cpp:107-117 | the decoded text is no longer than the bytes scanned, and the scan stops at the terminator or at a quote that is not doubled |
| Tokenizer.ParseString | src/csv_parser.cpp:91-131 | unquoted: the field is the bytes up to a stop byte; quoted: it occupies at least 2 bytes, decodes to at most `occupied - 2` characters and ends on the closing quote or the terminator |
| Tokenizer.UnquotedField | src/csv_parser.cpp:94-96 | an unquoted field is the longest prefix without a CR, LF, delimiter or terminator and occupies exactly that prefix |
| Tokenizer.ParseStringValue | src/csv_parser.cpp:91-131 | the C routine returns the text and `chars_occupied` of `ParseString` |
| Tokenizer.ScanQuoted | src/csv_parser.cpp:101-117 | the counting loop yields the decoded length and `2 +` the interior bytes scanned |
| Tokenizer.CopyQuoted | src/csv_parser.cpp:119-130 | the copy loop writes exactly the decoded text, one quote per doubled pair |
| Tokenizer.QuotedStep | src/csv_parser.cpp:112-116 | one scan step takes one byte, or two for a doubled quote, and yields one character |
| Tokenizer.Escape | src/csv_parser.cpp:125-129 | the reverse of the decoding (every quote written twice) lengthens the text by the number of its quotes |
| Tokenizer.QuotedCounts | src/csv_parser.cpp:101-117 | bytes scanned = decoded length + number of quotes decoded: a doubled quote adds 2 to the count and 1 to the text |
| Tokenizer.EscapeOfDecoded | src/csv_parser.cpp:119-129 | escaping the decoded text gives back exactly the interior bytes scanned |
| Tokenizer.DecodeOfEscaped | src/csv_parser.cpp:107-129 | the escaped text followed by a single quote decodes back to the text and is scanned whole |
| Tokenizer.ParseQuotedRoundTrip | src/csv_parser.cpp:99-131 | a field of a quote, the escaped text and a quote parses to the text and occupies the escaped length plus 2 |
| Tokenizer.QuotedExample | src/csv_parser.cpp:119-129 | `"he said ""hi"""` decodes to `he said "hi"` and occupies 16 bytes |
| Tokenizer.Dequote | src/csv_parser.cpp:78-88 | text not opening with the quote is unchanged; text enclosed in quotes loses them; text that only opens with one loses it and repeats its last byte |
| Tokenizer.DequoteEnclosed | src/csv_parser.cpp:78-88 | a field enclosed in quotes loses exactly the enclosing quotes: `"1"` becomes `1` |
| Tokenizer.RemoveEnclosingDoubleQuotes | src/csv_parser.cpp:78-88 | the in-place left shift and truncation leave the C string `Dequote` describes |
| Coercion.Wrap | src/csv_parser.cpp:191-194 | the cast to a signed 8-, 16- or 32-bit type yields the in-range value congruent to the input and keeps values already in range |
| Coercion.Convert | src/csv_parser.cpp:187-197 | a cell exactly for typed columns; `s` keeps the text; integer cells lie in the range of their column's width |
| Coercion.LeadingInteger | src/csv_parser.cpp:191-194 | `atoi`/`atol`/`strtol(.., 16)`: blank text, or text whose first byte after white space is neither a sign nor a digit, reads as 0; only a leading minus gives a negative number |
| Coercion.LeadingIntegerOfRender | src/csv_parser.cpp:191-194 | `atoi`/`strtol` read back an integer's decimal or hexadecimal text, whatever non-digit text follows |
| Coercion.ConvertRoundTrip | src/csv_parser.cpp:191-194 | an integer that fits its column's width, written in the column's base, is stored as itself |
| Coercion.ConvertTruncates | src/csv_parser.cpp:192 | a value too wide for its column keeps its low bits: 40000 in a `d` column is stored as -25536 |
| RowWalk.FieldLen | src/csv_parser.cpp:139-143 | a field walked with `strcspn`, or an unquoted one, occupies its `strcspn` run; a quoted one occupies at least 2 bytes |
| RowWalk.NextField | src/csv_parser.cpp:145-147 | the cursor moves past the field and at least the one byte that ended it |
| RowWalk.WalkCols | src/csv_parser.cpp:138-148 | after `k` fields the cursor has moved at least `k` bytes |
| RowWalk.RowEnd | src/csv_parser.cpp:138-148 | every row moves the cursor forward |
| RowWalk.RowsFrom | src/csv_parser.cpp:137-153 | no row is walked exactly when the cursor is at the terminator |
| RowWalk.RowCount | src/csv_parser.cpp:134-155 | the rows walked less the header flag: -1 exactly for empty input with a header, and without a header 0 exactly for empty input |
| RowWalk.StepField | src/csv_parser.cpp:139-147 | one field step of the pre-scan moves the cursor as `NextField` says |
| RowWalk.WalkRow | src/csv_parser.cpp:138-148 | the column loop ends where the row ends |
| RowWalk.CountRows | src/csv_parser.cpp:134-155 | the pre-scan returns `RowCount` |
| RowWalk.WalkRows | src/csv_parser.cpp:33-51 | after `k` data rows the cursor has moved at least `k` bytes |
| RowWalk.FillStart | src/csv_parser.cpp:15-31 | the fill pass starts past the header row when there is one, at the start of the buffer otherwise |
| RowWalk.RowsFromWalk | src/csv_parser.cpp:137-153 | each counted row starts inside the text, and the row after the last counted one starts at or past its end |
| RowWalk.HeaderRowCount | src/csv_parser.cpp:154 | with a header the one row subtracted is the header row: the count is the data rows walked from the fill pass's start |
| RowWalk.PrescanMatchesFill | src/csv_parser.cpp:11-51 | the pre-scan and the fill pass agree: each of the counted data rows the fill pass reads starts inside the text, and the text is used up right after the last one |
| RowWalk.BlankLinesAbsorbed | src/csv_parser.cpp:146-147 | `1`, CRLF, an empty line, `2` is walked as two rows, the second starting right at `2` |
| RowWalk.ReadsPastTerminator | src/csv_parser.cpp:145-147 | in `1,2` the last row ends one byte past the terminator, and in `1,2` LF `3` the short last row's second field is read one byte past it |
| RowWalk.EmptyLastFieldSkipped | src/csv_parser.cpp:26-27 | in `1,` LF `2,3` the empty second field is skipped with the line end, and the second field is read at `2` |
| Fill.RawField | src/csv_parser.cpp:38-39 | the `strndup` copy of a non-`s` field is its `strcspn` run and holds no NUL |
| Fill.FieldText | src/csv_parser.cpp:37-43 | an `s` field is read with `ParseStringValue`; another field not opening with a quote is its raw run |
| Fill.FieldPosStep | src/csv_parser.cpp:47-49 | the fill pass steps from one field to the next as the pre-scan does, `strcspn`-wise outside `s` columns |
| Fill.Rows | src/csv_parser.cpp:11 | the data rows of a buildable input are the pre-scan's count |
| Fill.CellAt | src/csv_parser.cpp:35-45 | the fill pass stores a cell at a row and column exactly when the column is typed |
| Fill.ColumnCells | src/csv_parser.cpp:33-51 | a column's cells are one per data row for a typed column, none otherwise |
| Fill.HeaderKey | src/csv_parser.cpp:18-22 | a key is kept exactly when there is a header and the column is not `-` |
| Fill.HeaderKeys | src/csv_parser.cpp:16-22 | one key per column, null exactly for `-` columns or without a header |
| Fill.HeaderKeysAt | src/csv_parser.cpp:16-22 | entry `c` of the keys is the key of column `c` |
| Fill.ReadKey | src/csv_parser.cpp:17-27 | the key read is the header field at the column, and the cursor moves on to the next field |
| Fill.ReadField | src/csv_parser.cpp:35-43 | the text handed to `SaveNewValue` and the field length the cursor steps over |
| Fill.ReadCell | src/csv_parser.cpp:35-49 | the text read converts to the cell the table holds there, and the cursor moves to the next field |
| CsvParser.KeyIndex | src/csv_parser.cpp:209-214 | the first column whose key equals `key`; null keys never match; a miss means no key matches |
| CsvParser.KeyLookup | src/csv_parser.cpp:209-214 | a lookup finds the first non-`-` column whose header field equals the key; without a header nothing is found |
| CsvParser.Parser.Storage | src/csv_parser.cpp:23-24 | no block for `-`, otherwise a block of `CellCount` cells |
| CsvParser.Parser.constructor | src/csv_parser.cpp:3-52 | `cols_count == |fmt|`, `rows_count` is the pre-scan's count, keys are the header keys, and every typed column holds one correctly converted cell per data row |
| CsvParser.Parser.ReadHeader | src/csv_parser.cpp:16-28 | the header loop leaves the header keys, allocates every column, and ends past the header row |
| CsvParser.Parser.ReadHeaderField | src/csv_parser.cpp:17-27 | one header field: its key (null for `-` or without a header), its column's block, the cursor on the next field |
| CsvParser.Parser.FillRows | src/csv_parser.cpp:33-51 | the fill loop leaves every typed column holding the cells of every data row |
| CsvParser.Parser.FillRow | src/csv_parser.cpp:34-50 | one row of the fill loop writes that row's cells, leaves the later rows as they were, and ends at the next row |
| CsvParser.Parser.FillCell | src/csv_parser.cpp:35-49 | one field of the fill loop writes that field's cell, leaves the other columns and the later rows as they were, and moves to the next field |
| CsvParser.Parser.SaveNewValue | src/csv_parser.cpp:187-197 | only cell `row` of column `col` changes, to the field converted for the column's type; `-` and unknown columns are untouched |
| CsvParser.Parser.GetColumnsCount | src/csv_parser.cpp:206 | the number of format characters |
| CsvParser.Parser.GetRowsCount | src/csv_parser.cpp:207 | the data rows the pre-scan counted, excluding the header |
| CsvParser.Parser.GetValuesAt | src/csv_parser.cpp:216 | a column exactly for an index below `cols_count` that is not `-`, and it is that column's cells as the constructor read them; a non-negative index is required |
| CsvParser.Parser.GetValuesByKey | src/csv_parser.cpp:209-214 | the column of the first key equal to `key`, holding that column's cells as the constructor read them; null exactly when no key matches; `key` is a C string |

## Left out

- `Print`, `PrintKeys`, `operator String` and the `Serial.println` in `GetTypeSize`'s default case: Arduino output, not part of the parsing.
- `operator[]`: the two operators only forward to `GetValues`, so they are not modelled separately.
- The destructor, `free` and the `strdup` of `fmt`: memory management. `types` is the format string itself.
- Coercion.Convert: an `f` cell keeps the field's text instead of the `float` that `atof` makes. Floating point is not modelled, only the column's existence and length.
- Coercion.LeadingInteger: reads the number without bound and then narrows it. It does not model `strtol` saturating at the `long` range, nor `atoi`/`atol` overflow, which is undefined in C.
- Coercion.Wrap: a `c` cell is read as a signed 8-bit value. Boards where `char` is unsigned are not modelled.
- Schema.PointerSize: the width of a `char*` is fixed at 2 bytes, as on the 8-bit AVR boards. It only affects `TypeSize`, not the cells modelled.
- Tokenizer.At: reads at or past the terminator give NUL. In C, a read past the terminator is undefined. An unterminated quoted field can move the cursor past the end, and the model then goes on reading NUL.
- RowWalk.RowCount and RowWalk.PrescanMatchesFill: both passes read past the terminator on ordinary input (`RowWalk.ReadsPastTerminator`).
  - When the last field ends on the terminator, `s += len + 1` moves the cursor one byte past it, and the line-end loop reads that byte. Every input without a trailing line end does this.
  - A last row with fewer fields than columns has its missing fields read past the terminator.
  - This is a defect of the source. If the stray byte is CR or LF, `*(s-1) == 0` fails and `CountRows` counts rows beyond the string.
  - The model reads NUL there. The row count, and the claim of `PrescanMatchesFill` that the text is used up, hold for the C code only when the bytes after the terminator are NUL.
- Tokenizer.RemoveEnclosingDoubleQuotes: requires a field opening with a quote to have at least two bytes, and the quote not to be NUL. A lone quote makes the C code read before the buffer.
- CsvParser.Parser.constructor: requires the input to be buildable.
  - An empty input with a header is excluded. `CountRows` returns -1 for it, which `RowWalk.RowCount` states.
  - An empty format with a non-empty input is excluded. There `CountRows` never advances.
  - A lone quote in a non-`s` field is excluded (see above).
- CsvParser.Parser.Storage: column blocks are modelled as sequences of cells, not as byte buffers.
  - Pointer aliasing between the block returned by `GetValues` and the table is not modelled.
  - Uninitialised `malloc` contents are modelled as placeholder cells; the fill pass overwrites each one.
  - An unknown specifier gets an empty block, since `malloc(0)` allocates nothing to read.
- CsvParser.Parser.GetValuesAt: requires `index >= 0`. The C code indexes `values` with a negative index unchecked.
- Integer widths of the counters (`int` row and column counts, `int8_t` type size): row and column counts are unbounded.
