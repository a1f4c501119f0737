/**
 * The schema interpreter: one format character per column selects the
 * column's storage type and the width of one of its cells in bytes.
 */
module Schema {

  /** Width of a `char*` on the 8-bit AVR boards the library targets. */
  const PointerSize: nat := 2

  /** The format characters that get a typed value array. */
  predicate IsStored(t: char) {
    t == 's' || t == 'f' || t == 'L' || t == 'd' || t == 'c' || t == 'x'
  }

  /** Integer columns, whose cells hold a two's-complement number. */
  predicate IsInteger(t: char) {
    t == 'L' || t == 'd' || t == 'c' || t == 'x'
  }

  /**
   * GetTypeSize: the byte width of one cell. Unused (`-`), the NUL
   * character and every unknown specifier give zero.
   */
  function TypeSize(t: char): (r: nat)
    ensures r > 0 <==> IsStored(t)
    ensures IsInteger(t) ==> r == 1 || r == 2 || r == 4
    ensures t == 'f' ==> r == 4
  {
    match t
    case 's' => PointerSize
    case 'f' => 4
    case 'L' => 4
    case 'd' => 2
    case 'c' => 1
    case 'x' => 4
    case _ => 0
  }

  /** GetTypeName: the C type a column is stored as, for diagnostics. */
  function TypeName(t: char): (r: string)
    ensures r == "unused" <==> t == '-' || t == '\0'
    ensures r == "unknown" <==> !IsStored(t) && t != '-' && t != '\0'
  {
    match t
    case 's' => "char*"
    case 'f' => "float"
    case 'L' => "int32_t"
    case 'd' => "int16_t"
    case 'c' => "char"
    case 'x' => "hex (int32_t)"
    case '-' => "unused"
    case '\0' => "unused"
    case _ => "unknown"
  }

  /** The two switches agree: a specifier has storage exactly when it has a real type name. */
  lemma SizeAgreesWithName(t: char)
    ensures TypeSize(t) == 0 <==> TypeName(t) == "unused" || TypeName(t) == "unknown"
  {
  }

  /**
   * How many cells the block `malloc(TypeSize(t) * rows)` holds: `rows` for
   * a typed column, none for a zero-width one.
   */
  function CellCount(t: char, rows: nat): (n: nat)
    ensures n == 0 || n == rows
    ensures n == rows <== IsStored(t)
  {
    if TypeSize(t) == 0 then 0 else rows
  }
}
