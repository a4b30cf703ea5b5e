/** The unit `format_size` chooses for a byte count. The two-decimal
    division itself is floating point and is not part of this model. */
module FormatSize {

  datatype Unit = B | KB | MB | GB | TB

  /** The number of bytes in one unit. */
  function Scale(u: Unit): nat
  {
    match u
    case B => 1
    case KB => 1024
    case MB => 1024 * 1024
    case GB => 1024 * 1024 * 1024
    case TB => 1024 * 1024 * 1024 * 1024
  }

  /** The largest unit not exceeding the size, with bytes below one KB and
      terabytes as the largest unit. */
  function UnitOf(size: nat): (u: Unit)
    ensures Scale(u) <= size || u == B
    ensures u != TB ==> size < Scale(u) * 1024
  {
    if size >= Scale(TB) then TB
    else if size >= Scale(GB) then GB
    else if size >= Scale(MB) then MB
    else if size >= Scale(KB) then KB
    else B
  }

  /** A larger size never gets a smaller unit. */
  lemma UnitMonotone(a: nat, b: nat)
    requires a <= b
    ensures Scale(UnitOf(a)) <= Scale(UnitOf(b))
  {
  }
}
