/** The avatar picker's index arithmetic (client/src/components/Avatar/Avatar.jsx):
    the index is clamped into the 100 cells of a 10 by 10 sprite sheet and
    split into a column and a row. The percentage offsets computed from them
    are floating point and are not modelled. */
module Avatar {
  import opened Common
  import opened Json

  /** `Math.max(0, Math.min(99, Number(index) || 0))`, with the parameter
      defaulting to 0 when undefined. NaN and 0 are falsy and give 0;
      positive infinity is truthy and is capped at 99. */
  function SafeIndex(index: Option<Value>): (i: int)
    ensures 0 <= i <= 99
    ensures index.Some? && index.value.Str? && InfinityText(index.value.s) ==> i == 99
    ensures ToNumber(index).None? && !(index.Some? && index.value.Str? && InfinityText(index.value.s)) ==> i == 0
    ensures ToNumber(index).Some? ==>
              var n := ToNumber(index).value;
              i == if n < 0 then 0 else if n > 99 then 99 else n
  {
    if index.Some? && index.value.Str? && InfinityText(index.value.s) then 99
    else
      var n := if index.None? then Some(0) else ToNumber(index);
      var m := if n.Some? && n.value != 0 then n.value else 0;
      var capped := if m < 99 then m else 99;
      if capped > 0 then capped else 0
  }

  /** The sprite cell: `col = safeIndex % 10`, `row = Math.floor(safeIndex / 10)`. */
  function Cell(i: int): (cell: (int, int))
    requires 0 <= i <= 99
    ensures 0 <= cell.0 <= 9 && 0 <= cell.1 <= 9
    ensures 10 * cell.1 + cell.0 == i
  {
    (i % 10, i / 10)
  }

  /** Every cell of the sheet is reached by exactly one index: the index
      and the cell determine each other. */
  lemma CellsDistinct(i: int, j: int)
    requires 0 <= i <= 99 && 0 <= j <= 99 && i != j
    ensures Cell(i) != Cell(j)
  {
  }

  /** An index already in range is used as it is, and a missing or
      non-numeric one shows the first avatar. */
  lemma InRangeUnchanged(n: int)
    requires 0 <= n <= 99
    ensures SafeIndex(Some(Num(n))) == n
    ensures SafeIndex(None) == 0 && SafeIndex(Some(Str("abc"))) == 0
  {
    assert !AllDigits("abc") by {
      assert !IsDigit("abc"[0]);
    }
  }

  /** Index strings in the other notations `Number()` reads: hexadecimal,
      octal and binary literals pick the cell they denote, and "Infinity"
      the last one. */
  lemma LiteralIndices()
    ensures SafeIndex(Some(Str("0x10"))) == 16 && SafeIndex(Some(Str("0o17"))) == 15
    ensures SafeIndex(Some(Str("0b101"))) == 5 && SafeIndex(Some(Str("Infinity"))) == 99
  {
    RadixLiterals();
  }
}
