/** Square blocks of the vector register file: vfpu_read_matrix and
    vfpu_write_matrix of include/psprecomp/vfpu.hpp. */
module VfpuMatrix {
  import opened Words

  type Side = n: nat | 2 <= n <= 4 witness 2
  type Cells = s: seq<Word> | |s| == 16 witness seq(16, _ => 0)

  function Cell(j: nat, i: nat): (r: nat)
    requires j < 4 && i < 4
    ensures r < 16
  {
    j * 4 + i
  }

  /** The register of row `i` in column `j`. */
  function MatrixIndex(reg: Word, side: Side, j: nat, i: nat): (r: nat)
    requires j < 4 && i < 4
    ensures r < 128
  {
    var row := ((if side == 3 then reg / 64 % 2 else 2 * (reg / 64 % 2)) + i) % 4;
    var column := (reg % 4 + j) % 4;
    reg / 4 % 8 * 4 + (if reg / 32 % 2 != 0 then row + column * 32 else column + row * 32)
  }

  /** No two cells of a block share a register. */
  lemma CellsAreApart(reg: Word, side: Side, j: nat, i: nat, k: nat, l: nat)
    requires j < 4 && i < 4 && k < 4 && l < 4
    requires MatrixIndex(reg, side, j, i) == MatrixIndex(reg, side, k, l)
    ensures j == k && i == l
  {
    var row: int := if side == 3 then reg / 64 % 2 else 2 * (reg / 64 % 2);
    DigitsDetermine((row + i) % 4, (reg % 4 + j) % 4, (row + l) % 4, (reg % 4 + k) % 4);
    ShiftIsInjective(row, i, l);
    ShiftIsInjective(reg % 4, j, k);
  }

  lemma DigitsDetermine(a: int, b: int, c: int, d: int)
    requires 0 <= a < 4 && 0 <= b < 4 && 0 <= c < 4 && 0 <= d < 4
    ensures a + b * 32 == c + d * 32 ==> a == c && b == d
    ensures b + a * 32 == d + c * 32 ==> a == c && b == d
  {
  }

  lemma ShiftIsInjective(start: int, a: int, b: int)
    requires 0 <= start < 4 && 0 <= a < 4 && 0 <= b < 4 && (start + a) % 4 == (start + b) % 4
    ensures a == b
  {
  }

  /** The cells that two nested loops have passed before column `j`, row `i`. */
  predicate Before(k: nat, l: nat, j: nat, i: nat) {
    k < j || (k == j && l < i)
  }

  ghost predicate Holds(vfpu: Bank128, reg: Word, side: Side, values: Cells, j: nat, i: nat) {
    forall k: nat, l: nat {:trigger MatrixIndex(reg, side, k, l)} :: k < side && l < side && Before(k, l, j, i) ==>
      values[Cell(k, l)] == vfpu[MatrixIndex(reg, side, k, l)]
  }

  ghost predicate InBlock(reg: Word, side: Side, r: nat) {
    exists k: nat, l: nat :: k < side && l < side && MatrixIndex(reg, side, k, l) == r
  }

  method WriteMatrix(vfpu: Bank128, reg: Word, side: Side, values: Cells) returns (after: Bank128)
    ensures Holds(after, reg, side, values, side, 0)
    ensures forall r :: 0 <= r < 128 && !InBlock(reg, side, r) ==> after[r] == vfpu[r]
  {
    hide MatrixIndex;
    after := vfpu;
    for j := 0 to side
      invariant Holds(after, reg, side, values, j, 0)
      invariant forall r :: 0 <= r < 128 && !InBlock(reg, side, r) ==> after[r] == vfpu[r]
    {
      for i := 0 to side
        invariant Holds(after, reg, side, values, j, i)
        invariant forall r :: 0 <= r < 128 && !InBlock(reg, side, r) ==> after[r] == vfpu[r]
      {
        forall k: nat, l: nat | k < side && l < side && Before(k, l, j, i)
          ensures MatrixIndex(reg, side, k, l) != MatrixIndex(reg, side, j, i)
        {
          if MatrixIndex(reg, side, k, l) == MatrixIndex(reg, side, j, i) {
            CellsAreApart(reg, side, k, l, j, i);
          }
        }
        after := after[MatrixIndex(reg, side, j, i) := values[Cell(j, i)]];
      }
    }
  }

  /** Cells outside the block keep what the caller had there. */
  method ReadMatrix(vfpu: Bank128, reg: Word, side: Side, initial: Cells) returns (values: Cells)
    ensures Holds(vfpu, reg, side, values, side, 0)
    ensures forall k: nat, l: nat {:trigger Cell(k, l)} :: k < 4 && l < 4 && (side <= k || side <= l) ==> values[Cell(k, l)] == initial[Cell(k, l)]
  {
    hide MatrixIndex;
    values := initial;
    for j := 0 to side
      invariant Holds(vfpu, reg, side, values, j, 0)
      invariant forall k: nat, l: nat {:trigger Cell(k, l)} :: k < 4 && l < 4 && (side <= k || side <= l) ==> values[Cell(k, l)] == initial[Cell(k, l)]
    {
      for i := 0 to side
        invariant Holds(vfpu, reg, side, values, j, i)
        invariant forall k: nat, l: nat {:trigger Cell(k, l)} :: k < 4 && l < 4 && (side <= k || side <= l) ==> values[Cell(k, l)] == initial[Cell(k, l)]
      {
        values := values[Cell(j, i) := vfpu[MatrixIndex(reg, side, j, i)]];
      }
    }
  }

  /** Reading back a written matrix returns it, and registers outside the block
      are what they were. */
  method MatrixRoundTrip(vfpu: Bank128, reg: Word, side: Side, values: Cells, initial: Cells)
    returns (after: Bank128, again: Cells)
    ensures forall k: nat, l: nat {:trigger Cell(k, l)} :: k < side && l < side ==> again[Cell(k, l)] == values[Cell(k, l)]
    ensures forall r :: 0 <= r < 128 && !InBlock(reg, side, r) ==> after[r] == vfpu[r]
  {
    hide MatrixIndex;
    after := WriteMatrix(vfpu, reg, side, values);
    again := ReadMatrix(after, reg, side, initial);
    forall k: nat, l: nat | k < side && l < side ensures again[Cell(k, l)] == values[Cell(k, l)] {
      assert after[MatrixIndex(reg, side, k, l)] == values[Cell(k, l)];
    }
  }
}
