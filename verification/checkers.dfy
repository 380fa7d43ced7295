/**
 The checkerboard volume of the test helpers: a 3-D parity pattern of 12-bit
 voxels that the contrast-inversion test feeds through the server.
 */
module TestHelpers {

  /** The largest 12-bit value. */
  const MAX: nat := 4095

  /** A volume indexed [z][y][x], as the numpy array of shape (nz, ny, nx). */
  type Volume = seq<seq<seq<int>>>

  predicate HasShape(v: Volume, nz: nat, ny: nat, nx: nat) {
    && |v| == nz
    && (forall z | 0 <= z < nz :: |v[z]| == ny)
    && (forall z, y | 0 <= z < nz && 0 <= y < ny :: |v[z][y]| == nx)
  }

  /** The voxel at (z, y, x): MAX where x + y + z is even, 0 where it is odd. */
  function Checker(z: nat, y: nat, x: nat): int {
    if (x + y + z) % 2 == 0 then MAX else 0
  }

  /** `checkers(nz, ny, nx)`, filled voxel by voxel as the three nested loops do. */
  method Checkers(nz: nat, ny: nat, nx: nat) returns (v: Volume)
    ensures HasShape(v, nz, ny, nx)
    ensures forall z, y, x | 0 <= z < nz && 0 <= y < ny && 0 <= x < nx :: v[z][y][x] == Checker(z, y, x)
  {
    v := [];
    var z := 0;
    while z < nz
      invariant 0 <= z <= nz
      invariant HasShape(v, z, ny, nx)
      invariant forall i, j, k | 0 <= i < z && 0 <= j < ny && 0 <= k < nx :: v[i][j][k] == Checker(i, j, k)
    {
      var plane: seq<seq<int>> := [];
      var y := 0;
      while y < ny
        invariant 0 <= y <= ny
        invariant |plane| == y
        invariant forall j | 0 <= j < y :: |plane[j]| == nx
        invariant forall j, k | 0 <= j < y && 0 <= k < nx :: plane[j][k] == Checker(z, j, k)
      {
        var row: seq<int> := [];
        var x := 0;
        while x < nx
          invariant 0 <= x <= nx
          invariant |row| == x
          invariant forall k | 0 <= k < x :: row[k] == Checker(z, y, k)
        {
          if (x + y + z) % 2 == 0 {
            row := row + [MAX];
          } else {
            row := row + [0];
          }
          x := x + 1;
        }
        plane := plane + [row];
        y := y + 1;
      }
      v := v + [plane];
      z := z + 1;
    }
  }

  /** Every voxel is 0 or MAX, so it fits the 16-bit unsigned array without wrapping. */
  lemma CheckerValues(z: nat, y: nat, x: nat)
    ensures Checker(z, y, x) == 0 || Checker(z, y, x) == MAX
    ensures 0 <= Checker(z, y, x) < 0x1_0000
  {
  }

  /** The corner voxel is MAX, as the inversion test expects of its input. */
  lemma CornerIsMax()
    ensures Checker(0, 0, 0) == MAX
  {
  }

  /** Voxels next to each other along any one axis hold different values. */
  lemma NeighboursDiffer(z: nat, y: nat, x: nat)
    ensures Checker(z, y, x) != Checker(z, y, x + 1)
    ensures Checker(z, y, x) != Checker(z, y + 1, x)
    ensures Checker(z, y, x) != Checker(z + 1, y, x)
  {
  }
}
