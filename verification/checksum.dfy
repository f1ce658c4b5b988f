/** The region checksum of one grid function (`compute_cksum`,
    ReadWriteDiagnostics.cc lines 15-28 and 172-195).

    A grid function is a buffer of 64-bit words laid out over a box of
    `lsh.x * lsh.y * lsh.z` cells; cell (i, j, k) sits at linear index
    `i + lsh.x * (j + lsh.y * k)`, the layout of the host's 3-D index macro.
    Each word is rotated left by `8 * (index % 8)` bits and XOR-ed into the
    interior accumulator when the cell lies inside the ghost margin on all
    three axes, into the exterior accumulator otherwise. */
module Checksum {
  import opened Words

  /** The data of one grid function, indexed by linear cell index. */
  type Buffer = seq<Word>

  datatype Dims = Dims(x: nat, y: nat, z: nat)

  /** The local extents `lsh` and the ghost widths `ng` of a grid. */
  datatype Shape = Shape(lsh: Dims, ng: Dims)

  /** The product of two naturals, by repeated addition. The layout
      formulas are written with it so that products stay uninterpreted
      terms except in the lemmas about the layout, which convert them with
      `MulIsTimes`. */
  function Mul(a: nat, b: nat): nat
    decreases b
  {
    if b == 0 then 0 else Mul(a, b - 1) + a
  }

  lemma {:induction false} MulIsTimes(a: nat, b: nat)
    ensures Mul(a, b) == a * b
  {
    if b > 0 {
      MulIsTimes(a, b - 1);
    }
  }

  /** The number of cells of the local box. */
  function Cells(s: Shape): nat {
    Mul(s.lsh.x, Mul(s.lsh.y, s.lsh.z))
  }

  /** A cell of the box, by its three coordinates. */
  datatype Coord = Coord(i: nat, j: nat, k: nat)

  predicate InBox(s: Shape, p: Coord) {
    p.i < s.lsh.x && p.j < s.lsh.y && p.k < s.lsh.z
  }

  /** The linear index of a cell: `i + lsh.x * (j + lsh.y * k)`, the layout
      of the host's 3-D index macro. */
  function Index(s: Shape, p: Coord): nat {
    p.i + Mul(s.lsh.x, p.j + Mul(s.lsh.y, p.k))
  }

  /** The layout formulas as products. */
  lemma Products(s: Shape, p: Coord)
    ensures Index(s, p) == p.i + s.lsh.x * (p.j + s.lsh.y * p.k)
    ensures Cells(s) == s.lsh.x * (s.lsh.y * s.lsh.z)
  {
    MulIsTimes(s.lsh.y, p.k);
    MulIsTimes(s.lsh.x, p.j + Mul(s.lsh.y, p.k));
    MulIsTimes(s.lsh.y, s.lsh.z);
    MulIsTimes(s.lsh.x, Mul(s.lsh.y, s.lsh.z));
  }

  /** The cell the source's triple loop visits after `p`: `i` runs fastest,
      then `j`, then `k`. */
  function Next(s: Shape, p: Coord): Coord {
    if p.i + 1 < s.lsh.x then p.(i := p.i + 1)
    else if p.j + 1 < s.lsh.y then Coord(0, p.j + 1, p.k)
    else Coord(0, 0, p.k + 1)
  }

  /** The `c`-th cell the triple loop visits. */
  function Decode(s: Shape, c: nat): Coord
    decreases c
  {
    if c == 0 then Coord(0, 0, 0) else Next(s, Decode(s, c - 1))
  }

  /** The source's per-axis test: the coordinate is at least the ghost width
      and below the extent minus the ghost width. */
  predicate InAxis(ng: nat, lsh: nat, coord: int) {
    ng <= coord < lsh - ng
  }

  /** A cell is interior when it is inside the ghost margin on all three
      axes. */
  predicate InteriorCell(s: Shape, p: Coord) {
    && InAxis(s.ng.x, s.lsh.x, p.i)
    && InAxis(s.ng.y, s.lsh.y, p.j)
    && InAxis(s.ng.z, s.lsh.z, p.k)
  }

  /** The cell at linear index `c` is interior. */
  predicate Interior(s: Shape, c: nat) {
    InteriorCell(s, Decode(s, c))
  }

  /** The pair of accumulators (`in` and `out` in the source). */
  datatype Cksum = Cksum(inner: nat, outer: nat)

  const Zero: Cksum := Cksum(0, 0)

  /** The word cell `c` contributes: its data rotated by `c % 8` bytes
      (lines 183-186). */
  function Contribution(d: Buffer, c: nat): Word {
    if c < |d| then Rot(d[c], c % 8) else 0
  }

  /** The checksum of the first `n` cells, folded in increasing linear index
      order: cell `c` contributes `val(c)`, to `in` when `cls(c)` holds and
      to `out` otherwise. The fold is stated over an arbitrary contribution
      and classification because its algebra does not depend on them. */
  function Fold(op: (nat, nat) -> nat, val: nat -> nat, cls: nat -> bool, n: nat): Cksum
    decreases n
  {
    if n == 0 then Zero
    else
      var acc := Fold(op, val, cls, n - 1);
      if cls(n - 1) then acc.(inner := op(acc.inner, val(n - 1)))
      else acc.(outer := op(acc.outer, val(n - 1)))
  }

  /** The contributions of the cells of buffer `d`, as the fold takes them. */
  function Val(d: Buffer): nat -> nat {
    (c: nat) => Contribution(d, c)
  }

  /** The classification of the cells of a box, as the fold takes it. */
  function Cls(s: Shape): nat -> bool {
    (c: nat) => Interior(s, c)
  }

  /** The checksum pair of a whole grid function (`compute_cksum`). Both
      accumulators stay 64-bit words; `CksumSplits` below says which cells
      each one combines. */
  function ComputeCksum(d: Buffer, s: Shape): (r: Cksum)
    requires Cells(s) <= |d|
    ensures r.inner < WORDS && r.outer < WORDS
  {
    FoldIsWords(d, s, Cells(s));
    Fold(Xor, Val(d), Cls(s), Cells(s))
  }

  /** `op` keeps results below `bound` when both operands are. */
  ghost predicate ClosedBelow(op: (nat, nat) -> nat, bound: nat) {
    forall a: nat, b: nat :: a < bound && b < bound ==> op(a, b) < bound
  }

  /** A fold whose combination is closed below `bound`, over contributions
      below `bound`, keeps both accumulators below `bound`. */
  lemma {:induction false} FoldBelow(op: (nat, nat) -> nat, val: nat -> nat, cls: nat -> bool, n: nat, bound: nat)
    requires ClosedBelow(op, bound) && bound > 0
    requires forall c: nat :: c < n ==> val(c) < bound
    ensures Fold(op, val, cls, n).inner < bound && Fold(op, val, cls, n).outer < bound
  {
    if n > 0 {
      FoldBelow(op, val, cls, n - 1, bound);
    }
  }

  /** Both accumulators stay 64-bit words: nothing wraps around. */
  lemma FoldIsWords(d: Buffer, s: Shape, n: nat)
    ensures Fold(Xor, Val(d), Cls(s), n).inner < WORDS && Fold(Xor, Val(d), Cls(s), n).outer < WORDS
  {
    forall a: nat, b: nat | a < WORDS && b < WORDS ensures Xor(a, b) < WORDS {
      XorWord(a, b);
    }
    FoldBelow(Xor, Val(d), Cls(s), n, WORDS);
  }

  /** An associative and commutative combination, stated as the one law
      the proofs below use: the last two operands may be swapped. */
  ghost predicate Shuffles<T(!new)>(op: (T, T) -> T) {
    forall a, b, c :: op(op(a, b), c) == op(op(a, c), b)
  }

  /** A combination that is injective in its right operand. */
  ghost predicate LeftCancels<T(!new)>(op: (T, T) -> T) {
    forall a, x, y :: op(a, x) == op(a, y) ==> x == y
  }

  /** Exclusive or obeys both laws. */
  lemma XorLaws()
    ensures Shuffles(Xor) && LeftCancels(Xor)
  {
    forall a: nat, b: nat, c: nat ensures Xor(Xor(a, b), c) == Xor(Xor(a, c), b) {
      XorAssoc(a, b, c);
      XorAssoc(a, c, b);
      XorComm(b, c);
    }
    forall a: nat, x: nat, y: nat | Xor(a, x) == Xor(a, y) ensures x == y {
      XorComm(a, x);
      XorComm(a, y);
      XorUndo(x, a);
      XorUndo(y, a);
    }
  }

  /** Reference definition: the combination, under `op` starting from
      `unit`, of the contributions of those among the first `n` cells whose
      class is `region`. */
  function RegionSum<T>(op: (T, T) -> T, unit: T, val: nat -> T, cls: nat -> bool, n: nat, region: bool): T
    decreases n
  {
    if n == 0 then unit
    else if cls(n - 1) == region then op(RegionSum(op, unit, val, cls, n - 1, region), val(n - 1))
    else RegionSum(op, unit, val, cls, n - 1, region)
  }

  /** A cell contributes to `in` iff its class is interior. */
  lemma {:induction false} FoldInner(op: (nat, nat) -> nat, val: nat -> nat, cls: nat -> bool, n: nat)
    ensures Fold(op, val, cls, n).inner == RegionSum(op, 0, val, cls, n, true)
  {
    if n > 0 {
      FoldInner(op, val, cls, n - 1);
    }
  }

  /** A cell contributes to `out` iff its class is not interior. */
  lemma {:induction false} FoldOuter(op: (nat, nat) -> nat, val: nat -> nat, cls: nat -> bool, n: nat)
    ensures Fold(op, val, cls, n).outer == RegionSum(op, 0, val, cls, n, false)
  {
    if n > 0 {
      FoldOuter(op, val, cls, n - 1);
    }
  }

  /** The single pass of the source computes both region sums at once: each
      interior cell is XOR-ed into `in`, every other cell into `out`. */
  lemma CksumSplits(d: Buffer, s: Shape)
    requires Cells(s) <= |d|
    ensures var val, cls := Val(d), Cls(s);
            ComputeCksum(d, s) == Cksum(RegionSum(Xor, 0, val, cls, Cells(s), true),
                                        RegionSum(Xor, 0, val, cls, Cells(s), false))
  {
    var val, cls := Val(d), Cls(s);
    FoldInner(Xor, val, cls, Cells(s));
    FoldOuter(Xor, val, cls, Cells(s));
  }

  /** A region sum depends only on the contributions of that region. */
  lemma {:induction false} RegionSumLocal<T>(op: (T, T) -> T, unit: T, val: nat -> T, val': nat -> T, cls: nat -> bool, n: nat, region: bool)
    requires forall c: nat :: c < n && cls(c) == region ==> val(c) == val'(c)
    ensures RegionSum(op, unit, val, cls, n, region) == RegionSum(op, unit, val', cls, n, region)
  {
    if n > 0 {
      RegionSumLocal(op, unit, val, val', cls, n - 1, region);
    }
  }

  /** Writes confined to exterior cells leave `in` unchanged. */
  lemma InteriorLocality(d: Buffer, e: Buffer, s: Shape)
    requires Cells(s) <= |d| && Cells(s) <= |e|
    requires forall c :: 0 <= c < Cells(s) && Interior(s, c) ==> d[c] == e[c]
    ensures ComputeCksum(d, s).inner == ComputeCksum(e, s).inner
  {
    var val, val', cls := Val(d), Val(e), Cls(s);
    FoldInner(Xor, val, cls, Cells(s));
    FoldInner(Xor, val', cls, Cells(s));
    RegionSumLocal(Xor, 0, val, val', cls, Cells(s), true);
  }

  /** Writes confined to interior cells leave `out` unchanged. */
  lemma ExteriorLocality(d: Buffer, e: Buffer, s: Shape)
    requires Cells(s) <= |d| && Cells(s) <= |e|
    requires forall c :: 0 <= c < Cells(s) && !Interior(s, c) ==> d[c] == e[c]
    ensures ComputeCksum(d, s).outer == ComputeCksum(e, s).outer
  {
    var val, val', cls := Val(d), Val(e), Cls(s);
    FoldOuter(Xor, val, cls, Cells(s));
    FoldOuter(Xor, val', cls, Cells(s));
    RegionSumLocal(Xor, 0, val, val', cls, Cells(s), false);
  }

  /** When two contributions differ in one cell `p` of the region only,
      combining each sum with the other's contribution of `p` gives equal
      results: the sums differ by exactly the change of that cell. */
  lemma {:induction false} RegionSumSwap<T(!new)>(op: (T, T) -> T, unit: T, val: nat -> T, val': nat -> T, cls: nat -> bool, n: nat, region: bool, p: nat)
    requires Shuffles(op)
    requires forall c: nat :: c != p ==> val(c) == val'(c)
    requires p < n && cls(p) == region
    ensures op(RegionSum(op, unit, val', cls, n, region), val(p)) == op(RegionSum(op, unit, val, cls, n, region), val'(p))
  {
    var a, a' := RegionSum(op, unit, val, cls, n - 1, region), RegionSum(op, unit, val', cls, n - 1, region);
    if n - 1 == p {
      RegionSumLocal(op, unit, val, val', cls, n - 1, region);
      assert op(op(a, val'(p)), val(p)) == op(op(a, val(p)), val'(p));
    } else {
      RegionSumSwap(op, unit, val, val', cls, n - 1, region, p);
      if cls(n - 1) == region {
        var u := val(n - 1);
        assert val'(n - 1) == u;
        calc {
          op(op(a', u), val(p));
          op(op(a', val(p)), u);
          op(op(a, val'(p)), u);
          op(op(a, u), val'(p));
        }
      }
    }
  }

  /** A change of one contribution of a region changes the combination of
      that region. */
  lemma RegionDetects<T(!new)>(op: (T, T) -> T, unit: T, val: nat -> T, val': nat -> T, cls: nat -> bool, n: nat, region: bool, p: nat)
    requires Shuffles(op) && LeftCancels(op)
    requires forall c: nat :: c != p ==> val(c) == val'(c)
    requires p < n && cls(p) == region
    requires val(p) != val'(p)
    ensures RegionSum(op, unit, val, cls, n, region) != RegionSum(op, unit, val', cls, n, region)
  {
    var r, r' := RegionSum(op, unit, val, cls, n, region), RegionSum(op, unit, val', cls, n, region);
    RegionSumSwap(op, unit, val, val', cls, n, region, p);
  }

  /** Changing a single cell is always detected, in its own region and only
      there. */
  lemma SingleCellWrite(d: Buffer, s: Shape, p: nat, w: Word)
    requires Cells(s) <= |d| && p < Cells(s)
    requires w != d[p]
    ensures var before, after := ComputeCksum(d, s), ComputeCksum(d[p := w], s);
            if Interior(s, p) then before.inner != after.inner && before.outer == after.outer
            else before.outer != after.outer && before.inner == after.inner
  {
    var e := d[p := w];
    var n := Cells(s);
    var val, val', cls := Val(d), Val(e), Cls(s);
    CksumSplits(d, s);
    CksumSplits(e, s);
    RotInjective(d[p], w, p % 8);
    assert val(p) != val'(p);
    XorLaws();
    if Interior(s, p) {
      RegionDetects(Xor, 0, val, val', cls, n, true, p);
      ExteriorLocality(d, e, s);
    } else {
      RegionDetects(Xor, 0, val, val', cls, n, false, p);
      InteriorLocality(d, e, s);
    }
  }

  /** Products grow with their right operand. */
  lemma {:induction false} MulMonotone(a: nat, b: nat, c: nat)
    ensures b <= c ==> Mul(a, b) <= Mul(a, c)
    decreases c
  {
    if b < c {
      MulMonotone(a, b, c - 1);
    }
  }

  /** A number below `X` plus a multiple of `X` determines both parts: the
      mixed-radix digits of a linear index are unique. */
  lemma Digits(X: nat, i: nat, m: nat, i': nat, m': nat)
    requires i < X && i' < X
    requires i + Mul(X, m) == i' + Mul(X, m')
    ensures i == i' && m == m'
  {
    MulMonotone(X, m + 1, m');
    MulMonotone(X, m' + 1, m);
  }

  /** Stepping to the next cell in loop order advances the linear index by
      one. */
  lemma IndexNext(s: Shape, p: Coord)
    requires InBox(s, p)
    ensures Index(s, Next(s, p)) == Index(s, p) + 1
  {
    var X, Y := s.lsh.x, s.lsh.y;
    var m := p.j + Mul(Y, p.k);
    assert Mul(X, m + 1) == Mul(X, m) + X;
    if p.i + 1 >= X && p.j + 1 >= Y {
      assert Mul(Y, p.k + 1) == m + 1;
    }
  }

  /** Every cell of the box has a linear index below `Cells(s)`. */
  lemma IndexBound(s: Shape, p: Coord)
    requires InBox(s, p)
    ensures Index(s, p) < Cells(s)
  {
    var X, Y, Z := s.lsh.x, s.lsh.y, s.lsh.z;
    var m := p.j + Mul(Y, p.k);
    assert Mul(Y, p.k + 1) == Mul(Y, p.k) + Y;
    MulMonotone(Y, p.k + 1, Z);
    assert Mul(X, m + 1) == Mul(X, m) + X;
    MulMonotone(X, m + 1, Mul(Y, Z));
  }

  /** The cell after a cell that is not the last of the box is in the box. */
  lemma NextInBox(s: Shape, p: Coord)
    requires InBox(s, p) && Index(s, p) + 1 < Cells(s)
    ensures InBox(s, Next(s, p))
  {
    IndexNext(s, p);
    var X, Y, Z := s.lsh.x, s.lsh.y, s.lsh.z;
    // Past the last cell of a plane comes the next plane, which lies below
    // the end of the box because its index does.
    MulMonotone(Y, Z, p.k + 1);
    MulMonotone(X, Mul(Y, Z), Mul(Y, p.k + 1));
  }

  /** The loop order enumerates the box: the `c`-th visited cell lies in the
      box and has linear index `c`. */
  lemma {:induction false} DecodeIndex(s: Shape, c: nat)
    requires c < Cells(s)
    ensures InBox(s, Decode(s, c))
    ensures Index(s, Decode(s, c)) == c
  {
    if c > 0 {
      DecodeIndex(s, c - 1);
      var p := Decode(s, c - 1);
      IndexNext(s, p);
      NextInBox(s, p);
    } else {
      // A box with a cell has positive extents.
      MulIsTimes(s.lsh.y, s.lsh.z);
      MulIsTimes(s.lsh.x, Mul(s.lsh.y, s.lsh.z));
    }
  }

  /** Two cells of the box with the same linear index are the same cell. */
  lemma IndexInjective(s: Shape, p: Coord, q: Coord)
    requires InBox(s, p) && InBox(s, q)
    requires Index(s, p) == Index(s, q)
    ensures p == q
  {
    var X, Y := s.lsh.x, s.lsh.y;
    Digits(X, p.i, p.j + Mul(Y, p.k), q.i, q.j + Mul(Y, q.k));
    Digits(Y, p.j, p.k, q.j, q.k);
  }

  /** Cell (i, j, k) is visited at its linear index, so it contributes to
      `in` exactly when it passes the per-axis test on every axis. */
  lemma CellClassification(s: Shape, p: Coord)
    requires InBox(s, p)
    ensures Index(s, p) < Cells(s)
    ensures Decode(s, Index(s, p)) == p
    ensures Interior(s, Index(s, p)) <==> InteriorCell(s, p)
  {
    IndexBound(s, p);
    DecodeIndex(s, Index(s, p));
    IndexInjective(s, p, Decode(s, Index(s, p)));
  }

  /** The next cell of a row has the next index. */
  lemma ColumnStep(s: Shape, i: nat, j: nat, k: nat)
    ensures Index(s, Coord(i + 1, j, k)) == Index(s, Coord(i, j, k)) + 1
  {
  }

  /** The index one past the end of row `j` is the start of row `j + 1`. */
  lemma RowEnd(s: Shape, j: nat, k: nat)
    ensures Index(s, Coord(s.lsh.x, j, k)) == Index(s, Coord(0, j + 1, k))
  {
    var m := j + Mul(s.lsh.y, k);
    assert Mul(s.lsh.x, m + 1) == Mul(s.lsh.x, m) + s.lsh.x;
  }

  /** The index one past the end of plane `k` is the start of plane `k + 1`. */
  lemma PlaneEnd(s: Shape, k: nat)
    ensures Index(s, Coord(0, s.lsh.y, k)) == Index(s, Coord(0, 0, k + 1))
  {
    assert Mul(s.lsh.y, k + 1) == s.lsh.y + Mul(s.lsh.y, k);
  }

  /** The index one past the last plane is the number of cells. */
  lemma BoxEnd(s: Shape)
    ensures Index(s, Coord(0, 0, s.lsh.z)) == Cells(s)
  {
  }

  /** `sum` is the checksum pair of the first `n` cells of `d`. */
  ghost predicate Folded(op: (nat, nat) -> nat, d: Buffer, s: Shape, n: nat, sum: Cksum) {
    sum == Fold(op, Val(d), Cls(s), n)
  }

  /** The accumulation step of the innermost loop (lines 183-191): the word
      of cell `cc`, rotated by `cc % 8` bytes, goes into `in` when the cell
      is interior and into `out` otherwise. The ghost `n` names the same
      index as `cc` for the contract. */
  method Accumulate(op: (nat, nat) -> nat, d: Buffer, s: Shape, cc: nat, interior: bool, acc: Cksum, ghost n: nat) returns (sum: Cksum)
    requires cc == n && Interior(s, n) == interior
    requires Folded(op, d, s, n, acc)
    ensures Folded(op, d, s, n + 1, sum)
  {
    var lg := Contribution(d, cc);
    if interior {
      sum := acc.(inner := op(acc.inner, lg));
    } else {
      sum := acc.(outer := op(acc.outer, lg));
    }
  }

  /** The body of the innermost loop for cell (i, j, k) (lines 180-191):
      the cell's linear index and its interior test on the `i` axis, then
      the accumulation. `inyz` is the cell's interior test on the `j` and
      `k` axes; `n` is the cell's place in loop order. */
  method VisitCell(op: (nat, nat) -> nat, d: Buffer, s: Shape, i: nat, j: nat, k: nat, inyz: bool, acc: Cksum, ghost n: nat) returns (sum: Cksum)
    requires Cells(s) <= |d| && InBox(s, Coord(i, j, k)) && n == Index(s, Coord(i, j, k))
    requires inyz == (InAxis(s.ng.y, s.lsh.y, j) && InAxis(s.ng.z, s.lsh.z, k))
    requires Folded(op, d, s, n, acc)
    ensures Folded(op, d, s, n + 1, sum)
  {
    var inx := s.ng.x <= i < s.lsh.x - s.ng.x;
    var cc := Index(s, Coord(i, j, k));
    assert Interior(s, n) == (inx && inyz) by {
      CellClassification(s, Coord(i, j, k));
    }
    sum := Accumulate(op, d, s, cc, inx && inyz, acc, n);
  }

  /** The innermost loop of the source over row `j` of plane `k`, starting
      from the pair `acc` of the cells before the row. `inyz` is the row's
      interior test on the `j` and `k` axes. */
  method RowPass(op: (nat, nat) -> nat, d: Buffer, s: Shape, j: nat, k: nat, inyz: bool, acc: Cksum, ghost n: nat) returns (sum: Cksum)
    requires Cells(s) <= |d| && j < s.lsh.y && k < s.lsh.z && n == Index(s, Coord(0, j, k))
    requires inyz == (InAxis(s.ng.y, s.lsh.y, j) && InAxis(s.ng.z, s.lsh.z, k))
    requires Folded(op, d, s, n, acc)
    ensures Folded(op, d, s, Index(s, Coord(0, j + 1, k)), sum)
  {
    var X := s.lsh.x;
    sum := acc;
    var i := 0;
    ghost var c := n;
    while i < X
      invariant 0 <= i <= X
      invariant c == Index(s, Coord(i, j, k))
      invariant Folded(op, d, s, c, sum)
    {
      sum := VisitCell(op, d, s, i, j, k, inyz, sum, c);
      ColumnStep(s, i, j, k);
      c := c + 1;
      i := i + 1;
    }
    RowEnd(s, j, k);
  }

  /** The middle loop of the source over the rows of plane `k`, starting
      from the pair `acc` of the cells before the plane. */
  method PlanePass(op: (nat, nat) -> nat, d: Buffer, s: Shape, k: nat, acc: Cksum, ghost n: nat) returns (sum: Cksum)
    requires Cells(s) <= |d| && k < s.lsh.z && n == Index(s, Coord(0, 0, k))
    requires Folded(op, d, s, n, acc)
    ensures Folded(op, d, s, Index(s, Coord(0, 0, k + 1)), sum)
  {
    var Y := s.lsh.y;
    var inz := s.ng.z <= k < s.lsh.z - s.ng.z;
    sum := acc;
    var j := 0;
    while j < Y
      invariant 0 <= j <= Y
      invariant Folded(op, d, s, Index(s, Coord(0, j, k)), sum)
    {
      var iny := s.ng.y <= j < Y - s.ng.y;
      sum := RowPass(op, d, s, j, k, iny && inz, sum, Index(s, Coord(0, j, k)));
      j := j + 1;
    }
    PlaneEnd(s, k);
  }

  /** The triple loop of the source, k outermost and i innermost, reading
      cell (i, j, k) at its linear index, for any combination `op` of the
      accumulators: it visits the cells in increasing linear order and so
      computes the fold. */
  method TripleLoop(op: (nat, nat) -> nat, d: Buffer, s: Shape) returns (sum: Cksum)
    requires Cells(s) <= |d|
    ensures sum == Fold(op, Val(d), Cls(s), Cells(s))
  {
    var Z := s.lsh.z;
    sum := Zero;
    var k := 0;
    while k < Z
      invariant 0 <= k <= Z
      invariant Folded(op, d, s, Index(s, Coord(0, 0, k)), sum)
    {
      sum := PlanePass(op, d, s, k, sum, Index(s, Coord(0, 0, k)));
      k := k + 1;
    }
    BoxEnd(s);
  }

  /** `compute_cksum` as the source writes it: the triple loop combining
      the accumulators by exclusive or. Its result is the pair of region
      sums of the buffer, each of them a 64-bit word. */
  method ComputeCksumLoops(d: Buffer, s: Shape) returns (sum: Cksum)
    requires Cells(s) <= |d|
    ensures sum == ComputeCksum(d, s)
    ensures sum.inner == RegionSum(Xor, 0, Val(d), Cls(s), Cells(s), true)
    ensures sum.outer == RegionSum(Xor, 0, Val(d), Cls(s), Cells(s), false)
    ensures sum.inner < WORDS && sum.outer < WORDS
  {
    sum := TripleLoop(Xor, d, s);
    CksumSplits(d, s);
  }
}
