/**
 * The matrix pipeline of exp-1-interprocess-communication/process.c: the
 * main process sends an n-by-n matrix down a chain of child processes, each
 * child squares what it reads and writes the square on, and the main process
 * reads back what the last child wrote.
 *
 * `long long` entries are unbounded integers here.  A matrix in memory is an
 * `array2<int>`; a matrix as a value is a sequence of rows.
 */
module Matrix {
  import opened CText

  // ---------------------------------------------------------------------
  // Sums and matrix algebra, on values.

  /** f(0) + ... + f(n - 1). */
  function Sum(n: nat, f: int -> int): int
    decreases n
  {
    if n == 0 then 0 else Sum(n - 1, f) + f(n - 1)
  }

  lemma {:induction false} SumExt(n: nat, f: int -> int, g: int -> int)
    requires forall t :: 0 <= t < n ==> f(t) == g(t)
    ensures Sum(n, f) == Sum(n, g)
    decreases n
  {
    if n > 0 {
      SumExt(n - 1, f, g);
    }
  }

  /** A common factor comes out of a sum. */
  lemma {:induction false} SumScale(n: nat, c: int, f: int -> int, g: int -> int)
    requires forall t :: 0 <= t < n ==> g(t) == c * f(t)
    ensures Sum(n, g) == c * Sum(n, f)
    decreases n
  {
    if n > 0 {
      SumScale(n - 1, c, f, g);
    }
  }

  lemma {:induction false} SumScaleRight(n: nat, c: int, f: int -> int, g: int -> int)
    requires forall t :: 0 <= t < n ==> g(t) == f(t) * c
    ensures Sum(n, g) == Sum(n, f) * c
    decreases n
  {
    if n > 0 {
      SumScaleRight(n - 1, c, f, g);
    }
  }

  lemma {:induction false} SumAdd(n: nat, f: int -> int, g: int -> int, h: int -> int)
    requires forall t :: 0 <= t < n ==> h(t) == f(t) + g(t)
    ensures Sum(n, h) == Sum(n, f) + Sum(n, g)
    decreases n
  {
    if n > 0 {
      SumAdd(n - 1, f, g, h);
    }
  }

  /** A double sum can be taken in either order. */
  lemma {:induction false} SumSwap(n: nat, m: nat, f: (int, int) -> int)
    ensures Sum(n, t => Sum(m, s => f(s, t))) == Sum(m, s => Sum(n, t => f(s, t)))
    decreases n
  {
    if n > 0 {
      SumSwap(n - 1, m, f);
      SumAdd(m, s => Sum(n - 1, t => f(s, t)), s => f(s, n - 1), s => Sum(n, t => f(s, t)));
    } else {
      SumExt(m, s => Sum(n, t => f(s, t)), s => 0);
      SumZero(m);
    }
  }

  lemma {:induction false} SumZero(m: nat)
    ensures Sum(m, s => 0) == 0
    decreases m
  {
    if m > 0 {
      SumZero(m - 1);
    }
  }

  /** A matrix as a value: its rows. */
  type Mat = seq<seq<int>>

  predicate IsSquare(a: Mat, n: nat) {
    |a| == n && forall i :: 0 <= i < n ==> |a[i]| == n
  }

  /** Entry (i, j), and 0 outside the matrix. */
  function Entry(a: Mat, i: int, j: int): int {
    if 0 <= i < |a| && 0 <= j < |a[i]| then a[i][j] else 0
  }

  /** Row i of `a` times column j of `b`, over the first k terms. */
  function Dot(a: Mat, b: Mat, i: int, j: int, k: nat): int {
    Sum(k, t => Entry(a, i, t) * Entry(b, t, j))
  }

  /** The n-by-n product. */
  function Mul(a: Mat, b: Mat, n: nat): (c: Mat)
    ensures IsSquare(c, n)
  {
    seq(n, i requires 0 <= i < n => seq(n, j requires 0 <= j < n => Dot(a, b, i, j, n)))
  }

  /** Matrix multiplication is associative. */
  lemma MulAssociative(a: Mat, b: Mat, c: Mat, n: nat)
    ensures Mul(Mul(a, b, n), c, n) == Mul(a, Mul(b, c, n), n)
  {
    var l, r := Mul(Mul(a, b, n), c, n), Mul(a, Mul(b, c, n), n);
    forall i | 0 <= i < n ensures l[i] == r[i] {
      forall j | 0 <= j < n ensures l[i][j] == r[i][j] {
        AssociativeEntry(a, b, c, n, i, j);
      }
    }
  }

  /** The triple products a[i][s] * b[s][t] * c[t][j]. */
  function Triple(a: Mat, b: Mat, c: Mat, i: int, j: int): (int, int) -> int {
    (s: int, t: int) => Entry(a, i, s) * Entry(b, s, t) * Entry(c, t, j)
  }

  lemma AssocLeft(a: Mat, b: Mat, c: Mat, n: nat, i: int, j: int)
    requires 0 <= i < n && 0 <= j < n
    ensures Dot(Mul(a, b, n), c, i, j, n) == Sum(n, t => Sum(n, s => Triple(a, b, c, i, j)(s, t)))
  {
    var ab, f := Mul(a, b, n), Triple(a, b, c, i, j);
    forall t | 0 <= t < n
      ensures Entry(ab, i, t) * Entry(c, t, j) == Sum(n, s => f(s, t))
    {
      SumScaleRight(n, Entry(c, t, j), s => Entry(a, i, s) * Entry(b, s, t), s => f(s, t));
    }
    SumExt(n, t => Entry(ab, i, t) * Entry(c, t, j), t => Sum(n, s => f(s, t)));
  }

  lemma AssocRight(a: Mat, b: Mat, c: Mat, n: nat, i: int, j: int)
    requires 0 <= i < n && 0 <= j < n
    ensures Dot(a, Mul(b, c, n), i, j, n) == Sum(n, s => Sum(n, t => Triple(a, b, c, i, j)(s, t)))
  {
    var bc, f := Mul(b, c, n), Triple(a, b, c, i, j);
    forall s | 0 <= s < n
      ensures Entry(a, i, s) * Entry(bc, s, j) == Sum(n, t => f(s, t))
    {
      SumScale(n, Entry(a, i, s), t => Entry(b, s, t) * Entry(c, t, j), t => f(s, t));
    }
    SumExt(n, s => Entry(a, i, s) * Entry(bc, s, j), s => Sum(n, t => f(s, t)));
  }

  lemma AssociativeEntry(a: Mat, b: Mat, c: Mat, n: nat, i: int, j: int)
    requires 0 <= i < n && 0 <= j < n
    ensures Dot(Mul(a, b, n), c, i, j, n) == Dot(a, Mul(b, c, n), i, j, n)
  {
    AssocLeft(a, b, c, n, i, j);
    AssocRight(a, b, c, n, i, j);
    SumSwap(n, n, Triple(a, b, c, i, j));
  }
  /** m^e for e >= 1, by repeated multiplication. */
  function MatPow(m: Mat, e: nat, n: nat): Mat
    requires e >= 1
    decreases e
  {
    if e == 1 then m else Mul(m, MatPow(m, e - 1, n), n)
  }

  /** m^a * m^b == m^(a + b). */
  lemma {:induction false} MatPowAdd(m: Mat, a: nat, b: nat, n: nat)
    requires a >= 1 && b >= 1
    ensures Mul(MatPow(m, a, n), MatPow(m, b, n), n) == MatPow(m, a + b, n)
    decreases a
  {
    if a > 1 {
      MulAssociative(m, MatPow(m, a - 1, n), MatPow(m, b, n), n);
      MatPowAdd(m, a - 1, b, n);
    }
  }

  function Pow2(p: nat): (r: nat)
    ensures r >= 1
  {
    if p == 0 then 1 else 2 * Pow2(p - 1)
  }

  /** Squaring m^(2^p) gives m^(2^(p+1)): each child of the chain doubles the exponent. */
  lemma SquarePower(m: Mat, p: nat, n: nat)
    ensures Mul(MatPow(m, Pow2(p), n), MatPow(m, Pow2(p), n), n) == MatPow(m, Pow2(p + 1), n)
  {
    MatPowAdd(m, Pow2(p), Pow2(p), n);
  }

  // ---------------------------------------------------------------------
  // Matrices in memory.

  /** The rows of an array2. */
  ghost function Rows(a: array2<int>): (r: Mat)
    reads a
    ensures |r| == a.Length0 && forall i :: 0 <= i < a.Length0 ==> |r[i]| == a.Length1
    ensures forall i, j :: 0 <= i < a.Length0 && 0 <= j < a.Length1 ==> Entry(r, i, j) == a[i, j]
  {
    seq(a.Length0, i requires 0 <= i < a.Length0 reads a => seq(a.Length1, j requires 0 <= j < a.Length1 reads a => a[i, j]))
  }

  /**
   * square_matrix_mult(matrix, n): a fresh n-by-n matrix whose entry (i, j)
   * is the sum over k of matrix[i][k] * matrix[k][j].
   */
  method SquareMatrixMult(matrix: array2<int>) returns (result: array2<int>)
    requires matrix.Length0 == matrix.Length1
    ensures result.Length0 == matrix.Length0 && result.Length1 == matrix.Length0
    ensures Rows(result) == Mul(Rows(matrix), Rows(matrix), matrix.Length0)
    ensures fresh(result)
  {
    var n := matrix.Length0;
    ghost var m := Rows(matrix);
    result := new int[n, n];
    for i := 0 to n
      invariant forall i', j' :: 0 <= i' < i && 0 <= j' < n ==> result[i', j'] == Dot(m, m, i', j', n)
    {
      for j := 0 to n
        invariant forall i', j' :: 0 <= i' < i && 0 <= j' < n ==> result[i', j'] == Dot(m, m, i', j', n)
        invariant forall j' :: 0 <= j' < j ==> result[i, j'] == Dot(m, m, i, j', n)
      {
        AccumulateEntry(matrix, m, result, i, j);
      }
    }
    ghost var r := Rows(result);
    forall i | 0 <= i < n ensures r[i] == Mul(m, m, n)[i] {
      forall j | 0 <= j < n ensures r[i][j] == Mul(m, m, n)[i][j] {
        assert Entry(r, i, j) == result[i, j];
      }
    }
  }

  /** The innermost loop of square_matrix_mult: result[i][j] accumulates row i times column j. */
  method AccumulateEntry(matrix: array2<int>, ghost m: Mat, result: array2<int>, i: nat, j: nat)
    requires matrix.Length0 == matrix.Length1 && m == Rows(matrix) && result != matrix
    requires i < result.Length0 == matrix.Length0 && j < result.Length1 == matrix.Length0
    modifies result
    ensures result[i, j] == Dot(m, m, i, j, matrix.Length0)
    ensures forall i', j' :: 0 <= i' < result.Length0 && 0 <= j' < result.Length1 && (i', j') != (i, j) ==>
              result[i', j'] == old(result[i', j'])
  {
    result[i, j] := 0;
    for k := 0 to matrix.Length0
      invariant result[i, j] == Dot(m, m, i, j, k)
      invariant forall i', j' :: 0 <= i' < result.Length0 && 0 <= j' < result.Length1 && (i', j') != (i, j) ==>
                  result[i', j'] == old(result[i', j'])
    {
      result[i, j] := result[i, j] + matrix[i, k] * matrix[k, j];
    }
  }

  // ---------------------------------------------------------------------
  // The pipes: pipe i is written by process i and read by process i + 1,
  // and the last one is read by the main process 0.

  /** The process that reads pipe `i` of `pcount`. */
  function Reader(i: nat, pcount: nat): nat
    requires i < pcount
  {
    (i + 1) % pcount
  }

  /** The pipe process `pnum` reads: its predecessor's, or the last one for the main process. */
  function InputPipe(pnum: nat, pcount: nat): (i: nat)
    requires pnum < pcount
    ensures i < pcount && Reader(i, pcount) == pnum
  {
    if pnum == 0 then
      assert (pcount - 1 + 1) % pcount == 0 by { assert pcount - 1 + 1 == 1 * pcount + 0; }
      pcount - 1
    else
      assert (pnum - 1 + 1) % pcount == pnum by { assert pnum - 1 + 1 == 0 * pcount + pnum; }
      pnum - 1
  }

  /** Every process reads from exactly one pipe. */
  lemma InputPipeUnique(pnum: nat, pcount: nat, i: nat)
    requires pnum < pcount && i < pcount
    ensures Reader(i, pcount) == pnum <==> i == InputPipe(pnum, pcount)
  {
    if i + 1 == pcount {
      assert (i + 1) % pcount == 0;
    } else {
      assert (i + 1) % pcount == i + 1;
    }
  }

  /** A pipe end: the read or the write descriptor of pipe `pipe`. */
  datatype End = ReadEnd(pipe: nat) | WriteEnd(pipe: nat)

  /** Process `pnum` needs `e`: the read end of the pipe it reads, or the write end of its own pipe. */
  predicate Needs(pnum: nat, pcount: nat, e: End)
    requires pnum < pcount
  {
    match e
    case ReadEnd(i) => i < pcount && Reader(i, pcount) == pnum
    case WriteEnd(i) => i == pnum
  }

  /**
   * close_pipefd(pipefd, pnum, pcount): the ends process `pnum` closes, in
   * the order it closes them.  They are exactly the ends of the `pcount`
   * pipes it does not need, each once.
   */
  method ClosePipefd(pnum: nat, pcount: nat) returns (closed: seq<End>)
    requires pnum < pcount
    ensures forall e :: e in closed <==> e.pipe < pcount && !Needs(pnum, pcount, e)
    ensures |closed| == 2 * pcount - 2
  {
    closed := [];
    var i := 0;
    while i < pcount
      invariant 0 <= i <= pcount
      invariant forall e :: e in closed <==> e.pipe < i && !Needs(pnum, pcount, e)
      invariant |closed| == 2 * i - (if InputPipe(pnum, pcount) < i then 1 else 0) - (if pnum < i then 1 else 0)
    {
      InputPipeUnique(pnum, pcount, i);
      if (pnum == 0 && pcount - 1 != i) || (pnum != 0 && pnum != i + 1) {
        closed := closed + [ReadEnd(i)];
      }
      if pnum != i {
        closed := closed + [WriteEnd(i)];
      }
      i := i + 1;
    }
  }

  /**
   * The chain of main_work and child_work: the main process writes the
   * matrix to pipe 0; child pnum, for pnum = 1 .. pcount - 1, reads the pipe
   * it keeps open for reading, squares the matrix and writes the square to
   * its own pipe; the main process reads back the pipe it keeps.  With
   * pcount - 1 children that is matrix^(2^(pcount - 1)).
   */
  method Pipeline(matrix: array2<int>, pcount: nat) returns (result: array2<int>)
    requires matrix.Length0 == matrix.Length1 && pcount >= 1
    ensures result.Length0 == matrix.Length0 && result.Length1 == matrix.Length0
    ensures Rows(result) == MatPow(Rows(matrix), Pow2(pcount - 1), matrix.Length0)
  {
    var n := matrix.Length0;
    ghost var m := Rows(matrix);
    var pipes: seq<array2<int>> := [matrix];
    var pnum := 1;
    while pnum < pcount
      invariant 1 <= pnum <= pcount && |pipes| == pnum
      invariant pipes[pnum - 1].Length0 == n && pipes[pnum - 1].Length1 == n
      invariant Rows(pipes[pnum - 1]) == MatPow(m, Pow2(pnum - 1), n)
    {
      var input := pipes[InputPipe(pnum, pcount)];
      var square := SquareMatrixMult(input);
      SquarePower(m, pnum - 1, n);
      pipes := pipes + [square];
      pnum := pnum + 1;
    }
    result := pipes[InputPipe(0, pcount)];
  }

  // ---------------------------------------------------------------------
  // The column width print_matrix uses.

  /** digit_count(number): the length of what printf("%lld") writes. */
  function DigitCount(x: int): nat {
    |Decimal(x)|
  }

  /**
   * The digit count is the decimal magnitude: 1 for 0, d for a natural
   * number in [10^(d-1), 10^d), and one more for the minus sign of a
   * negative number.
   */
  lemma DigitCountMagnitude(x: int)
    ensures DigitCount(x) >= 1
    ensures x == 0 ==> DigitCount(x) == 1
    ensures x < 0 ==> DigitCount(x) == 1 + DigitCount(-x)
    ensures x >= 0 ==> x < Pow10(DigitCount(x))
    ensures x >= 1 ==> Pow10(DigitCount(x) - 1) <= x
  {
    DecimalBytes(x);
    if x >= 0 {
      NatDigitsLength(x);
    }
  }

  function Abs(x: int): nat {
    if x < 0 then -x else x
  }

  function Max(a: nat, b: nat): nat {
    if a < b then b else a
  }

  /** The largest magnitude in a row, and 0 for an empty one. */
  function RowMax(r: seq<int>): nat
    decreases |r|
  {
    if |r| == 0 then 0 else Max(RowMax(r[..|r| - 1]), Abs(r[|r| - 1]))
  }

  /** The largest magnitude in a matrix, and 0 for an empty one. */
  function MatMax(m: Mat): nat
    decreases |m|
  {
    if |m| == 0 then 0 else Max(MatMax(m[..|m| - 1]), RowMax(m[|m| - 1]))
  }

  lemma {:induction false} RowMaxIsMax(r: seq<int>)
    ensures forall j :: 0 <= j < |r| ==> Abs(r[j]) <= RowMax(r)
    ensures RowMax(r) == 0 || exists j :: 0 <= j < |r| && Abs(r[j]) == RowMax(r)
    decreases |r|
  {
    if |r| > 0 {
      var init := r[..|r| - 1];
      RowMaxIsMax(init);
      assert forall j :: 0 <= j < |init| ==> init[j] == r[j];
    }
  }

  /** MatMax bounds every entry's magnitude, and is the magnitude of one unless it is 0. */
  lemma {:induction false} MatMaxIsMax(m: Mat)
    ensures forall i, j :: 0 <= i < |m| && 0 <= j < |m[i]| ==> Abs(m[i][j]) <= MatMax(m)
    ensures MatMax(m) == 0 || exists i, j :: 0 <= i < |m| && 0 <= j < |m[i]| && Abs(m[i][j]) == MatMax(m)
    decreases |m|
  {
    if |m| > 0 {
      var init := m[..|m| - 1];
      MatMaxIsMax(init);
      RowMaxIsMax(m[|m| - 1]);
      assert forall i :: 0 <= i < |init| ==> init[i] == m[i];
    }
  }

  /**
   * max_length_in_matrix(matrix, n): the digit count of the largest
   * magnitude in the matrix (starting from 0), plus one column for a minus
   * sign and one for a space.
   */
  method MaxLengthInMatrix(matrix: array2<int>) returns (width: int)
    requires matrix.Length0 == matrix.Length1
    ensures width == DigitCount(MatMax(Rows(matrix))) + 2
  {
    var n := matrix.Length0;
    ghost var m := Rows(matrix);
    var max: nat := 0;
    for i := 0 to n
      invariant max == MatMax(m[..i])
    {
      assert m[..i + 1][..i] == m[..i];
      max := ScanRow(matrix, m, i, max);
    }
    assert m[..n] == m;
    width := DigitCount(max) + 2;
  }

  /** The inner loop of max_length_in_matrix over row i, from running maximum `max`. */
  method ScanRow(matrix: array2<int>, ghost m: Mat, i: nat, max: nat) returns (max': nat)
    requires m == Rows(matrix) && i < matrix.Length0
    ensures max' == Max(max, RowMax(m[i]))
  {
    max' := max;
    for j := 0 to matrix.Length1
      invariant max' == Max(max, RowMax(m[i][..j]))
    {
      assert m[i][..j + 1][..j] == m[i][..j];
      ghost var before := max';
      if matrix[i, j] > max' {
        max' := matrix[i, j];
      } else if -matrix[i, j] > max' {
        max' := -matrix[i, j];
      }
      assert max' == Max(before, Abs(m[i][j]));
    }
    assert m[i][..matrix.Length1] == m[i];
  }

  /** The width is at least 3: a digit, a minus sign and a space. */
  lemma WidthAtLeastThree(m: Mat)
    ensures DigitCount(MatMax(m)) + 2 >= 3
  {
    DigitCountMagnitude(MatMax(m));
  }

  // ---------------------------------------------------------------------
  // malloc_2d_long: one contiguous block, row i starting at offset i * n.

  /**
   * The layout malloc_2d_long(&array, m, n) builds: a block of m * n
   * entries and, for each row, its offset into the block.
   */
  method Malloc2DLong(m: nat, n: nat) returns (block: array<int>, rows: array<nat>)
    ensures block.Length == m * n && rows.Length == m
    ensures forall i :: 0 <= i < m ==> rows[i] == i * n && rows[i] + n <= block.Length
    ensures fresh(block) && fresh(rows)
  {
    block := new int[m * n];
    rows := new nat[m];
    for i := 0 to m
      invariant forall i' :: 0 <= i' < i ==> rows[i'] == i' * n && rows[i'] + n <= m * n
    {
      RowInBlock(m, n, i);
      rows[i] := i * n;
    }
  }

  lemma RowInBlock(m: nat, n: nat, i: nat)
    requires i < m
    ensures i * n + n <= m * n
  {
    assert i * n + n == (i + 1) * n;
  }

  /** Entry (i, j) of an m-by-n block sits inside the block. */
  lemma RowMajorInRange(m: nat, n: nat, i: nat, j: nat)
    requires i < m && j < n
    ensures i * n + j < m * n
  {
    RowInBlock(m, n, i);
  }

  /** Distinct entries sit at distinct offsets. */
  lemma RowMajorInjective(n: nat, i: nat, j: nat, i': nat, j': nat)
    requires j < n && j' < n && i * n + j == i' * n + j'
    ensures i == i' && j == j'
  {
    if i < i' {
      OffsetIncreasing(n, i, j, i', j');
      assert false;
    } else if i' < i {
      OffsetIncreasing(n, i', j', i, j);
      assert false;
    }
  }

  /** An entry of an earlier row sits at a smaller offset. */
  lemma OffsetIncreasing(n: nat, i: nat, j: nat, i': nat, j': nat)
    requires i < i' && j < n
    ensures i * n + j < i' * n + j'
  {
    assert i' * n - (i + 1) * n == (i' - i - 1) * n;
    assert i * n + j < (i + 1) * n;
  }

  /** Every offset of the block belongs to some entry. */
  lemma RowMajorOnto(m: nat, n: nat, k: nat)
    requires k < m * n
    ensures n > 0 && k / n < m && k % n < n && (k / n) * n + k % n == k
  {
  }
}
