/** LU factorisation in place, over exact reals. */
module MatrixLu {

  /** The rows of a matrix. */
  type Grid = seq<seq<real>>

  ghost predicate Shape(a: Grid, n: nat, m: nat) {
    |a| == n && forall i :: 0 <= i < n ==> |a[i]| == m
  }

  /** A quotient where there is one. */
  function Quot(x: real, y: real): real {
    if y == 0.0 then 0.0 else x / y
  }

  // ---------- what elimination computes ----------

  /** The entry (i, j) once k columns have been eliminated below their pivots. */
  function Rest(a: Grid, n: nat, k: nat, i: nat, j: nat): real
    requires Shape(a, n, n) && i < n && j < n && k < n
    decreases k, 0
  {
    if k == 0 then a[i][j]
    else Rest(a, n, k - 1, i, j) - Factor(a, n, k - 1, i) * Rest(a, n, k - 1, k - 1, j)
  }

  /** How much of pivot row k is taken from row i. */
  function Factor(a: Grid, n: nat, k: nat, i: nat): real
    requires Shape(a, n, n) && i < n && k < n
    decreases k, 1
  {
    Quot(Rest(a, n, k, i, k), Rest(a, n, k, k, k))
  }

  /** No pivot that the algorithm divides by is zero. */
  ghost predicate Pivots(a: Grid, n: nat)
    requires Shape(a, n, n)
  {
    forall k :: 0 <= k < n - 1 ==> Rest(a, n, k, k, k) != 0.0
  }

  /** The storage after k pivots: factors left of the diagonal in the finished columns, remainders elsewhere. */
  function Entry(a: Grid, n: nat, k: nat, i: nat, j: nat): real
    requires Shape(a, n, n) && i < n && j < n && k < n
  {
    if j < k && j < i then Factor(a, n, j, i) else Rest(a, n, if i < k then i else k, i, j)
  }

  // ---------- triangular matrices and their product ----------

  ghost predicate UnitLower(l: Grid, n: nat) {
    && Shape(l, n, n)
    && (forall i, j :: 0 <= i < j < n ==> l[i][j] == 0.0)
    && (forall i :: 0 <= i < n ==> l[i][i] == 1.0)
  }

  ghost predicate Upper(u: Grid, n: nat) {
    Shape(u, n, n) && forall i, j :: 0 <= j < i < n ==> u[i][j] == 0.0
  }

  /** The sum of the first t products of row i and column j. */
  function Dot(l: Grid, u: Grid, i: nat, j: nat, t: nat): real
    requires i < |l| && t <= |l[i]| && t <= |u| && forall s :: 0 <= s < t ==> j < |u[s]|
    decreases t
  {
    if t == 0 then 0.0 else Dot(l, u, i, j, t - 1) + u[t - 1][j] * l[i][t - 1]
  }

  ghost predicate Product(l: Grid, u: Grid, a: Grid, n: nat)
    requires Shape(l, n, n) && Shape(u, n, n) && Shape(a, n, n)
  {
    forall i, j :: 0 <= i < n && 0 <= j < n ==> Dot(l, u, i, j, n) == a[i][j]
  }

  /** Beyond the diagonal of either factor nothing is added. */
  lemma {:induction false} DotBeyond(l: Grid, u: Grid, n: nat, i: nat, j: nat, t: nat)
    requires UnitLower(l, n) && Upper(u, n) && i < n && j < n && t <= n
    requires t > i || t > j
    ensures Dot(l, u, i, j, t) == Dot(l, u, i, j, if i < j then i + 1 else j + 1)
    decreases t
  {
    if t > (if i < j then i + 1 else j + 1) {
      DotBeyond(l, u, n, i, j, t - 1);
    }
  }

  /** The factors the storage holds at the end. */
  ghost predicate Factors(a: Grid, l: Grid, u: Grid, n: nat) {
    && Shape(a, n, n) && UnitLower(l, n) && Upper(u, n)
    && (forall i, j :: 0 <= j < i < n ==> l[i][j] == Factor(a, n, j, i))
    && (forall i, j :: 0 <= i <= j < n ==> u[i][j] == Rest(a, n, i, i, j))
  }

  /** What has been taken away from an entry is the part of the product summed so far. */
  lemma {:induction false} RestIsRemainder(a: Grid, l: Grid, u: Grid, n: nat, k: nat, i: nat, j: nat)
    requires Factors(a, l, u, n) && k <= i < n && k <= j < n
    ensures Rest(a, n, k, i, j) == a[i][j] - Dot(l, u, i, j, k)
    decreases k
  {
    if k > 0 {
      RestIsRemainder(a, l, u, n, k - 1, i, j);
      assert l[i][k - 1] == Factor(a, n, k - 1, i) && u[k - 1][j] == Rest(a, n, k - 1, k - 1, j);
    }
  }

  /** Unless a pivot is zero the factors multiply back to the matrix. */
  lemma FactorsMultiply(a: Grid, l: Grid, u: Grid, n: nat)
    requires Factors(a, l, u, n) && Pivots(a, n)
    ensures Product(l, u, a, n)
  {
    hide Rest, Factor;
    forall i, j | 0 <= i < n && 0 <= j < n ensures Dot(l, u, i, j, n) == a[i][j] {
      EntryMultiplies(a, l, u, n, i, j);
    }
  }

  lemma EntryMultiplies(a: Grid, l: Grid, u: Grid, n: nat, i: nat, j: nat)
    requires Factors(a, l, u, n) && Pivots(a, n) && i < n && j < n
    ensures Dot(l, u, i, j, n) == a[i][j]
  {
    hide Rest, Factor;
    DotBeyond(l, u, n, i, j, n);
    var t := if i < j then i else j;
    RestIsRemainder(a, l, u, n, t, i, j);
    assert Dot(l, u, i, j, t + 1) == Dot(l, u, i, j, t) + u[t][j] * l[i][t];
    if j < i {
      LastTerm(a, l, u, n, i, j);
    }
  }

  lemma LastTerm(a: Grid, l: Grid, u: Grid, n: nat, i: nat, j: nat)
    requires Factors(a, l, u, n) && Pivots(a, n) && j < i < n
    ensures u[j][j] * l[i][j] == Rest(a, n, j, i, j)
  {
    hide Rest;
    assert Rest(a, n, j, j, j) != 0.0;
    assert u[j][j] == Rest(a, n, j, j, j) && l[i][j] == Quot(Rest(a, n, j, i, j), Rest(a, n, j, j, j));
  }

  // ---------- when elimination works at all ----------

  /** Some factorisation whose upper factor has no zero among the first n - 1 diagonal entries. */
  ghost predicate Factorises(a: Grid, l: Grid, u: Grid, n: nat) {
    && Shape(a, n, n) && UnitLower(l, n) && Upper(u, n) && Product(l, u, a, n)
    && forall k :: 0 <= k < n - 1 ==> u[k][k] != 0.0
  }

  /** Any such factorisation agrees with elimination in the first k rows and columns. */
  ghost predicate Agrees(a: Grid, l: Grid, u: Grid, n: nat, k: nat)
    requires Factorises(a, l, u, n)
  {
    && (forall i, j :: 0 <= j < k && j < i < n ==> l[i][j] == Factor(a, n, j, i))
    && (forall i, j :: 0 <= i < k && i <= j < n ==> u[i][j] == Rest(a, n, i, i, j))
  }

  lemma {:induction false} RemainderOf(a: Grid, l: Grid, u: Grid, n: nat, t: nat, k: nat, i: nat, j: nat)
    requires Factorises(a, l, u, n) && Agrees(a, l, u, n, k) && t <= k && t <= i < n && t <= j < n
    ensures Rest(a, n, t, i, j) == a[i][j] - Dot(l, u, i, j, t)
    decreases t
  {
    if t > 0 {
      RemainderOf(a, l, u, n, t - 1, k, i, j);
      assert l[i][t - 1] == Factor(a, n, t - 1, i) && u[t - 1][j] == Rest(a, n, t - 1, t - 1, j);
    }
  }

  lemma {:induction false} MustAgree(a: Grid, l: Grid, u: Grid, n: nat, k: nat)
    requires Factorises(a, l, u, n) && k <= n
    ensures Agrees(a, l, u, n, k)
    decreases k
  {
    hide Rest, Factor;
    if k > 0 {
      var p := k - 1;
      MustAgree(a, l, u, n, p);
      forall j | p <= j < n ensures u[p][j] == Rest(a, n, p, p, j) {
        RowAgrees(a, l, u, n, p, j);
      }
      forall i | p < i < n ensures l[i][p] == Factor(a, n, p, i) {
        RowAgrees(a, l, u, n, p, p);
        ColumnAgrees(a, l, u, n, p, i);
      }
    }
  }

  lemma RowAgrees(a: Grid, l: Grid, u: Grid, n: nat, k: nat, j: nat)
    requires Factorises(a, l, u, n) && Agrees(a, l, u, n, k) && k <= j < n
    ensures u[k][j] == Rest(a, n, k, k, j)
  {
    hide Rest, Factor;
    DotBeyond(l, u, n, k, j, n);
    RemainderOf(a, l, u, n, k, k, k, j);
    assert Dot(l, u, k, j, k + 1) == Dot(l, u, k, j, k) + u[k][j] * l[k][k];
  }

  lemma ColumnAgrees(a: Grid, l: Grid, u: Grid, n: nat, k: nat, i: nat)
    requires Factorises(a, l, u, n) && Agrees(a, l, u, n, k) && k < i < n && u[k][k] == Rest(a, n, k, k, k)
    ensures l[i][k] == Factor(a, n, k, i)
  {
    hide Rest;
    DotBeyond(l, u, n, i, k, n);
    RemainderOf(a, l, u, n, k, k, i, k);
    assert Dot(l, u, i, k, k + 1) == Dot(l, u, i, k, k) + u[k][k] * l[i][k];
  }

  /** There is at most one such factorisation: the one elimination computes. */
  lemma FactorisationUnique(a: Grid, l: Grid, u: Grid, n: nat)
    requires Factorises(a, l, u, n)
    ensures Pivots(a, n) && Factors(a, l, u, n)
  {
    hide Rest, Factor;
    MustAgree(a, l, u, n, n);
  }

  function LowerOf(a: Grid, n: nat): Grid
    requires Shape(a, n, n)
  {
    seq(n, i requires 0 <= i < n => seq(n, j requires 0 <= j < n =>
      if j < i then Factor(a, n, j, i) else if i == j then 1.0 else 0.0))
  }

  function UpperOf(a: Grid, n: nat): Grid
    requires Shape(a, n, n)
  {
    seq(n, i requires 0 <= i < n => seq(n, j requires 0 <= j < n =>
      if i <= j then Rest(a, n, i, i, j) else 0.0))
  }

  /** The condition on the pivots is exact: it holds if and only if the matrix has such a factorisation. */
  lemma PivotsExact(a: Grid, n: nat)
    requires Shape(a, n, n)
    ensures Pivots(a, n) <==> exists l, u :: Factorises(a, l, u, n)
  {
    hide Rest, Factor;
    if Pivots(a, n) {
      var l, u := LowerOf(a, n), UpperOf(a, n);
      FactorsMultiply(a, l, u, n);
      assert Factorises(a, l, u, n);
    }
    forall l, u | Factorises(a, l, u, n) ensures Pivots(a, n) {
      FactorisationUnique(a, l, u, n);
    }
  }

  // ---------- the class ----------

  class Matrix {
    const n: nat
    const m: nat
    const M: array2<real>

    ghost predicate Valid() {
      M.Length0 == n && M.Length1 == m
    }

    ghost function Rows(): (a: Grid)
      requires Valid()
      reads M
      ensures Shape(a, n, m) && forall i, j :: 0 <= i < n && 0 <= j < m ==> a[i][j] == M[i, j]
    {
      seq(n, i requires 0 <= i < n reads M => seq(m, j requires 0 <= j < m reads M => M[i, j]))
    }

    constructor (n: nat, m: nat)
      ensures Valid() && this.n == n && this.m == m && fresh(M)
    {
      this.n, this.m := n, m;
      M := new real[n, m];
    }

    method Fill(value: real)
      requires Valid()
      modifies M
      ensures forall i, j :: 0 <= i < n && 0 <= j < m ==> M[i, j] == value
    {
      for i := 0 to n
        invariant forall r, c :: 0 <= r < i && 0 <= c < m ==> M[r, c] == value
      {
        for j := 0 to m
          invariant forall r, c :: 0 <= r < i && 0 <= c < m ==> M[r, c] == value
          invariant forall c :: 0 <= c < j ==> M[i, c] == value
        {
          M[i, j] := value;
        }
      }
    }

    method Eye(value: real)
      requires Valid()
      modifies M
      ensures forall i, j :: 0 <= i < n && 0 <= j < m ==> M[i, j] == if i == j then value else 0.0
    {
      for i := 0 to n
        invariant forall r, c :: 0 <= r < i && 0 <= c < m ==> M[r, c] == if r == c then value else 0.0
      {
        for j := 0 to m
          invariant forall r, c :: 0 <= r < i && 0 <= c < m ==> M[r, c] == if r == c then value else 0.0
          invariant forall c :: 0 <= c < j ==> M[i, c] == if i == c then value else 0.0
        {
          M[i, j] := if i == j then value else 0.0;
        }
      }
    }

    static method DotOf(a: Matrix, b: Matrix, i: nat, j: nat) returns (s: real)
      requires a.Valid() && b.Valid() && a.m == b.n && i < a.n && j < b.m
      ensures s == Dot(a.Rows(), b.Rows(), i, j, a.m)
    {
      s := 0.0;
      for k := 0 to a.m
        invariant s == Dot(a.Rows(), b.Rows(), i, j, k)
      {
        s := s + b.M[k, j] * a.M[i, k];
      }
    }

    method Mult(a: Matrix, b: Matrix)
      requires Valid() && a.Valid() && b.Valid() && a.n == n && b.m == m && a.m == b.n
      requires a.M != M && b.M != M
      modifies M
      ensures forall i, j :: 0 <= i < n && 0 <= j < m ==> M[i, j] == Dot(a.Rows(), b.Rows(), i, j, a.m)
    {
      for i := 0 to n
        invariant forall r, c :: 0 <= r < i && 0 <= c < m ==> M[r, c] == Dot(a.Rows(), b.Rows(), r, c, a.m)
      {
        for j := 0 to m
          invariant forall r, c :: 0 <= r < i && 0 <= c < m ==> M[r, c] == Dot(a.Rows(), b.Rows(), r, c, a.m)
          invariant forall c :: 0 <= c < j ==> M[i, c] == Dot(a.Rows(), b.Rows(), i, c, a.m)
        {
          var s := DotOf(a, b, i, j);
          M[i, j] := s;
        }
      }
    }

    /** Row r holds the entries of stage k. */
    ghost predicate RowAt(a: Grid, k: nat, r: nat)
      requires Valid() && n == m && Shape(a, n, n) && k < n && r < n
      reads M
    {
      forall c :: 0 <= c < n ==> M[r, c] == Entry(a, n, k, r, c)
    }

    /** Eliminates column k from row i. */
    method EliminateRow(k: nat, i: nat, ghost a: Grid)
      requires Valid() && n == m && Shape(a, n, n) && k < i < n
      requires RowAt(a, k, i) && RowAt(a, k, k) && Rest(a, n, k, k, k) != 0.0
      modifies M
      ensures RowAt(a, k + 1, i)
      ensures forall r, s :: 0 <= r < n && r != i && 0 <= s < n && old(RowAt(a, s, r)) ==> RowAt(a, s, r)
    {
      hide Rest;
      M[i, k] := M[i, k] / M[k, k];
      for j := k + 1 to n
        invariant forall c :: 0 <= c < j ==> M[i, c] == Entry(a, n, k + 1, i, c)
        invariant forall c :: j <= c < n ==> M[i, c] == Entry(a, n, k, i, c)
        invariant forall r, c :: 0 <= r < n && 0 <= c < n && r != i ==> M[r, c] == old(M[r, c])
      {
        EntryStep(a, n, k, i, j);
        M[i, j] := M[i, j] - M[i, k] * M[k, j];
      }
    }

    /** The storage after LU(): both factors in one matrix. */
    method Eliminate(ghost a: Grid)
      requires Valid() && n == m && a == Rows() && Pivots(a, n)
      modifies M
      ensures forall r, c :: 0 <= r < n && 0 <= c < n ==> M[r, c] == Entry(a, n, n - 1, r, c)
    {
      hide Rest, Entry;
      if n > 0 {
        FirstStage(a, n);
        assert forall r :: 0 <= r < n ==> RowAt(a, 0, r);
      }
      var k := 0;
      while k < n - 1
        invariant 0 <= k && (n > 0 ==> k <= n - 1)
        invariant forall r :: 0 <= r < n ==> RowAt(a, k, r)
      {
        var next := k + 1;
        forall r | 0 <= r <= k ensures RowAt(a, next, r) {
          FrozenRow(a, n, k, r);
          assert RowAt(a, k, r);
        }
        for i := k + 1 to n
          invariant forall r :: 0 <= r < i ==> RowAt(a, next, r)
          invariant forall r :: i <= r < n ==> RowAt(a, k, r)
          invariant RowAt(a, k, k)
        {
          EliminateRow(k, i, a);
        }
        k := next;
      }
      forall r, c | 0 <= r < n && 0 <= c < n ensures M[r, c] == Entry(a, n, n - 1, r, c) {
        assert RowAt(a, k, r);
      }
    }

    /** Copies the factors below the diagonal of the storage. */
    method CopyLower(to: Matrix)
      requires Valid() && to.Valid() && n == m == to.n == to.m && M != to.M
      requires forall i, j :: 0 <= i < n && 0 <= j < n ==> to.M[i, j] == if i == j then 1.0 else 0.0
      modifies to.M
      ensures forall i, j :: 0 <= i < n && 0 <= j < n ==>
                to.M[i, j] == if j < i then M[i, j] else if i == j then 1.0 else 0.0
    {
      var j := 0;
      while j < n - 1
        invariant 0 <= j && (n > 0 ==> j <= n - 1)
        invariant forall r, c :: 0 <= r < n && 0 <= c < n ==>
                    to.M[r, c] == if c < j && c < r then M[r, c] else if r == c then 1.0 else 0.0
      {
        for i := j + 1 to n
          invariant forall r, c :: 0 <= r < n && 0 <= c < n ==>
                      to.M[r, c] == if (c < j && c < r) || (c == j && c < r < i) then M[r, c]
                                    else if r == c then 1.0 else 0.0
        {
          to.M[i, j] := M[i, j];
        }
        j := j + 1;
      }
    }

    method CopyUpper(to: Matrix)
      requires Valid() && to.Valid() && n == m == to.n == to.m && M != to.M
      requires forall i, j :: 0 <= i < n && 0 <= j < n ==> to.M[i, j] == 0.0
      modifies to.M
      ensures forall i, j :: 0 <= i < n && 0 <= j < n ==> to.M[i, j] == if i <= j then M[i, j] else 0.0
    {
      for i := 0 to n
        invariant forall r, c :: 0 <= r < n && 0 <= c < n ==> to.M[r, c] == if r < i && r <= c then M[r, c] else 0.0
      {
        for j := i to n
          invariant forall r, c :: 0 <= r < n && 0 <= c < n ==>
                      to.M[r, c] == if (r < i && r <= c) || (r == i && r <= c < j) then M[r, c] else 0.0
        {
          to.M[i, j] := M[i, j];
        }
      }
    }

    /** If no pivot is zero: a unit lower and an upper triangular matrix whose product is the matrix as
        it was before the call. */
    method LU(L: Matrix, U: Matrix)
      requires Valid() && L.Valid() && U.Valid() && n == m == L.n == L.m == U.n == U.m
      requires M != L.M && M != U.M && L.M != U.M
      requires Pivots(Rows(), n)
      modifies M, L.M, U.M
      ensures Factors(old(Rows()), L.Rows(), U.Rows(), n)
      ensures Product(L.Rows(), U.Rows(), old(Rows()), n)
    {
      hide Rest, Factor, Entry, Pivots, Product;
      ghost var a := Rows();
      Eliminate(a);
      EntryAtEnd(a, n);
      L.Eye(1.0);
      CopyLower(L);
      U.Fill(0.0);
      CopyUpper(U);
      FactorsMultiply(a, L.Rows(), U.Rows(), n);
    }
  }

  lemma EntryAtEnd(a: Grid, n: nat)
    requires Shape(a, n, n)
    ensures forall i, j :: 0 <= j < i < n ==> Entry(a, n, n - 1, i, j) == Factor(a, n, j, i)
    ensures forall i, j :: 0 <= i <= j < n ==> Entry(a, n, n - 1, i, j) == Rest(a, n, i, i, j)
  {
  }

  lemma FirstStage(a: Grid, n: nat)
    requires Shape(a, n, n) && n > 0
    ensures forall r, c :: 0 <= r < n && 0 <= c < n ==> Entry(a, n, 0, r, c) == a[r][c]
  {
  }

  lemma FrozenRow(a: Grid, n: nat, k: nat, r: nat)
    requires Shape(a, n, n) && r <= k < n - 1
    ensures forall c :: 0 <= c < n ==> Entry(a, n, k + 1, r, c) == Entry(a, n, k, r, c)
  {
  }

  lemma EntryStep(a: Grid, n: nat, k: nat, i: nat, j: nat)
    requires Shape(a, n, n) && k < i < n && k < j < n
    ensures Entry(a, n, k + 1, i, j) == Entry(a, n, k, i, j) - Entry(a, n, k + 1, i, k) * Entry(a, n, k, k, j)
  {
  }
}
