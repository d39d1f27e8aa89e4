/** The problem instance: scenario Markov parameters, global parameters, and the
    row-major reshaping helpers used when scenario data arrive flattened. */
module Problems {

  /** The exception `from1Dto2D`/`from1Dto3D` throw on an element-count mismatch. */
  datatype Error = InappropriateDimensions

  datatype Result<T> = Ok(value: T) | Err(error: Error)

  /** One scenario: a stationary absorbing Markov decision process restricted to the
      non-absorbing states.  P[i][c][j] is the probability of moving from state i to
      state j under control bit c, Q[i][c] the probability of absorption, r[i][c] the
      immediate reward and R[i] the terminal reward. */
  datatype MDP = MDP(P: seq<seq<seq<real>>>, Q: seq<seq<real>>, r: seq<seq<real>>, R: seq<real>)

  /** The MDP has the dimensions the engine indexes with, for `n` non-absorbing states. */
  predicate Shaped(s: MDP, n: nat)
  {
    && |s.P| == n && |s.Q| == n && |s.r| == n && |s.R| == n
    && (forall i :: 0 <= i < n ==> |s.P[i]| == 2 && |s.P[i][0]| == n && |s.P[i][1]| == n)
    && (forall i :: 0 <= i < n ==> |s.Q[i]| == 2 && |s.r[i]| == 2)
  }

  /** A problem instance; none of its fields changes after construction. */
  class Problem {
    const nState: int
    const nStage: int
    const nPop: int
    const rD: real
    const capacity: seq<int>
    const priors: seq<real>
    const scenarios: seq<MDP>

    /** The scenarios are given as values instead of being read from storage. */
    constructor (nPop: int, capacity: seq<int>, priors: seq<real>, scenarios: seq<MDP>)
      ensures this.nState == |priors| + 1 && this.nStage == |capacity| + 1 && this.rD == 0.0
      ensures this.nPop == nPop && this.capacity == capacity && this.priors == priors
      ensures this.scenarios == scenarios
    {
      this.nState := |priors| + 1;
      this.nStage := |capacity| + 1;
      this.rD := 0.0;
      this.nPop := nPop;
      this.capacity := capacity;
      this.priors := priors;
      this.scenarios := scenarios;
    }

    /** Every scenario has the dimensions implied by the prior distribution. */
    predicate WellShaped()
    {
      && nState == |priors| + 1
      && nStage == |capacity| + 1
      && forall l :: 0 <= l < |scenarios| ==> Shaped(scenarios[l], |priors|)
    }
  }

  // ---------------------------------------------------------------------------
  // Row-major layout

  /** Where row i of a row-major layout with rows of length n begins: i*n, counted
      out row by row so that the loop proofs stay linear. */
  function Offset(i: nat, n: nat): nat
  {
    if i == 0 then 0 else Offset(i - 1, n) + n
  }

  lemma {:induction false} OffsetIsProduct(i: nat, n: nat)
    ensures Offset(i, n) == i * n
  {
    if i > 0 {
      OffsetIsProduct(i - 1, n);
      assert (i - 1) * n + n == i * n;
    }
  }

  /** Every row that starts before row m also ends before it. */
  lemma {:induction false} RowStartsBelow(m: nat, n: nat)
    ensures forall i :: 0 <= i < m ==> Offset(i, n) + n <= Offset(m, n)
  {
    if m > 0 {
      RowStartsBelow(m - 1, n);
    }
  }

  lemma {:induction false} OffsetAdd(a: nat, b: nat, k: nat)
    ensures Offset(a + b, k) == Offset(a, k) + Offset(b, k)
  {
    if b > 0 {
      OffsetAdd(a, b - 1, k);
    }
  }

  lemma {:induction false} OffsetNested(i: nat, n: nat, k: nat)
    ensures Offset(Offset(i, n), k) == Offset(i, Offset(n, k))
  {
    if i > 0 {
      OffsetNested(i - 1, n, k);
      OffsetAdd(Offset(i - 1, n), n, k);
    }
  }

  lemma {:induction false} OffsetMonotone(a: nat, b: nat, n: nat)
    requires a <= b
    ensures Offset(a, n) <= Offset(b, n)
  {
    if a < b {
      OffsetMonotone(a, b - 1, n);
    }
  }

  /** Row i of a 2-D array. */
  function Row2(B: array2<real>, i: nat): (s: seq<real>)
    reads B
    requires i < B.Length0
    ensures |s| == B.Length1
  {
    seq(B.Length1, j reads B requires 0 <= j < B.Length1 => B[i, j])
  }

  /** The first m rows of a 2-D array, read row after row. */
  function Rows2(B: array2<real>, m: nat): (s: seq<real>)
    reads B
    requires m <= B.Length0
    ensures |s| == Offset(m, B.Length1)
  {
    if m == 0 then [] else Rows2(B, m - 1) + Row2(B, m - 1)
  }

  /** The row-major reading of a 2-D array. */
  function Flatten2(B: array2<real>): seq<real>
    reads B
  {
    Rows2(B, B.Length0)
  }

  /** The first n lines B[i, j, ..] of plane i of a 3-D array. */
  function Lines3(B: array3<real>, i: nat, n: nat): (s: seq<real>)
    reads B
    requires i < B.Length0 && n <= B.Length1
    ensures |s| == Offset(n, B.Length2)
  {
    if n == 0 then [] else Lines3(B, i, n - 1) + Line3(B, i, n - 1)
  }

  /** The line B[i, j, ..] of a 3-D array. */
  function Line3(B: array3<real>, i: nat, j: nat): (s: seq<real>)
    reads B
    requires i < B.Length0 && j < B.Length1
    ensures |s| == B.Length2
  {
    seq(B.Length2, q reads B requires 0 <= q < B.Length2 => B[i, j, q])
  }

  /** The first m planes of a 3-D array, each read line after line. */
  function Planes3(B: array3<real>, m: nat): (s: seq<real>)
    reads B
    requires m <= B.Length0
    ensures |s| == Offset(m, Offset(B.Length1, B.Length2))
  {
    if m == 0 then [] else Planes3(B, m - 1) + Lines3(B, m - 1, B.Length1)
  }

  /** The row-major reading of a 3-D array: the last index varies fastest. */
  function Flatten3(B: array3<real>): seq<real>
    reads B
  {
    Planes3(B, B.Length0)
  }

  /** B holds A in row-major order: B[i, j] is A[i*n + j]. */
  ghost predicate FilledRowMajor2(B: array2<real>, A: seq<real>)
    reads B
  {
    && |A| == Offset(B.Length0, B.Length1)
    && (RowStartsBelow(B.Length0, B.Length1);
        forall i, j :: 0 <= i < B.Length0 && 0 <= j < B.Length1 ==> B[i, j] == A[Offset(i, B.Length1) + j])
  }

  /** B holds A in row-major order: B[i, j, q] is A[(i*n + j)*k + q]. */
  ghost predicate FilledRowMajor3(B: array3<real>, A: seq<real>)
    reads B
  {
    && |A| == Offset(Offset(B.Length0, B.Length1), B.Length2)
    && (RowStartsBelow(B.Length0, B.Length1);
        RowStartsBelow(Offset(B.Length0, B.Length1), B.Length2);
        forall i, j, q :: 0 <= i < B.Length0 && 0 <= j < B.Length1 && 0 <= q < B.Length2 ==>
          B[i, j, q] == A[Offset(Offset(i, B.Length1) + j, B.Length2) + q])
  }

  lemma {:induction false} Rows2Prefix(B: array2<real>, A: seq<real>, m: nat)
    requires m <= B.Length0 && FilledRowMajor2(B, A)
    ensures Offset(m, B.Length1) <= |A| && Rows2(B, m) == A[..Offset(m, B.Length1)]
  {
    RowStartsBelow(B.Length0, B.Length1);
    if m > 0 {
      Rows2Prefix(B, A, m - 1);
      OffsetMonotone(m, B.Length0, B.Length1);
      assert Row2(B, m - 1) == A[Offset(m - 1, B.Length1)..Offset(m, B.Length1)];
    }
  }

  /** Reading an array filled row-major back in row-major order gives the flat sequence. */
  lemma Flatten2RoundTrip(B: array2<real>, A: seq<real>)
    requires FilledRowMajor2(B, A)
    ensures Flatten2(B) == A
  {
    Rows2Prefix(B, A, B.Length0);
  }

  /** Line j of plane i is stored in the flat sequence where row-major order puts it. */
  ghost predicate LineStored(B: array3<real>, A: seq<real>, i: nat, j: nat)
    reads B
    requires i < B.Length0 && j < B.Length1
  {
    var lo := Offset(Offset(i, B.Length1) + j, B.Length2);
    lo + B.Length2 <= |A| && Line3(B, i, j) == A[lo..lo + B.Length2]
  }

  lemma Line3Slice(B: array3<real>, A: seq<real>, i: nat, j: nat)
    requires i < B.Length0 && j < B.Length1 && FilledRowMajor3(B, A)
    ensures LineStored(B, A, i, j)
  {
    var n, k := B.Length1, B.Length2;
    var row := Offset(i, n) + j;
    RowStartsBelow(B.Length0, n);
    assert row < Offset(B.Length0, n);
    RowStartsBelow(Offset(B.Length0, n), k);
    var lo := Offset(row, k);
    forall q | 0 <= q < k
      ensures Line3(B, i, j)[q] == A[lo..lo + k][q]
    {
      assert B[i, j, q] == A[lo + q];
    }
  }

  /** The first n lines of plane i, each stored where row-major order puts it, are one slice
      of the flat sequence. */
  lemma {:induction false} Lines3Slice(B: array3<real>, A: seq<real>, i: nat, n: nat)
    requires i < B.Length0 && n <= B.Length1 && Offset(Offset(i, B.Length1), B.Length2) <= |A|
    requires forall j :: 0 <= j < n ==> LineStored(B, A, i, j)
    ensures Offset(Offset(i, B.Length1), B.Length2) <= Offset(Offset(i, B.Length1) + n, B.Length2) <= |A|
    ensures Lines3(B, i, n) == A[Offset(Offset(i, B.Length1), B.Length2)..Offset(Offset(i, B.Length1) + n, B.Length2)]
  {
    if n > 0 {
      var base := Offset(i, B.Length1);
      Lines3Slice(B, A, i, n - 1);
      assert LineStored(B, A, i, n - 1);
      var x := Offset(base, B.Length2);
      var y := Offset(base + (n - 1), B.Length2);
      var z := Offset(base + n, B.Length2);
      assert z == y + B.Length2;
      AdjacentSlices(A, Lines3(B, i, n - 1), Line3(B, i, n - 1), x, y, z);
    }
  }

  /** Two adjacent slices make up the slice that spans both. */
  lemma AdjacentSlices(A: seq<real>, front: seq<real>, next: seq<real>, x: nat, y: nat, z: nat)
    requires x <= y <= z <= |A| && front == A[x..y] && next == A[y..z]
    ensures front + next == A[x..z]
  {
    assert A[x..y] + A[y..z] == A[x..z];
  }

  lemma {:induction false} Planes3Prefix(B: array3<real>, A: seq<real>, m: nat)
    requires m <= B.Length0 && |A| == Offset(Offset(B.Length0, B.Length1), B.Length2)
    requires forall i, j :: 0 <= i < B.Length0 && 0 <= j < B.Length1 ==> LineStored(B, A, i, j)
    ensures Offset(Offset(m, B.Length1), B.Length2) <= |A|
    ensures Planes3(B, m) == A[..Offset(Offset(m, B.Length1), B.Length2)]
  {
    if m == 0 {
      OffsetMonotone(0, Offset(B.Length0, B.Length1), B.Length2);
    } else {
      var i := m - 1;
      Planes3Prefix(B, A, i);
      Lines3Slice(B, A, i, B.Length1);
      assert Offset(m, B.Length1) == Offset(i, B.Length1) + B.Length1;
      assert A[..Offset(Offset(i, B.Length1), B.Length2)] == A[0..Offset(Offset(i, B.Length1), B.Length2)];
      AdjacentSlices(A, Planes3(B, i), Lines3(B, i, B.Length1),
                     0, Offset(Offset(i, B.Length1), B.Length2), Offset(Offset(m, B.Length1), B.Length2));
    }
  }

  /** Reading an array filled row-major back in row-major order gives the flat sequence. */
  lemma Flatten3RoundTrip(B: array3<real>, A: seq<real>)
    requires FilledRowMajor3(B, A)
    ensures Flatten3(B) == A
  {
    forall i, j | 0 <= i < B.Length0 && 0 <= j < B.Length1
      ensures LineStored(B, A, i, j)
    {
      Line3Slice(B, A, i, j);
    }
    Planes3Prefix(B, A, B.Length0);
  }

  /** Reshapes a flat array into an m×n array, row by row; the element count must be m*n.
      Offset(i, n) is i*n (OffsetIsProduct). */
  method From1Dto2D(A: seq<real>, m: nat, n: nat) returns (res: Result<array2<real>>)
    ensures res.Err? <==> |A| != m * n
    ensures res.Ok? ==> res.value.Length0 == m && res.value.Length1 == n
    ensures res.Ok? ==> FilledRowMajor2(res.value, A)
    ensures res.Ok? ==> Flatten2(res.value) == A
  {
    if |A| != m * n {
      return Err(InappropriateDimensions);
    }
    OffsetIsProduct(m, n);
    RowStartsBelow(m, n);
    var B := new real[m, n];
    var index := 0;
    var i := 0;
    while i < m
      invariant 0 <= i <= m
      invariant index == Offset(i, n)
      invariant forall i', j' :: 0 <= i' < i && 0 <= j' < n ==> B[i', j'] == A[Offset(i', n) + j']
    {
      var j := 0;
      while j < n
        invariant 0 <= j <= n
        invariant index == Offset(i, n) + j
        invariant forall i', j' :: 0 <= i' < i && 0 <= j' < n ==> B[i', j'] == A[Offset(i', n) + j']
        invariant forall j' :: 0 <= j' < j ==> B[i, j'] == A[Offset(i, n) + j']
      {
        B[i, j] := A[index];
        index := index + 1;
        j := j + 1;
      }
      i := i + 1;
    }
    // the running index has consumed exactly the whole input
    assert index == |A|;
    assert FilledRowMajor2(B, A);
    Flatten2RoundTrip(B, A);
    return Ok(B);
  }

  /** Reshapes a flat array into an m×n×k array in row-major order; the element count must
      be m*n*k.  Offset(Offset(i, n) + j, k) + q is (i*n + j)*k + q (OffsetIsProduct). */
  method From1Dto3D(A: seq<real>, m: nat, n: nat, k: nat) returns (res: Result<array3<real>>)
    ensures res.Err? <==> |A| != m * n * k
    ensures res.Ok? ==> res.value.Length0 == m && res.value.Length1 == n && res.value.Length2 == k
    ensures res.Ok? ==> FilledRowMajor3(res.value, A)
    ensures res.Ok? ==> Flatten3(res.value) == A
  {
    if |A| != m * n * k {
      return Err(InappropriateDimensions);
    }
    OffsetIsProduct(m, n);
    OffsetIsProduct(m * n, k);
    RowStartsBelow(m, n);
    RowStartsBelow(Offset(m, n), k);
    var B := new real[m, n, k];
    FillRowMajor3(B, A);
    Flatten3RoundTrip(B, A);
    return Ok(B);
  }

  /** Every line before line j of plane i (in row-major order) holds its slice of A. */
  ghost predicate FilledUpTo(B: array3<real>, A: seq<real>, i: nat, j: nat)
    reads B
    requires |A| == Offset(Offset(B.Length0, B.Length1), B.Length2)
  {
    RowStartsBelow(B.Length0, B.Length1);
    RowStartsBelow(Offset(B.Length0, B.Length1), B.Length2);
    forall i', j', q' :: 0 <= i' < B.Length0 && 0 <= j' < B.Length1 && 0 <= q' < B.Length2
                         && (i' < i || (i' == i && j' < j)) ==>
      B[i', j', q'] == A[Offset(Offset(i', B.Length1) + j', B.Length2) + q']
  }

  /** The nested loops of From1Dto3D: copies A into B, the last index varying fastest,
      driven by one running index that ends at exactly |A|. */
  method FillRowMajor3(B: array3<real>, A: seq<real>)
    requires |A| == Offset(Offset(B.Length0, B.Length1), B.Length2)
    modifies B
    ensures FilledRowMajor3(B, A)
  {
    var m, n, k := B.Length0, B.Length1, B.Length2;
    var index := 0;
    var i := 0;
    while i < m
      invariant 0 <= i <= m
      invariant index == Offset(Offset(i, n), k)
      invariant FilledUpTo(B, A, i, 0)
    {
      index := FillPlane(B, A, i, index);
      i := i + 1;
    }
    RowStartsBelow(m, n);
    assert index == |A|;
  }

  /** One pass of the outer loop of From1Dto3D: fills B[i, .., ..] from the running index on. */
  method FillPlane(B: array3<real>, A: seq<real>, i: nat, index: nat) returns (next: nat)
    requires i < B.Length0 && index == Offset(Offset(i, B.Length1), B.Length2)
    requires |A| == Offset(Offset(B.Length0, B.Length1), B.Length2) && FilledUpTo(B, A, i, 0)
    modifies B
    ensures next == Offset(Offset(i + 1, B.Length1), B.Length2) && FilledUpTo(B, A, i + 1, 0)
  {
    var j := 0;
    next := index;
    while j < B.Length1
      invariant 0 <= j <= B.Length1
      invariant next == Offset(Offset(i, B.Length1) + j, B.Length2)
      invariant FilledUpTo(B, A, i, j)
    {
      next := FillLine(B, A, i, j, next);
      j := j + 1;
    }
  }

  /** The innermost loop of From1Dto3D: fills the line B[i, j, ..] from A[index..]. */
  method FillLine(B: array3<real>, A: seq<real>, i: nat, j: nat, index: nat) returns (next: nat)
    requires i < B.Length0 && j < B.Length1 && index == Offset(Offset(i, B.Length1) + j, B.Length2)
    requires |A| == Offset(Offset(B.Length0, B.Length1), B.Length2) && FilledUpTo(B, A, i, j)
    modifies B
    ensures next == index + B.Length2 && FilledUpTo(B, A, i, j + 1)
  {
    RowStartsBelow(B.Length0, B.Length1);
    assert Offset(i, B.Length1) + j < Offset(B.Length0, B.Length1);
    RowStartsBelow(Offset(B.Length0, B.Length1), B.Length2);
    next := index;
    for q := 0 to B.Length2
      invariant next == index + q
      invariant FilledUpTo(B, A, i, j)
      invariant forall q' :: 0 <= q' < q ==> B[i, j, q'] == A[index + q']
    {
      B[i, j, q] := A[next];
      next := next + 1;
    }
  }

  /** The terminal reward of each non-absorbing state is the mean of its two immediate rewards. */
  method DeriveTerminalReward(r: seq<seq<real>>) returns (R: seq<real>)
    requires forall i :: 0 <= i < |r| ==> |r[i]| == 2
    ensures |R| == |r|
    ensures forall i :: 0 <= i < |r| ==> R[i] == (r[i][0] + r[i][1]) / 2.0
  {
    R := [];
    var i := 0;
    while i < |r|
      invariant 0 <= i <= |r|
      invariant |R| == i
      invariant forall i' :: 0 <= i' < i ==> R[i'] == (r[i'][0] + r[i'][1]) / 2.0
    {
      R := R + [(r[i][0] + r[i][1]) / 2.0];
      i := i + 1;
    }
  }
}
