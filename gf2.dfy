/** Arithmetic over GF(2) on 0/1 integers: parities, dot products, the
    (target, source) XOR operations that the row reduction logs, and their
    replay on vectors and on whole matrices. */
module Gf2 {

  datatype Option<T> = None | Some(value: T)

  /** One logged row operation: XOR row `.1` into row `.0`. */
  type Op = (nat, nat)

  predicate IsBit(x: int) { x == 0 || x == 1 }

  predicate IsBitVector(v: seq<int>) { forall k :: 0 <= k < |v| ==> IsBit(v[k]) }

  /** Every row has length `w`. */
  predicate Rect(m: seq<seq<int>>, w: nat) { forall i :: 0 <= i < |m| ==> |m[i]| == w }

  predicate IsBitMatrix(m: seq<seq<int>>) { forall i :: 0 <= i < |m| ==> IsBitVector(m[i]) }

  /** The XOR of two bits, as `^` computes it on u8 values 0 and 1. */
  function Xor(a: int, b: int): (c: int)
    requires IsBit(a) && IsBit(b)
    ensures IsBit(c) && c == (a + b) % 2
  {
    if a == b then 0 else 1
  }

  /** The product of two bits is a bit (their AND). */
  lemma BitProduct(a: int, b: int)
    requires IsBit(a) && IsBit(b)
    ensures IsBit(a * b)
  {
  }

  /** Sum of the entries, mod 2. */
  function Parity(s: seq<int>): (p: int)
    ensures IsBit(p)
  {
    if |s| == 0 then 0 else (s[0] + Parity(s[1..])) % 2
  }

  function Products(a: seq<int>, b: seq<int>): (c: seq<int>)
    requires |a| == |b|
    ensures |c| == |a|
  {
    seq(|a|, k requires 0 <= k < |a| => a[k] * b[k])
  }

  /** The GF(2) dot product of two vectors. */
  function Dot(a: seq<int>, b: seq<int>): int
    requires |a| == |b|
  {
    Parity(Products(a, b))
  }

  function AddRows(a: seq<int>, b: seq<int>): (c: seq<int>)
    requires |a| == |b|
    ensures |c| == |a| && IsBitVector(c)
  {
    seq(|a|, k requires 0 <= k < |a| => (a[k] + b[k]) % 2)
  }

  function Column(m: seq<seq<int>>, j: nat): (c: seq<int>)
    requires forall i :: 0 <= i < |m| ==> j < |m[i]|
    ensures |c| == |m|
  {
    seq(|m|, i requires 0 <= i < |m| => m[i][j])
  }

  predicate OpsInRange(ops: seq<Op>, n: nat)
  {
    forall t :: 0 <= t < |ops| ==> ops[t].0 < n && ops[t].1 < n
  }

  /** No operation XORs a row into itself (each one is then its own inverse). */
  predicate OpsDistinct(ops: seq<Op>)
  {
    forall t :: 0 <= t < |ops| ==> ops[t].0 != ops[t].1
  }

  /** One operation on a vector: `v[a] := (v[a] + v[b]) % 2`. */
  function Step(v: seq<int>, op: Op): seq<int>
    requires op.0 < |v| && op.1 < |v|
  {
    v[op.0 := (v[op.0] + v[op.1]) % 2]
  }

  /** The log replayed, in order, on a vector. */
  function Replay(ops: seq<Op>, v: seq<int>): (r: seq<int>)
    requires OpsInRange(ops, |v|)
    ensures |r| == |v|
    decreases |ops|
  {
    if |ops| == 0 then v
    else Step(Replay(ops[..|ops| - 1], v), ops[|ops| - 1])
  }

  /** One operation on a matrix: row `a` becomes row `a` plus row `b`. */
  function RowStep(m: seq<seq<int>>, op: Op): seq<seq<int>>
    requires op.0 < |m| && op.1 < |m| && |m[op.0]| == |m[op.1]|
  {
    m[op.0 := AddRows(m[op.0], m[op.1])]
  }

  /** The log replayed, in order, on the rows of a matrix. */
  function ReplayRows(ops: seq<Op>, m: seq<seq<int>>, ghost w: nat): (r: seq<seq<int>>)
    requires Rect(m, w) && OpsInRange(ops, |m|)
    ensures |r| == |m| && Rect(r, w)
    ensures IsBitMatrix(m) ==> IsBitMatrix(r)
    decreases |ops|
  {
    if |ops| == 0 then m
    else RowStep(ReplayRows(ops[..|ops| - 1], m, w), ops[|ops| - 1])
  }

  /** The matrix `m` with `col[k]` appended to row k and `row` appended below. */
  function Extend(m: seq<seq<int>>, col: seq<int>, row: seq<int>): (r: seq<seq<int>>)
    requires |col| == |m|
    ensures |r| == |m| + 1
  {
    seq(|m|, k requires 0 <= k < |m| => m[k] + [col[k]]) + [row]
  }

  /** The matrix `m` with `col[k]` appended to row k. */
  function Widen(m: seq<seq<int>>, col: seq<int>): (r: seq<seq<int>>)
    requires |col| == |m|
    ensures |r| == |m|
  {
    seq(|m|, k requires 0 <= k < |m| => m[k] + [col[k]])
  }

  // ---------------------------------------------------------------------
  // Parity lemmas

  lemma {:induction false} ParityAppend(s: seq<int>, x: int)
    ensures Parity(s + [x]) == (Parity(s) + x) % 2
    decreases |s|
  {
    if |s| == 0 {
      assert s + [x] == [x];
      assert [x][1..] == [];
    } else {
      assert (s + [x])[1..] == s[1..] + [x];
      ParityAppend(s[1..], x);
    }
  }

  /** Parity only depends on the entries mod 2. */
  lemma {:induction false} ParityCongruent(s: seq<int>, t: seq<int>)
    requires |s| == |t|
    requires forall k :: 0 <= k < |s| ==> s[k] % 2 == t[k] % 2
    ensures Parity(s) == Parity(t)
    decreases |s|
  {
    if |s| > 0 {
      ParityCongruent(s[1..], t[1..]);
    }
  }

  lemma {:induction false} ParityAdd(s: seq<int>, t: seq<int>, u: seq<int>)
    requires |s| == |t| == |u|
    requires forall k :: 0 <= k < |u| ==> u[k] == s[k] + t[k]
    ensures Parity(u) == (Parity(s) + Parity(t)) % 2
    decreases |s|
  {
    if |s| > 0 {
      ParityAdd(s[1..], t[1..], u[1..]);
    }
  }

  lemma {:induction false} ParityZero(s: seq<int>)
    requires forall k :: 0 <= k < |s| ==> s[k] == 0
    ensures Parity(s) == 0
    decreases |s|
  {
    if |s| > 0 {
      ParityZero(s[1..]);
    }
  }

  /** Changing one entry changes the parity by the difference. */
  lemma {:induction false} ParityUpdate(s: seq<int>, x: nat, v: int)
    requires x < |s|
    ensures Parity(s[x := v]) == (Parity(s) - s[x] + v) % 2
    decreases |s|
  {
    if x == 0 {
      assert s[x := v][1..] == s[1..];
    } else {
      assert s[x := v][1..] == s[1..][x - 1 := v];
      ParityUpdate(s[1..], x - 1, v);
    }
  }

  /** A sequence that is zero away from position `x` has parity `s[x] % 2`. */
  lemma ParityOne(s: seq<int>, x: nat)
    requires x < |s|
    requires forall k :: 0 <= k < |s| && k != x ==> s[k] == 0
    ensures Parity(s) == s[x] % 2
  {
    ParityZero(s[x := 0]);
    ParityUpdate(s[x := 0], x, s[x]);
    assert s[x := 0][x := s[x]] == s;
  }

  /** A sequence that is zero away from positions `x` and `y` has parity `(s[x] + s[y]) % 2`. */
  lemma ParityTwo(s: seq<int>, x: nat, y: nat)
    requires x < |s| && y < |s| && x != y
    requires forall k :: 0 <= k < |s| && k != x && k != y ==> s[k] == 0
    ensures Parity(s) == (s[x] + s[y]) % 2
  {
    ParityOne(s[x := 0], y);
    ParityUpdate(s[x := 0], x, s[x]);
    assert s[x := 0][x := s[x]] == s;
  }

  // ---------------------------------------------------------------------
  // Dot product lemmas

  /** The dot product is linear in its first argument over GF(2). */
  lemma DotAddRows(a: seq<int>, b: seq<int>, k: seq<int>)
    requires |a| == |b| == |k|
    requires IsBitVector(a) && IsBitVector(b)
    ensures Dot(AddRows(a, b), k) == (Dot(a, k) + Dot(b, k)) % 2
  {
    var sum := seq(|a|, c requires 0 <= c < |a| => a[c] * k[c] + b[c] * k[c]);
    forall c | 0 <= c < |a|
      ensures Products(AddRows(a, b), k)[c] % 2 == sum[c] % 2
    {
      if a[c] == 1 && b[c] == 1 {
        assert Products(AddRows(a, b), k)[c] == 0;
        assert sum[c] == 2 * k[c];
      }
    }
    ParityCongruent(Products(AddRows(a, b), k), sum);
    ParityAdd(Products(a, k), Products(b, k), sum);
  }

  lemma DotZeroRow(a: seq<int>, k: seq<int>)
    requires |a| == |k|
    requires forall c :: 0 <= c < |a| ==> a[c] == 0
    ensures Dot(a, k) == 0
  {
    ParityZero(Products(a, k));
  }

  // ---------------------------------------------------------------------
  // Replay lemmas

  /** Replaying a log extended by one operation is one more step. */
  lemma ReplaySnoc(ops: seq<Op>, op: Op, v: seq<int>)
    requires OpsInRange(ops, |v|) && op.0 < |v| && op.1 < |v|
    ensures OpsInRange(ops + [op], |v|)
    ensures Replay(ops + [op], v) == Step(Replay(ops, v), op)
  {
    assert (ops + [op])[..|ops|] == ops;
  }

  lemma SwapSteps(v: seq<int>, a: nat, b: nat)
    requires a < |v| && b < |v| && a != b
    requires IsBit(v[a]) && IsBit(v[b])
    ensures Step(Step(Step(v, (a, b)), (b, a)), (a, b)) == v[a := v[b]][b := v[a]]
  {
    var x, y := v[a], v[b];
    var s := (x + y) % 2;
    assert (y + s) % 2 == x && (s + x) % 2 == y;
    var v1 := v[a := s];
    var v2 := v1[b := x];
    assert Step(v, (a, b)) == v1;
    assert Step(v1, (b, a)) == v2;
    assert Step(v2, (a, b)) == v2[a := y];
  }

  /** Replaying the three operations `(a,b),(b,a),(a,b)` swaps two bits. */
  lemma SwapTripleVector(v: seq<int>, a: nat, b: nat)
    requires a < |v| && b < |v| && a != b
    requires IsBit(v[a]) && IsBit(v[b])
    ensures Replay([(a, b), (b, a), (a, b)], v) == v[a := v[b]][b := v[a]]
  {
    var ab: Op := (a, b);
    var ba: Op := (b, a);
    ReplaySnoc([], ab, v);
    ReplaySnoc([ab], ba, v);
    ReplaySnoc([ab, ba], ab, v);
    assert [ab] + [ba] == [ab, ba];
    assert [ab, ba] + [ab] == [ab, ba, ab];
    SwapSteps(v, a, b);
  }

  lemma AddRowsCancel(x: seq<int>, y: seq<int>)
    requires |x| == |y| && IsBitVector(x) && IsBitVector(y)
    ensures AddRows(y, AddRows(x, y)) == x
    ensures AddRows(AddRows(x, y), x) == y
  {
  }

  /** Replaying the three operations `(a,b),(b,a),(a,b)` swaps two rows of a 0/1 matrix. */
  lemma SwapTripleRows(m: seq<seq<int>>, w: nat, a: nat, b: nat)
    requires Rect(m, w) && IsBitMatrix(m)
    requires a < |m| && b < |m| && a != b
    ensures OpsInRange([(a, b), (b, a), (a, b)], |m|)
    ensures ReplayRows([(a, b), (b, a), (a, b)], m, w) == m[a := m[b]][b := m[a]]
  {
    var ops: seq<Op> := [(a, b), (b, a), (a, b)];
    assert ops[..2][..1] == [(a, b)];
    assert ops[..2] == [(a, b), (b, a)];
    assert ops[..1] == [(a, b)];
    var m1 := RowStep(m, (a, b));
    var m2 := RowStep(m1, (b, a));
    AddRowsCancel(m[a], m[b]);
    assert ReplayRows(ops[..1], m, w) == m1;
    assert ReplayRows(ops[..2], m, w) == m2;
    assert m2[b] == m[a];
  }

  /** A concatenated log keeps the range and the distinctness of its parts. */
  lemma OpsConcat(ops1: seq<Op>, ops2: seq<Op>, n: nat)
    ensures OpsInRange(ops1, n) && OpsInRange(ops2, n) ==> OpsInRange(ops1 + ops2, n)
    ensures OpsDistinct(ops1) && OpsDistinct(ops2) ==> OpsDistinct(ops1 + ops2)
  {
    forall t | 0 <= t < |ops1 + ops2|
      ensures (ops1 + ops2)[t] == if t < |ops1| then ops1[t] else ops2[t - |ops1|]
    {
    }
  }

  /** Replaying a concatenated log is replaying its two parts in turn. */
  lemma {:induction false} ReplayRowsConcat(ops1: seq<Op>, ops2: seq<Op>, m: seq<seq<int>>, w: nat)
    requires Rect(m, w) && OpsInRange(ops1, |m|) && OpsInRange(ops2, |m|)
    ensures OpsInRange(ops1 + ops2, |m|)
    ensures ReplayRows(ops1 + ops2, m, w) == ReplayRows(ops2, ReplayRows(ops1, m, w), w)
    decreases |ops2|
  {
    OpsConcat(ops1, ops2, |m|);
    if |ops2| == 0 {
      assert ops1 + ops2 == ops1;
    } else {
      var both := ops1 + ops2;
      var k := |ops2| - 1;
      var init := ops2[..k];
      var last := ops2[k];
      assert both[..|both| - 1] == ops1 + init;
      assert both[|both| - 1] == last;
      assert OpsInRange(init, |m|);
      ReplayRowsConcat(ops1, init, m, w);
      var inner := ReplayRows(ops1, m, w);
      assert ReplayRows(ops2, inner, w) == RowStep(ReplayRows(init, inner, w), last);
    }
  }

  /** Column j of the replayed matrix is the replay of column j. */
  lemma {:induction false} ColumnOfReplayRows(ops: seq<Op>, m: seq<seq<int>>, w: nat, j: nat)
    requires Rect(m, w) && OpsInRange(ops, |m|) && j < w
    ensures Column(ReplayRows(ops, m, w), j) == Replay(ops, Column(m, j))
    decreases |ops|
  {
    if |ops| > 0 {
      ColumnOfReplayRows(ops[..|ops| - 1], m, w, j);
    }
  }

  /** One step commutes with growing the matrix by a column and a row below. */
  lemma StepExtend(m: seq<seq<int>>, w: nat, col: seq<int>, row: seq<int>, op: Op)
    requires Rect(m, w) && |col| == |m| && |row| == w + 1
    requires op.0 < |m| && op.1 < |m|
    ensures Rect(Extend(m, col, row), w + 1)
    ensures RowStep(Extend(m, col, row), op) == Extend(RowStep(m, op), Step(col, op), row)
  {
    var lhs := RowStep(Extend(m, col, row), op);
    var rhs := Extend(RowStep(m, op), Step(col, op), row);
    assert AddRows(m[op.0] + [col[op.0]], m[op.1] + [col[op.1]])
        == AddRows(m[op.0], m[op.1]) + [(col[op.0] + col[op.1]) % 2];
    assert |lhs| == |rhs|;
    forall k | 0 <= k < |lhs| ensures lhs[k] == rhs[k] {
    }
  }

  /** Replaying a log on rows below `|m|` commutes with growing the matrix:
      the new column is replayed on its own and the new last row is untouched. */
  lemma {:induction false} ReplayExtend(ops: seq<Op>, m: seq<seq<int>>, w: nat, col: seq<int>, row: seq<int>)
    requires Rect(m, w) && |col| == |m| && |row| == w + 1
    requires OpsInRange(ops, |m|)
    ensures Rect(Extend(m, col, row), w + 1)
    ensures OpsInRange(ops, |m| + 1)
    ensures ReplayRows(ops, Extend(m, col, row), w + 1)
         == Extend(ReplayRows(ops, m, w), Replay(ops, col), row)
    decreases |ops|
  {
    if |ops| == 0 {
    } else {
      var init := ops[..|ops| - 1];
      ReplayExtend(init, m, w, col, row);
      StepExtend(ReplayRows(init, m, w), w, Replay(init, col), row, ops[|ops| - 1]);
    }
  }

  /** Replaying a log keeps a 0/1 vector 0/1. */
  lemma {:induction false} ReplayBits(ops: seq<Op>, v: seq<int>)
    requires IsBitVector(v) && OpsInRange(ops, |v|)
    ensures IsBitVector(Replay(ops, v))
    decreases |ops|
  {
    if |ops| > 0 {
      ReplayBits(ops[..|ops| - 1], v);
    }
  }

  /** One step commutes with appending a column. */
  lemma StepWiden(m: seq<seq<int>>, w: nat, col: seq<int>, op: Op)
    requires Rect(m, w) && |col| == |m| && op.0 < |m| && op.1 < |m|
    ensures Rect(Widen(m, col), w + 1)
    ensures RowStep(Widen(m, col), op) == Widen(RowStep(m, op), Step(col, op))
  {
    var lhs := RowStep(Widen(m, col), op);
    var rhs := Widen(RowStep(m, op), Step(col, op));
    assert AddRows(m[op.0] + [col[op.0]], m[op.1] + [col[op.1]])
        == AddRows(m[op.0], m[op.1]) + [(col[op.0] + col[op.1]) % 2];
    assert |lhs| == |rhs|;
    forall k | 0 <= k < |lhs| ensures lhs[k] == rhs[k] {
    }
  }

  /** Replaying a log commutes with appending a column: the column is replayed on its own. */
  lemma {:induction false} ReplayWiden(ops: seq<Op>, m: seq<seq<int>>, w: nat, col: seq<int>)
    requires Rect(m, w) && |col| == |m| && OpsInRange(ops, |m|)
    ensures Rect(Widen(m, col), w + 1)
    ensures ReplayRows(ops, Widen(m, col), w + 1) == Widen(ReplayRows(ops, m, w), Replay(ops, col))
    decreases |ops|
  {
    if |ops| > 0 {
      var init := ops[..|ops| - 1];
      ReplayWiden(init, m, w, col);
      StepWiden(ReplayRows(init, m, w), w, Replay(init, col), ops[|ops| - 1]);
    }
  }

  /** Row operations are invertible: a vector orthogonal to every row after
      the operations was orthogonal to every row before them. */
  lemma {:induction false} OrthogonalBeforeReplay(ops: seq<Op>, m: seq<seq<int>>, w: nat, k: seq<int>)
    requires Rect(m, w) && IsBitMatrix(m) && |k| == w
    requires OpsInRange(ops, |m|) && OpsDistinct(ops)
    requires forall i :: 0 <= i < |m| ==> Dot(ReplayRows(ops, m, w)[i], k) == 0
    ensures forall i :: 0 <= i < |m| ==> Dot(m[i], k) == 0
    decreases |ops|
  {
    if |ops| > 0 {
      var init := ops[..|ops| - 1];
      var (a, b) := ops[|ops| - 1];
      var prev := ReplayRows(init, m, w);
      assert ReplayRows(ops, m, w) == RowStep(prev, (a, b));
      var next := RowStep(prev, (a, b));
      assert next[b] == prev[b];
      assert Dot(prev[b], k) == 0 by { assert Dot(next[b], k) == 0; }
      forall i | 0 <= i < |m| ensures Dot(prev[i], k) == 0 {
        if i == a {
          DotAddRows(prev[a], prev[b], k);
          assert Dot(next[a], k) == 0;
        } else {
          assert next[i] == prev[i];
          assert Dot(next[i], k) == 0;
        }
      }
      OrthogonalBeforeReplay(init, m, w, k);
    } else {
      assert ReplayRows(ops, m, w) == m;
    }
  }
  /** Row operations keep a vector orthogonal to every row. */
  lemma {:induction false} OrthogonalAfterReplay(ops: seq<Op>, m: seq<seq<int>>, w: nat, k: seq<int>)
    requires Rect(m, w) && IsBitMatrix(m) && |k| == w && OpsInRange(ops, |m|)
    requires forall i :: 0 <= i < |m| ==> Dot(m[i], k) == 0
    ensures forall i :: 0 <= i < |m| ==> Dot(ReplayRows(ops, m, w)[i], k) == 0
    decreases |ops|
  {
    if |ops| > 0 {
      var init := ops[..|ops| - 1];
      var (a, b) := ops[|ops| - 1];
      OrthogonalAfterReplay(init, m, w, k);
      var prev := ReplayRows(init, m, w);
      var next := RowStep(prev, (a, b));
      assert ReplayRows(ops, m, w) == next;
      forall i | 0 <= i < |m| ensures Dot(next[i], k) == 0 {
        if i == a {
          DotAddRows(prev[a], prev[b], k);
        } else {
          assert next[i] == prev[i];
        }
      }
    }
  }
}
