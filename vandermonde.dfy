/** The bit-matrix engine of src/vandermonde.rs: monomial evaluation on
    digit strings, the dense 0/1 matrix `VanderMonde` with Gauss-Jordan
    reduction over GF(2) and its operation log, rank, kernel, incremental
    growth, and verification of a candidate annihilator on a point set. */
module Vandermonde {
  import opened Gf2

  predicate IsDigit(c: char) { '0' <= c <= '9' }

  predicate IsBinaryString(s: string) { forall k :: 0 <= k < |s| ==> s[k] == '0' || s[k] == '1' }

  /** Both strings are decimal digits on the positions that `zip` pairs up. */
  predicate ZippedDigits(s1: string, s2: string)
  {
    forall k :: 0 <= k < |s1| && k < |s2| ==> IsDigit(s1[k]) && IsDigit(s2[k])
  }

  function DigitValue(c: char): nat
    requires IsDigit(c)
  {
    c as int - '0' as int
  }

  function Pow(base: nat, exp: nat): nat
  {
    if exp == 0 then 1 else base * Pow(base, exp - 1)
  }

  /** `str_ops`: the product of `p_k ^ m_k` over the zipped positions.  On
      0/1 strings this is the value of monomial `s2` at point `s1`: 1 unless
      some position has `s2` set and `s1` clear. */
  function StrOps(s1: string, s2: string): (r: nat)
    requires ZippedDigits(s1, s2)
    ensures IsBinaryString(s1) && IsBinaryString(s2) ==>
      r == if forall k :: 0 <= k < |s1| && k < |s2| ==> !(s2[k] == '1' && s1[k] == '0') then 1 else 0
    decreases |s1|
  {
    if |s1| == 0 || |s2| == 0 then 1
    else Pow(DigitValue(s1[0]), DigitValue(s2[0])) * StrOps(s1[1..], s2[1..])
  }

  /** `is_submonomial`: no character of `subMonom` exceeds the one of `monom`
      at the same position. */
  function IsSubmonomial(subMonom: string, monom: string): (r: bool)
    requires |subMonom| == |monom|
    ensures r <==> forall k :: 0 <= k < |subMonom| ==> subMonom[k] <= monom[k]
    decreases |subMonom|
  {
    if |subMonom| == 0 then true
    else if subMonom[0] > monom[0] then false
    else IsSubmonomial(subMonom[1..], monom[1..])
  }

  /** On equal-length 0/1 strings, evaluating a monomial at a point is the
      submonomial test of the monomial against the point. */
  lemma StrOpsIsSubmonomial(point: string, monom: string)
    requires IsBinaryString(point) && IsBinaryString(monom) && |point| == |monom|
    ensures StrOps(point, monom) == if IsSubmonomial(monom, point) then 1 else 0
  {
    if IsSubmonomial(monom, point) {
      forall k | 0 <= k < |point| ensures !(monom[k] == '1' && point[k] == '0') {
        assert monom[k] <= point[k];
      }
    } else {
      var k :| 0 <= k < |point| && !(monom[k] <= point[k]);
      assert monom[k] == '1' && point[k] == '0';
    }
  }

  /** All strings are 0/1 strings of length `n`. */
  predicate Words(s: seq<string>, n: nat)
  {
    forall k :: 0 <= k < |s| ==> |s[k]| == n && IsBinaryString(s[k])
  }

  /** A prefix of a list of words is a list of words. */
  lemma WordsPrefix(s: seq<string>, n: nat, j: nat)
    requires Words(s, n) && j <= |s|
    ensures Words(s[..j], n)
  {
    forall k | 0 <= k < j ensures |s[..j][k]| == n && IsBinaryString(s[..j][k]) {
      assert s[..j][k] == s[k];
    }
  }

  /** A suffix of a list of words is a list of words. */
  lemma WordsSuffix(s: seq<string>, n: nat, j: nat)
    requires Words(s, n) && j <= |s|
    ensures Words(s[j..], n)
  {
    forall k | 0 <= k < |s| - j ensures |s[j..][k]| == n && IsBinaryString(s[j..][k]) {
      assert s[j..][k] == s[j + k];
    }
  }

  /** A 0/1 point and 0/1 monomials of its length are digits wherever `zip` pairs them. */
  lemma WordsZipped(point: string, mons: seq<string>)
    requires IsBinaryString(point) && Words(mons, |point|)
    ensures forall k :: 0 <= k < |mons| ==> ZippedDigits(point, mons[k])
  {
  }

  /** The values of the monomials `mons` at `point`. */
  function EvalRow(point: string, mons: seq<string>): (r: seq<int>)
    requires forall k :: 0 <= k < |mons| ==> ZippedDigits(point, mons[k])
    ensures |r| == |mons|
  {
    seq(|mons|, k requires 0 <= k < |mons| => StrOps(point, mons[k]))
  }

  /** The values of monomial `mon` at each of `points`. */
  function EvalColumn(points: seq<string>, mon: string): (r: seq<int>)
    requires forall k :: 0 <= k < |points| ==> ZippedDigits(points[k], mon)
    ensures |r| == |points|
  {
    seq(|points|, k requires 0 <= k < |points| => StrOps(points[k], mon))
  }

  /** The evaluation matrix: row r, column c is monomial `mons[c]` at `points[r]`. */
  function Evaluation(points: seq<string>, mons: seq<string>, ghost n: nat): (m: seq<seq<int>>)
    requires Words(points, n) && Words(mons, n)
    ensures |m| == |points| && Rect(m, |mons|) && IsBitMatrix(m)
  {
    seq(|points|, r requires 0 <= r < |points| => EvalRow(points[r], mons))
  }

  /** The polynomial with coefficients `g` over the monomials `mons`, evaluated at `point`. */
  function PolyEval(g: seq<int>, mons: seq<string>, point: string): int
    requires |g| == |mons|
    requires forall k :: 0 <= k < |mons| ==> ZippedDigits(point, mons[k])
  {
    Dot(EvalRow(point, mons), g)
  }

  /** The coefficients `g[i]`, `i < k`, whose monomial `mapping[i]` divides `item`, in order. */
  function Anf(g: seq<int>, mapping: seq<string>, item: string, k: nat): (r: seq<int>)
    requires k <= |g| <= |mapping|
    requires forall i :: 0 <= i < |g| ==> |mapping[i]| == |item|
  {
    if k == 0 then []
    else if IsSubmonomial(mapping[k - 1], item) then Anf(g, mapping, item, k - 1) + [g[k - 1]]
    else Anf(g, mapping, item, k - 1)
  }

  /** Points in `z` all have the length of the monomials in `mapping`. */
  predicate SameWidth(z: seq<string>, g: seq<int>, mapping: seq<string>)
  {
    |g| <= |mapping| && forall t, i :: 0 <= t < |z| && 0 <= i < |g| ==> |mapping[i]| == |z[t]|
  }

  /** `verify` from position `idx` on: the first point whose selected coefficients have odd sum. */
  function VerifyFrom(z: seq<string>, g: seq<int>, mapping: seq<string>, idx: nat): (r: (bool, Option<(nat, string)>))
    requires SameWidth(z, g, mapping)
    ensures r.0 <==> forall t :: idx <= t < |z| ==> Parity(Anf(g, mapping, z[t], |g|)) == 0
    ensures r.0 ==> r.1 == None
    ensures !r.0 ==> r.1.Some? && idx <= r.1.value.0 < |z| && r.1.value.1 == z[r.1.value.0]
                     && Parity(Anf(g, mapping, z[r.1.value.0], |g|)) == 1
                     && forall t :: idx <= t < r.1.value.0 ==> Parity(Anf(g, mapping, z[t], |g|)) == 0
    decreases |z| - idx
  {
    if idx >= |z| then (true, None)
    else if Parity(Anf(g, mapping, z[idx], |g|)) == 1 then (false, Some((idx, z[idx])))
    else VerifyFrom(z, g, mapping, idx + 1)
  }

  /** `verify`: `(true, None)` iff every point of `z` has an even sum of the
      coefficients of its submonomials; otherwise the first failing point. */
  function Verify(z: seq<string>, g: seq<int>, mapping: seq<string>): (r: (bool, Option<(nat, string)>))
    requires SameWidth(z, g, mapping)
    ensures r.0 <==> forall t :: 0 <= t < |z| ==> Parity(Anf(g, mapping, z[t], |g|)) == 0
    ensures r.0 ==> r.1 == None
    ensures !r.0 ==> r.1.Some? && r.1.value.0 < |z| && r.1.value.1 == z[r.1.value.0]
                     && Parity(Anf(g, mapping, z[r.1.value.0], |g|)) == 1
                     && forall t :: 0 <= t < r.1.value.0 ==> Parity(Anf(g, mapping, z[t], |g|)) == 0
  {
    VerifyFrom(z, g, mapping, 0)
  }

  /** The sum of the selected coefficients is the value of the polynomial:
      `verify` tests exactly that the candidate vanishes at each point. */
  lemma AnfIsPolyEval(g: seq<int>, mapping: seq<string>, item: string)
    requires |g| == |mapping|
    requires IsBinaryString(item) && Words(mapping, |item|)
    ensures Parity(Anf(g, mapping, item, |g|)) == PolyEval(g, mapping, item)
  {
    WordsZipped(item, mapping);
    var terms := Products(EvalRow(item, mapping), g);
    forall i | 0 <= i < |g|
      ensures terms[i] == if IsSubmonomial(mapping[i], item) then g[i] else 0
    {
      TermIsSelected(g, mapping, item, i);
    }
    AnfParity(g, mapping, item, |g|, terms);
    assert terms[..|g|] == terms;
  }

  /** `Anf` up to `k` has the parity of the first `k` selected terms. */
  lemma {:induction false} AnfParity(g: seq<int>, mapping: seq<string>, item: string, k: nat, terms: seq<int>)
    requires k <= |g| <= |mapping| && |terms| == |g|
    requires forall i :: 0 <= i < |g| ==> |mapping[i]| == |item|
    requires forall i :: 0 <= i < |g| ==> terms[i] == if IsSubmonomial(mapping[i], item) then g[i] else 0
    ensures Parity(Anf(g, mapping, item, k)) == Parity(terms[..k])
    decreases k
  {
    if k == 0 {
      assert terms[..0] == [];
    } else {
      AnfParity(g, mapping, item, k - 1, terms);
      var prefix := Anf(g, mapping, item, k - 1);
      assert terms[..k] == terms[..k - 1] + [terms[k - 1]];
      ParityAppend(terms[..k - 1], terms[k - 1]);
      if IsSubmonomial(mapping[k - 1], item) {
        assert Anf(g, mapping, item, k) == prefix + [g[k - 1]];
        ParityAppend(prefix, g[k - 1]);
      } else {
        assert Anf(g, mapping, item, k) == prefix && terms[k - 1] == 0;
        assert IsBit(Parity(prefix));
      }
    }
  }

  /** Term `i` of the dot product is `g[i]` when `mapping[i]` divides `item`, and 0 otherwise. */
  lemma TermIsSelected(g: seq<int>, mapping: seq<string>, item: string, i: nat)
    requires |g| == |mapping| && i < |g|
    requires IsBinaryString(item) && Words(mapping, |item|)
    ensures Products(EvalRow(item, mapping), g)[i] == if IsSubmonomial(mapping[i], item) then g[i] else 0
  {
    var mon := mapping[i];
    WordsZipped(item, mapping);
    StrOpsIsSubmonomial(item, mon);
    var row := EvalRow(item, mapping);
    assert row[i] == StrOps(item, mon);
    assert Products(row, g)[i] == row[i] * g[i];
  }

  /** `verify` succeeds iff the polynomial `g` over `mapping` vanishes on every point of `z`. */
  lemma VerifyMeansVanishing(z: seq<string>, g: seq<int>, mapping: seq<string>, n: nat)
    requires |g| == |mapping| && Words(z, n) && Words(mapping, n)
    ensures SameWidth(z, g, mapping)
    ensures Verify(z, g, mapping).0 <==> forall t :: 0 <= t < |z| ==> PolyEval(g, mapping, z[t]) == 0
  {
    forall t | 0 <= t < |z|
      ensures Parity(Anf(g, mapping, z[t], |g|)) == PolyEval(g, mapping, z[t])
    {
      AnfIsPolyEval(g, mapping, z[t]);
    }
  }

  /** `apply_operations`: the log replayed on a column, one XOR at a time. */
  method ApplyOperations(operations: seq<Op>, v: seq<int>) returns (result: seq<int>)
    requires OpsInRange(operations, |v|)
    ensures result == Replay(operations, v)
  {
    result := v;
    for t := 0 to |operations|
      invariant OpsInRange(operations[..t], |v|)
      invariant result == Replay(operations[..t], v)
    {
      var (op1, op2) := operations[t];
      assert operations[..t + 1][..t] == operations[..t];
      result := result[op1 := (result[op1] + result[op2]) % 2];
    }
    assert operations[..|operations|] == operations;
  }

  /** Reduced row-echelon form: leading 1s move strictly right from row to
      row, rows without a 1 come last, and a column holding some row's
      leading 1 is 0 in every other row. */
  ghost predicate Echelon(m: seq<seq<int>>, w: nat)
  {
    && Rect(m, w)
    && (forall i, j :: 0 <= i < j < |m| && VanderMonde.GetPivot(m[j]).Some? ==>
          VanderMonde.GetPivot(m[i]).Some? && VanderMonde.GetPivot(m[i]).value < VanderMonde.GetPivot(m[j]).value)
    && (forall i, k :: 0 <= i < |m| && 0 <= k < |m| && k != i && VanderMonde.GetPivot(m[i]).Some? ==>
          m[k][VanderMonde.GetPivot(m[i]).value] == 0)
  }

  /** The row has no 1 before column `lead`. */
  ghost predicate PivotFrom(row: seq<int>, lead: nat)
  {
    VanderMonde.GetPivot(row).None? || lead <= VanderMonde.GetPivot(row).value
  }

  /** The state of the reduction after `|piv|` pivot rows, scanning at column `lead`. */
  ghost predicate PivotsSoFar(m: seq<seq<int>>, w: nat, piv: seq<nat>, lead: nat)
  {
    && Rect(m, w) && |piv| <= |m|
    && (forall k :: 0 <= k < |piv| ==> piv[k] < lead && piv[k] < w)
    && (forall k1, k2 :: 0 <= k1 < k2 < |piv| ==> piv[k1] < piv[k2])
    && (forall k :: 0 <= k < |piv| ==> m[k][piv[k]] == 1)
    && (forall k, c :: 0 <= k < |piv| && 0 <= c < piv[k] ==> m[k][c] == 0)
    && (forall k, i :: 0 <= k < |piv| && 0 <= i < |m| && i != k ==> m[i][piv[k]] == 0)
    && (forall i, c :: |piv| <= i < |m| && 0 <= c < lead && c < w ==> m[i][c] == 0)
  }

  lemma PivotsAfterSwap(m: seq<seq<int>>, w: nat, piv: seq<nat>, lead: nat, i: nat)
    requires PivotsSoFar(m, w, piv, lead) && |piv| <= i < |m|
    ensures PivotsSoFar(m[|piv| := m[i]][i := m[|piv|]], w, piv, lead)
  {
  }

  /** Once row `|piv|` holds a 1 at `lead` that is 0 in every other row, with
      everything left of `lead` unchanged, `lead` becomes the next pivot. */
  lemma PivotsAfterElimination(m: seq<seq<int>>, m': seq<seq<int>>, w: nat, piv: seq<nat>, lead: nat)
    requires PivotsSoFar(m, w, piv, lead) && |piv| < |m| && lead < w
    requires Rect(m', w) && |m'| == |m|
    requires forall k, c :: 0 <= k < |m| && 0 <= c < lead ==> m'[k][c] == m[k][c]
    requires m'[|piv|][lead] == 1
    requires forall k :: 0 <= k < |m| && k != |piv| ==> m'[k][lead] == 0
    ensures PivotsSoFar(m', w, piv + [lead], lead + 1)
  {
    var piv' := piv + [lead];
    forall k, c | 0 <= k < |piv'| && 0 <= c < piv'[k] ensures m'[k][c] == 0 {
      if k < |piv| {
        assert m'[k][c] == m[k][c];
      } else {
        assert m'[k][c] == m[|piv|][c];
      }
    }
    forall k, i | 0 <= k < |piv'| && 0 <= i < |m'| && i != k ensures m'[i][piv'[k]] == 0 {
      if k < |piv| {
        assert m'[i][piv[k]] == m[i][piv[k]];
      }
    }
    forall i, c | |piv'| <= i < |m'| && 0 <= c < lead + 1 && c < w ensures m'[i][c] == 0 {
      if c < lead {
        assert m'[i][c] == m[i][c];
      }
    }
  }

  /** With every row below the pivot rows zero, the pivots describe an echelon matrix. */
  lemma EchelonFromPivots(m: seq<seq<int>>, w: nat, piv: seq<nat>, lead: nat)
    requires PivotsSoFar(m, w, piv, lead) && IsBitMatrix(m)
    requires lead >= w || |piv| == |m|
    ensures Echelon(m, w)
    ensures forall k :: 0 <= k < |m| ==> VanderMonde.GetPivot(m[k]) == if k < |piv| then Some(piv[k]) else None
  {
    forall k | 0 <= k < |m|
      ensures VanderMonde.GetPivot(m[k]) == if k < |piv| then Some(piv[k]) else None
    {
      if k < |piv| {
        assert m[k][piv[k]] == 1;
        assert forall c :: 0 <= c < piv[k] ==> m[k][c] != 1;
      } else {
        assert forall c :: 0 <= c < |m[k]| ==> m[k][c] != 1;
      }
    }
  }

  lemma PivotsAdvance(m: seq<seq<int>>, w: nat, piv: seq<nat>, lead0: nat, lead: nat)
    requires PivotsSoFar(m, w, piv, lead0) && lead0 <= lead <= w
    requires forall k, c :: |piv| <= k < |m| && lead0 <= c < lead ==> m[k][c] == 0
    ensures PivotsSoFar(m, w, piv, lead)
  {
  }

  /** On an already reduced matrix the pivot search stops at row `r` itself,
      at its leading 1, and that column is clear in every other row. */
  lemma ReducedScan(m: seq<seq<int>>, w: nat, r: nat, lead0: nat, lead: nat, i: nat)
    requires Echelon(m, w) && IsBitMatrix(m) && r <= i < |m| && lead < w
    requires PivotFrom(m[r], lead0)
    requires forall k, c :: r <= k < |m| && lead0 <= c < lead ==> m[k][c] == 0
    requires forall k :: r <= k < i ==> m[k][lead] == 0
    requires m[i][lead] != 0
    ensures i == r && VanderMonde.GetPivot(m[r]) == Some(lead)
    ensures forall k :: 0 <= k < |m| && k != r ==> m[k][lead] == 0
    ensures r + 1 < |m| ==> PivotFrom(m[r + 1], lead + 1)
  {
    assert m[i][lead] == 1;
    var pi := VanderMonde.GetPivot(m[i]);
    assert pi.Some? && pi.value <= lead;
    var pr := VanderMonde.GetPivot(m[r]);
    assert pr.Some? ==> m[r][pr.value] == 1;
    assert pr.Some? ==> pr.value >= lead;
    assert i == r;
  }

  /** The invariant of the elimination loop after rows `0..i`: the log
      replayed on `before` gives `m`, row `r` and everything left of `lead`
      are untouched, rows from `i` on are untouched, rows before `i` other
      than `r` are 0 at `lead`, and nothing has happened while no row needed it. */
  ghost predicate Eliminating(before: seq<seq<int>>, m: seq<seq<int>>, w: nat, r: nat, lead: nat, i: nat,
                              ops: seq<Op>)
  {
    && Rect(before, w) && IsBitMatrix(before) && r < |before| && lead < w
    && (forall c :: 0 <= c < lead ==> before[r][c] == 0) && before[r][lead] == 1
    && |m| == |before| && i <= |m| && Rect(m, w) && IsBitMatrix(m)
    && OpsInRange(ops, |m|) && OpsDistinct(ops) && m == ReplayRows(ops, before, w)
    && m[r] == before[r]
    && (forall k, c :: 0 <= k < |m| && 0 <= c < lead ==> m[k][c] == before[k][c])
    && (forall k :: i <= k < |m| ==> m[k] == before[k])
    && (forall k :: 0 <= k < i && k != r ==> m[k][lead] == 0)
    && ((forall k :: 0 <= k < |m| && k != r ==> before[k][lead] == 0) ==> ops == [] && m == before)
  }

  /** The log of eliminating column `lead` by row `r` over rows `0..i` of
      `m`: `(k, r)` for each row `k` other than `r` with a 1 there, in
      ascending row order. */
  function EliminationLog(m: seq<seq<int>>, w: nat, r: nat, lead: nat, i: nat): seq<Op>
    requires Rect(m, w) && lead < w && i <= |m|
  {
    if i == 0 then []
    else EliminationLog(m, w, r, lead, i - 1) + (if i - 1 != r && m[i - 1][lead] == 1 then [(i - 1, r)] else [])
  }

  /** One more row extends the log by that row's entry, if it has one. */
  lemma EliminationLogStep(m: seq<seq<int>>, w: nat, r: nat, lead: nat, i: nat)
    requires Rect(m, w) && lead < w && i < |m|
    ensures i != r && m[i][lead] == 1 ==> EliminationLog(m, w, r, lead, i + 1) == EliminationLog(m, w, r, lead, i) + [(i, r)]
    ensures !(i != r && m[i][lead] == 1) ==> EliminationLog(m, w, r, lead, i + 1) == EliminationLog(m, w, r, lead, i)
  {
  }

  /** Every entry of `ops` pairs `r` with an earlier other row holding a 1
      at `lead`, and the rows ascend. */
  predicate LogShape(ops: seq<Op>, m: seq<seq<int>>, w: nat, r: nat, lead: nat, i: nat)
    requires Rect(m, w) && lead < w && i <= |m|
  {
    && (forall t :: 0 <= t < |ops| ==> ops[t].1 == r && ops[t].0 != r && ops[t].0 < i && m[ops[t].0][lead] == 1)
    && (forall s, t :: 0 <= s < t < |ops| ==> ops[s].0 < ops[t].0)
  }

  /** The log holds exactly the rows other than `r` with a 1 at `lead`, each
      paired with `r`, in ascending order. */
  lemma {:induction false} EliminationLogShape(m: seq<seq<int>>, w: nat, r: nat, lead: nat, i: nat)
    requires Rect(m, w) && lead < w && i <= |m|
    ensures LogShape(EliminationLog(m, w, r, lead, i), m, w, r, lead, i)
    ensures forall k :: 0 <= k < i && k != r && m[k][lead] == 1 ==> (k, r) in EliminationLog(m, w, r, lead, i)
    decreases i
  {
    if i > 0 {
      EliminationLogShape(m, w, r, lead, i - 1);
      var pre := EliminationLog(m, w, r, lead, i - 1);
      var ops := EliminationLog(m, w, r, lead, i);
      if i - 1 != r && m[i - 1][lead] == 1 {
        assert ops == pre + [(i - 1, r)];
        assert ops[|pre|] == (i - 1, r);
        forall t | 0 <= t < |ops|
          ensures ops[t].1 == r && ops[t].0 != r && ops[t].0 < i && m[ops[t].0][lead] == 1
        {
          if t < |pre| {
            assert ops[t] == pre[t];
            assert pre[t].1 == r && pre[t].0 != r && pre[t].0 < i - 1;
          } else {
            assert t == |pre|;
          }
        }
        forall s, t | 0 <= s < t < |ops| ensures ops[s].0 < ops[t].0 {
          assert ops[s] == pre[s];
          if t < |pre| { assert ops[t] == pre[t]; }
        }
      } else {
        assert ops == pre;
      }
    }
  }

  /** The elimination of column `lead` by row `r` is complete: every other row is 0 there. */
  ghost predicate Eliminated(before: seq<seq<int>>, m: seq<seq<int>>, w: nat, r: nat, lead: nat, ops: seq<Op>)
  {
    Eliminating(before, m, w, r, lead, |m|, ops)
  }

  /** Adding row `r` into row `i`, which has a 1 at `lead`, advances the elimination. */
  lemma EliminationAdvance(before: seq<seq<int>>, m: seq<seq<int>>, m': seq<seq<int>>, w: nat, r: nat,
                           lead: nat, i: nat, ops: seq<Op>)
    requires Eliminating(before, m, w, r, lead, i, ops) && i < |m| && i != r && m[i][lead] == 1
    requires m' == RowStep(m, (i, r))
    ensures Eliminating(before, m', w, r, lead, i + 1, ops + [(i, r)])
  {
    var ops' := ops + [(i, r)];
    assert ops'[..|ops|] == ops;
    var sum := AddRows(m[i], m[r]);
    assert m' == m[i := sum];
    forall c | 0 <= c < lead
      ensures sum[c] == m[i][c]
    {
      assert m[r][c] == 0 && IsBit(m[i][c]);
    }
    assert sum[lead] == 0;
  }

  /** A row that is `r` itself or already 0 at `lead` is left alone. */
  lemma EliminationSkip(before: seq<seq<int>>, m: seq<seq<int>>, w: nat, r: nat, lead: nat, i: nat,
                        ops: seq<Op>)
    requires Eliminating(before, m, w, r, lead, i, ops) && i < |m| && !(i != r && m[i][lead] == 1)
    ensures Eliminating(before, m, w, r, lead, i + 1, ops)
  {
    assert IsBit(m[i][lead]);
  }

  /** The invariant of the outer loop of the reduction, with `orig` the
      matrix being reduced, `m` the working copy and `ops` the log so far;
      while the input was already reduced nothing has been touched. */
  ghost predicate Reduction(orig: seq<seq<int>>, m: seq<seq<int>>, w: nat, piv: seq<nat>, lead: nat,
                            ops: seq<Op>, isReduced: bool)
  {
    && Rect(orig, w) && |m| == |orig| && IsBitMatrix(m)
    && PivotsSoFar(m, w, piv, lead)
    && OpsInRange(ops, |orig|) && OpsDistinct(ops) && m == ReplayRows(ops, orig, w)
    && (isReduced ==> ops == [] && m == orig && (|piv| < |m| ==> PivotFrom(orig[|piv|], lead)))
  }

  /** One round of the outer loop keeps `Reduction`, with the round's log appended. */
  lemma ReductionAdvance(orig: seq<seq<int>>, m: seq<seq<int>>, m': seq<seq<int>>, w: nat, piv: seq<nat>,
                         lead0: nat, lead: nat, ops: seq<Op>, more: seq<Op>, isReduced: bool)
    requires Reduction(orig, m, w, piv, lead0, ops, isReduced) && |piv| < |m|
    requires |m'| == |m| && IsBitMatrix(m') && OpsInRange(more, |m|) && OpsDistinct(more)
    requires m' == ReplayRows(more, m, w)
    requires lead < w && PivotsSoFar(m', w, piv + [lead], lead + 1)
    requires isReduced ==> more == [] && m' == m && (|piv| + 1 < |m| ==> PivotFrom(m'[|piv| + 1], lead + 1))
    ensures Reduction(orig, m', w, piv + [lead], lead + 1, ops + more, isReduced)
  {
    ReplayRowsConcat(ops, more, orig, w);
    OpsConcat(ops, more, |orig|);
    if isReduced {
      assert ops + more == ops;
    }
  }

  lemma ReductionStart(m: seq<seq<int>>, w: nat)
    requires Rect(m, w) && IsBitMatrix(m)
    ensures Reduction(m, m, w, [], 0, [], Echelon(m, w))
  {
  }

  /** When the columns or the rows run out, the working copy is reduced. */
  lemma ReductionDone(orig: seq<seq<int>>, m: seq<seq<int>>, w: nat, piv: seq<nat>, lead: nat,
                      ops: seq<Op>, isReduced: bool)
    requires Reduction(orig, m, w, piv, lead, ops, isReduced)
    requires lead >= w || |piv| == |m|
    ensures |m| == |orig| && Rect(m, w) && IsBitMatrix(m)
    ensures OpsInRange(ops, |orig|) && OpsDistinct(ops) && m == ReplayRows(ops, orig, w)
    ensures Echelon(m, w)
    ensures isReduced ==> ops == [] && m == orig
  {
    EchelonFromPivots(m, w, piv, lead);
  }

  /** No column from `lead0` on has a 1 at or below row `|piv|`: the reduction is over. */
  lemma ReductionExhausted(orig: seq<seq<int>>, m: seq<seq<int>>, w: nat, piv: seq<nat>, lead0: nat,
                           ops: seq<Op>, isReduced: bool)
    requires Reduction(orig, m, w, piv, lead0, ops, isReduced) && |piv| < |m| && lead0 <= w
    requires forall k, c :: |piv| <= k < |m| && lead0 <= c < w ==> m[k][c] == 0
    ensures Reduction(orig, m, w, piv, w, ops, isReduced)
  {
    PivotsAdvance(m, w, piv, lead0, w);
    if isReduced {
      var row := orig[|piv|];
      assert forall c :: 0 <= c < |row| ==> row[c] != 1;
    }
  }

  /** The row found by the search is a pivot row once swapped up to row `|piv|`. */
  lemma SwapReady(m: seq<seq<int>>, w: nat, piv: seq<nat>, lead0: nat, lead: nat, i: nat)
    requires PivotsSoFar(m, w, piv, lead0) && IsBitMatrix(m) && lead0 <= lead < w && |piv| <= i < |m|
    requires forall k, c :: |piv| <= k < |m| && lead0 <= c < lead ==> m[k][c] == 0
    requires m[i][lead] != 0
    ensures PivotsSoFar(m, w, piv, lead)
    ensures var m1 := m[|piv| := m[i]][i := m[|piv|]];
      && Rect(m1, w) && IsBitMatrix(m1) && PivotsSoFar(m1, w, piv, lead)
      && m1[|piv|][lead] == 1 && (forall c :: 0 <= c < lead ==> m1[|piv|][c] == 0)
  {
    PivotsAdvance(m, w, piv, lead0, lead);
    PivotsAfterSwap(m, w, piv, lead, i);
  }

  /** After the swap and the elimination of a round, `Reduction` holds with
      `lead` as the next pivot and the round's log appended. On an input that
      was already reduced, the round found row `|piv|` in place and changed nothing. */
  lemma RoundComplete(orig: seq<seq<int>>, m: seq<seq<int>>, m1: seq<seq<int>>, m2: seq<seq<int>>, w: nat,
                      piv: seq<nat>, lead0: nat, lead: nat, i: nat, ops: seq<Op>, swaps: seq<Op>,
                      elim: seq<Op>, isReduced: bool)
    requires Reduction(orig, m, w, piv, lead0, ops, isReduced) && (isReduced ==> Echelon(orig, w))
    requires |piv| <= i < |m| && lead0 <= lead < w
    requires forall k, c :: |piv| <= k < |m| && lead0 <= c < lead ==> m[k][c] == 0
    requires forall k :: |piv| <= k < i ==> m[k][lead] == 0
    requires m[i][lead] != 0
    requires m1 == m[|piv| := m[i]][i := m[|piv|]]
    requires swaps == if |piv| != i then [(|piv|, i), (i, |piv|), (|piv|, i)] else []
    requires OpsInRange(swaps, |m|) && OpsDistinct(swaps) && m1 == ReplayRows(swaps, m, w)
    requires Rect(m1, w) && PivotsSoFar(m1, w, piv, lead)
    requires Eliminated(m1, m2, w, |piv|, lead, elim)
    ensures Reduction(orig, m2, w, piv + [lead], lead + 1, ops + (swaps + elim), isReduced)
  {
    if isReduced {
      RoundOnReduced(orig, m, m1, m2, w, piv, lead0, lead, i, ops, swaps, elim);
    }
    RoundPivots(m1, m2, w, piv, lead, elim);
    ReplayRowsConcat(swaps, elim, m, w);
    OpsConcat(swaps, elim, |m|);
    ReductionAdvance(orig, m, m2, w, piv, lead0, lead, ops, swaps + elim, isReduced);
  }

  /** The pivot bookkeeping of a round: clearing column `lead` makes it the next pivot. */
  lemma RoundPivots(m1: seq<seq<int>>, m2: seq<seq<int>>, w: nat, piv: seq<nat>, lead: nat, elim: seq<Op>)
    requires Rect(m1, w) && PivotsSoFar(m1, w, piv, lead) && |piv| < |m1| && lead < w
    requires Eliminated(m1, m2, w, |piv|, lead, elim)
    ensures |m2| == |m1| && IsBitMatrix(m2) && OpsInRange(elim, |m1|) && OpsDistinct(elim)
    ensures m2 == ReplayRows(elim, m1, w)
    ensures PivotsSoFar(m2, w, piv + [lead], lead + 1)
  {
    PivotsAfterElimination(m1, m2, w, piv, lead);
  }

  /** A round on a matrix that is already reduced swaps nothing and eliminates nothing. */
  lemma RoundOnReduced(orig: seq<seq<int>>, m: seq<seq<int>>, m1: seq<seq<int>>, m2: seq<seq<int>>, w: nat,
                       piv: seq<nat>, lead0: nat, lead: nat, i: nat, ops: seq<Op>, swaps: seq<Op>, elim: seq<Op>)
    requires Reduction(orig, m, w, piv, lead0, ops, true) && Echelon(orig, w)
    requires |piv| <= i < |m| && lead0 <= lead < w
    requires forall k, c :: |piv| <= k < |m| && lead0 <= c < lead ==> m[k][c] == 0
    requires forall k :: |piv| <= k < i ==> m[k][lead] == 0
    requires m[i][lead] != 0
    requires m1 == m[|piv| := m[i]][i := m[|piv|]]
    requires swaps == if |piv| != i then [(|piv|, i), (i, |piv|), (|piv|, i)] else []
    requires Eliminated(m1, m2, w, |piv|, lead, elim)
    ensures swaps == [] && elim == [] && m2 == m
    ensures |piv| + 1 < |m| ==> PivotFrom(m[|piv| + 1], lead + 1)
  {
    ReducedScan(m, w, |piv|, lead0, lead, i);
    assert m1 == m;
  }

  // Rank

  /** The distinct leading-1 columns of rows `0..t`: the `HashSet` of `rank` after `t` rows. */
  ghost function PivotColumns(m: seq<seq<int>>, t: nat): set<nat>
    requires t <= |m|
  {
    if t == 0 then {}
    else
      var p := VanderMonde.GetPivot(m[t - 1]);
      PivotColumns(m, t - 1) + (if p.Some? then {p.value} else {})
  }

  /** One more row adds its leading-1 column, if it has one. */
  lemma PivotColumnsStep(m: seq<seq<int>>, i: nat)
    requires i < |m|
    ensures var p := VanderMonde.GetPivot(m[i]);
      PivotColumns(m, i + 1) == PivotColumns(m, i) + (if p.Some? then {p.value} else {})
    ensures var p := VanderMonde.GetPivot(m[i]);
      (p.None? || p.value in PivotColumns(m, i)) ==> PivotColumns(m, i + 1) == PivotColumns(m, i)
  {
    var p := VanderMonde.GetPivot(m[i]);
    if p.None? {
      assert PivotColumns(m, i) + {} == PivotColumns(m, i);
    } else if p.value in PivotColumns(m, i) {
      assert PivotColumns(m, i) + {p.value} == PivotColumns(m, i);
    }
  }

  /** At most one new column per row, and every column is below the row length. */
  lemma {:induction false} PivotColumnsBounds(m: seq<seq<int>>, w: nat, t: nat)
    requires t <= |m|
    ensures |PivotColumns(m, t)| <= t
    ensures Rect(m, w) ==> forall c :: c in PivotColumns(m, t) ==> c < w
  {
    if t > 0 {
      PivotColumnsBounds(m, w, t - 1);
    }
  }

  /** The pivot columns of all rows number at most the rows and at most the columns. */
  lemma PivotColumnsCount(m: seq<seq<int>>)
    ensures |PivotColumns(m, |m|)| <= |m|
    ensures forall w :: Rect(m, w) ==> |PivotColumns(m, |m|)| <= w
  {
    PivotColumnsBounds(m, 0, |m|);
    forall w | Rect(m, w)
      ensures |PivotColumns(m, |m|)| <= w
    {
      PivotColumnsBounds(m, w, |m|);
      CardBelow(PivotColumns(m, |m|), w);
    }
  }

  /** A set of naturals below `w` has at most `w` elements. */
  lemma {:induction false} CardBelow(s: set<nat>, w: nat)
    requires forall c :: c in s ==> c < w
    ensures |s| <= w
    decreases w
  {
    if w > 0 {
      var rest := s - {w - 1};
      CardBelow(rest, w - 1);
      assert s <= rest + {w - 1};
    } else {
      assert s == {};
    }
  }

  /** A matrix without any 1 (in particular an all-zero matrix) has no pivot columns. */
  lemma {:induction false} NoOnesNoPivots(m: seq<seq<int>>, t: nat)
    requires t <= |m|
    requires forall k, c :: 0 <= k < |m| && 0 <= c < |m[k]| ==> m[k][c] != 1
    ensures PivotColumns(m, t) == {}
  {
    if t > 0 {
      NoOnesNoPivots(m, t - 1);
    }
  }

  // ---------------------------------------------------------------------
  // Kernel

  /** A (pivot column, pivot row) pair of `kernel`'s map. */
  type Pair = (nat, nat)

  predicate PairsInRange(pairs: seq<Pair>, w: nat, rows: nat)
  {
    forall s :: 0 <= s < |pairs| ==> pairs[s].0 < w && pairs[s].1 < rows
  }

  /** The column scan of `kernel` over the first `j` columns: a column is a
      pivot column when the next unused row has a 1 there, otherwise it is free.
      Pivot pairs come out in ascending column order and take rows 0, 1, 2, ... */
  function ScanColumns(m: seq<seq<int>>, w: nat, j: nat): (r: (seq<Pair>, seq<nat>))
    requires Rect(m, w) && j <= w
    ensures |r.0| + |r.1| == j && |r.0| <= |m| && PairsInRange(r.0, w, |m|)
    ensures forall t :: 0 <= t < |r.1| ==> r.1[t] < j
    decreases j
  {
    if j == 0 then ([], [])
    else
      var (p, f) := ScanColumns(m, w, j - 1);
      if |p| < |m| && m[|p|][j - 1] == 1 then (p + [(j - 1, |p|)], f)
      else (p, f + [j - 1])
  }

  /** The scan takes rows 0, 1, 2, ... for columns holding a 1 there, in
      ascending column order. */
  lemma {:induction false} ScanPairsShape(m: seq<seq<int>>, w: nat, j: nat)
    requires Rect(m, w) && j <= w
    ensures var p := ScanColumns(m, w, j).0;
      && (forall s :: 0 <= s < |p| ==> p[s].1 == s && p[s].0 < j && m[s][p[s].0] == 1)
      && (forall s, t :: 0 <= s < t < |p| ==> p[s].0 < p[t].0)
    decreases j
  {
    if j > 0 {
      var k := j - 1;
      ScanPairsShape(m, w, k);
      var p := ScanColumns(m, w, k).0;
      if |p| < |m| && m[|p|][k] == 1 {
        var q := p + [(k, |p|)];
        assert ScanColumns(m, w, j).0 == q;
        forall s | 0 <= s < |q| ensures q[s].1 == s && q[s].0 < j && m[s][q[s].0] == 1 {
          if s < |p| { assert q[s] == p[s]; }
        }
        forall s, t | 0 <= s < t < |q| ensures q[s].0 < q[t].0 {
          assert q[s] == p[s];
          if t < |p| {
            assert q[t] == p[t];
          } else {
            assert q[t].0 == k && p[s].0 < k;
          }
        }
      } else {
        assert ScanColumns(m, w, j).0 == p;
      }
    }
  }

  /** The free columns ascend and are not pivot columns. */
  lemma {:induction false} ScanFreeShape(m: seq<seq<int>>, w: nat, j: nat)
    requires Rect(m, w) && j <= w
    ensures var r := ScanColumns(m, w, j);
      && (forall t, u :: 0 <= t < u < |r.1| ==> r.1[t] < r.1[u])
      && (forall s, t :: 0 <= s < |r.0| && 0 <= t < |r.1| ==> r.0[s].0 != r.1[t])
    decreases j
  {
    if j > 0 {
      var k := j - 1;
      ScanFreeShape(m, w, k);
      ScanPairsShape(m, w, k);
      var r := ScanColumns(m, w, k);
      if |r.0| < |m| && m[|r.0|][k] == 1 {
        var q := r.0 + [(k, |r.0|)];
        assert ScanColumns(m, w, j) == (q, r.1);
        forall s, t | 0 <= s < |q| && 0 <= t < |r.1| ensures q[s].0 != r.1[t] {
          if s < |r.0| { assert q[s] == r.0[s]; }
        }
      } else {
        var g := r.1 + [k];
        assert ScanColumns(m, w, j) == (r.0, g);
        forall t, u | 0 <= t < u < |g| ensures g[t] < g[u] {
          assert g[t] == r.1[t];
          if u < |r.1| { assert g[u] == r.1[u]; }
        }
        forall s, t | 0 <= s < |r.0| && 0 <= t < |g| ensures r.0[s].0 != g[t] {
          if t < |r.1| { assert g[t] == r.1[t]; }
        }
      }
    }
  }

  /** The row recorded for column `c`, if `c` is a pivot column. */
  function Lookup(pairs: seq<Pair>, c: nat): (r: Option<nat>)
    ensures r.Some? ==> exists t :: 0 <= t < |pairs| && pairs[t] == (c, r.value)
    ensures r.None? ==> forall t :: 0 <= t < |pairs| ==> pairs[t].0 != c
    decreases |pairs|
  {
    if |pairs| == 0 then None
    else if pairs[|pairs| - 1].0 == c then Some(pairs[|pairs| - 1].1)
    else Lookup(pairs[..|pairs| - 1], c)
  }

  /** `vec![0; w]` with a 1 at position `f`. */
  function Unit(w: nat, f: nat): (u: seq<int>)
    requires f < w
    ensures |u| == w && IsBitVector(u) && u[f] == 1
    ensures forall c :: 0 <= c < w && c != f ==> u[c] == 0
  {
    seq(w, _ => 0)[f := 1]
  }

  /** The XOR, over columns `lo..|row|` other than `skip`, of `row[col] * v[col]`,
      accumulated from the last column down as in `kernel`'s innermost loop. */
  function SkipSum(row: seq<int>, v: seq<int>, skip: nat, lo: nat): (r: int)
    requires |row| == |v| && lo <= |row| && IsBitVector(row) && IsBitVector(v)
    ensures IsBit(r)
    decreases |row| - lo
  {
    if lo == |row| then 0
    else if lo == skip then SkipSum(row, v, skip, lo + 1)
    else Xor(SkipSum(row, v, skip, lo + 1), row[lo] * v[lo])
  }

  /** The XOR of the products is their parity with entry `skip` left out. */
  lemma {:induction false} SkipSumIsParity(row: seq<int>, v: seq<int>, skip: nat, lo: nat)
    requires |row| == |v| && lo <= |row| && skip < |v| && IsBitVector(row) && IsBitVector(v)
    ensures SkipSum(row, v, skip, lo) == Parity(Products(row, v[skip := 0])[lo..])
    decreases |row| - lo
  {
    var s := Products(row, v[skip := 0]);
    if lo < |row| {
      SkipSumIsParity(row, v, skip, lo + 1);
      assert s[lo..][1..] == s[lo + 1..];
    }
  }

  /** The vector after the first `s` pivot pairs have been solved for, starting from `v`. */
  function Solve(m: seq<seq<int>>, w: nat, pairs: seq<Pair>, v: seq<int>, s: nat): (r: seq<int>)
    requires Rect(m, w) && IsBitMatrix(m) && PairsInRange(pairs, w, |m|)
    requires |v| == w && IsBitVector(v) && s <= |pairs|
    ensures |r| == w && IsBitVector(r)
    decreases s
  {
    if s == 0 then v
    else
      var prev := Solve(m, w, pairs, v, s - 1);
      var (p, row) := pairs[s - 1];
      prev[p := SkipSum(m[row], prev, p, 0)]
  }

  /** The kernel vector `kernel` builds for free column `f`. */
  function KernelVector(m: seq<seq<int>>, w: nat, pairs: seq<Pair>, f: nat): seq<int>
    requires Rect(m, w) && IsBitMatrix(m) && PairsInRange(pairs, w, |m|) && f < w
  {
    Solve(m, w, pairs, Unit(w, f), |pairs|)
  }

  /** The pairs of a reduced matrix: each pivot is a 1 alone in its column,
      rows and columns are used once, and a row outside the pairs is zero. */
  ghost predicate PivotPairs(m: seq<seq<int>>, w: nat, pairs: seq<Pair>)
  {
    && Rect(m, w) && IsBitMatrix(m) && PairsInRange(pairs, w, |m|)
    && (forall s :: 0 <= s < |pairs| ==> m[pairs[s].1][pairs[s].0] == 1)
    && (forall s, k :: 0 <= s < |pairs| && 0 <= k < |m| && k != pairs[s].1 ==> m[k][pairs[s].0] == 0)
    && (forall s, t :: 0 <= s < |pairs| && 0 <= t < |pairs| && s != t ==>
          pairs[s].1 != pairs[t].1 && pairs[s].0 != pairs[t].0)
    && (forall k, c :: 0 <= k < |m| && 0 <= c < w && m[k][c] != 0 ==> exists s :: 0 <= s < |pairs| && pairs[s].1 == k)
  }

  /** A column that is no pivot column. */
  ghost predicate FreeColumn(pairs: seq<Pair>, w: nat, f: nat)
  {
    f < w && forall s :: 0 <= s < |pairs| ==> pairs[s].0 != f
  }

  /** The solved vector in closed form: 1 at `f`, `m[row][f]` at the pivot
      column of each pair `(col, row)` in `q`, 0 elsewhere. */
  function ClosedForm(m: seq<seq<int>>, w: nat, q: seq<Pair>, f: nat): (v: seq<int>)
    requires Rect(m, w) && PairsInRange(q, w, |m|) && f < w
    ensures |v| == w
  {
    seq(w, c requires 0 <= c < w =>
      if c == f then 1
      else match Lookup(q, c)
        case Some(row) => m[row][f]
        case None => 0)
  }

  /** Off the free column and the new pivot, the row of pair `s - 1` or the
      vector solved so far is zero: a column with a value is the pivot
      column of an earlier pair, which is clear in every other row. */
  lemma OffPivotZero(m: seq<seq<int>>, w: nat, pairs: seq<Pair>, f: nat, s: nat, c: nat)
    requires PivotPairs(m, w, pairs) && FreeColumn(pairs, w, f) && 0 < s <= |pairs|
    requires c < w && c != f && c != pairs[s - 1].0
    ensures m[pairs[s - 1].1][c] * ClosedForm(m, w, pairs[..s - 1], f)[c] == 0
  {
    var q := pairs[..s - 1];
    match Lookup(q, c)
    case Some(r2) =>
      var t :| 0 <= t < s - 1 && q[t] == (c, r2);
      assert pairs[t] == (c, r2);
      assert m[pairs[s - 1].1][pairs[t].0] == 0;
    case None =>
  }

  /** A row meeting the vector only at `f` (once entry `p` is cleared) has
      product parity `row[f]`. */
  lemma SingleProduct(row: seq<int>, v: seq<int>, p: nat, f: nat)
    requires |row| == |v| && p < |v| && f < |v| && p != f && v[f] == 1 && IsBit(row[f])
    requires forall c :: 0 <= c < |v| && c != f && c != p ==> row[c] * v[c] == 0
    ensures Parity(Products(row, v[p := 0])[0..]) == row[f]
  {
    var prods := Products(row, v[p := 0]);
    assert prods[0..] == prods;
    forall c | 0 <= c < |v| && c != f ensures prods[c] == 0 {
      if c != p { assert prods[c] == row[c] * v[c]; }
    }
    ParityOne(prods, f);
  }

  /** The value solved for pair `s - 1` is `m[row][f]`: the other columns the
      row meets are zero in the vector or in the row. */
  lemma SolvedEntry(m: seq<seq<int>>, w: nat, pairs: seq<Pair>, f: nat, s: nat)
    requires PivotPairs(m, w, pairs) && FreeColumn(pairs, w, f) && 0 < s <= |pairs|
    requires IsBitVector(ClosedForm(m, w, pairs[..s - 1], f))
    ensures SkipSum(m[pairs[s - 1].1], ClosedForm(m, w, pairs[..s - 1], f), pairs[s - 1].0, 0)
            == m[pairs[s - 1].1][f]
  {
    var prev := ClosedForm(m, w, pairs[..s - 1], f);
    var p := pairs[s - 1].0;
    var row := pairs[s - 1].1;
    forall c | 0 <= c < w && c != f && c != p
      ensures m[row][c] * prev[c] == 0
    {
      OffPivotZero(m, w, pairs, f, s, c);
    }
    assert IsBit(m[row][f]);
    SingleProduct(m[row], prev, p, f);
    SkipSumIsParity(m[row], prev, p, 0);
  }

  /** One pair solved keeps the vector in closed form. */
  lemma SolveStep(m: seq<seq<int>>, w: nat, pairs: seq<Pair>, f: nat, s: nat)
    requires Rect(m, w) && IsBitMatrix(m) && PairsInRange(pairs, w, |m|)
    requires f < w && 0 < s <= |pairs| && pairs[s - 1].0 != f
    requires Solve(m, w, pairs, Unit(w, f), s - 1) == ClosedForm(m, w, pairs[..s - 1], f)
    requires SkipSum(m[pairs[s - 1].1], ClosedForm(m, w, pairs[..s - 1], f), pairs[s - 1].0, 0)
             == m[pairs[s - 1].1][f]
    ensures Solve(m, w, pairs, Unit(w, f), s) == ClosedForm(m, w, pairs[..s], f)
  {
    var prev := ClosedForm(m, w, pairs[..s - 1], f);
    var (p, row) := pairs[s - 1];
    var next := Solve(m, w, pairs, Unit(w, f), s);
    assert next == prev[p := m[row][f]];
    var cf := ClosedForm(m, w, pairs[..s], f);
    assert pairs[..s][..s - 1] == pairs[..s - 1];
    forall c | 0 <= c < w
      ensures next[c] == cf[c]
    {
      if c != p {
        assert Lookup(pairs[..s], c) == Lookup(pairs[..s - 1], c);
      } else {
        assert Lookup(pairs[..s], p) == Some(row);
      }
    }
  }

  /** Solving pair by pair yields the closed form for the pairs solved so far. */
  lemma {:induction false} SolveClosedForm(m: seq<seq<int>>, w: nat, pairs: seq<Pair>, f: nat, s: nat)
    requires PivotPairs(m, w, pairs) && FreeColumn(pairs, w, f) && s <= |pairs|
    ensures Solve(m, w, pairs, Unit(w, f), s) == ClosedForm(m, w, pairs[..s], f)
    decreases s
  {
    if s == 0 {
      assert Solve(m, w, pairs, Unit(w, f), 0) == Unit(w, f);
    } else {
      SolveClosedForm(m, w, pairs, f, s - 1);
      SolvedEntry(m, w, pairs, f, s);
      SolveStep(m, w, pairs, f, s);
    }
  }

  /** A pivot row meets the closed-form vector at its pivot column and at `f`
      only, with the same value `m[row][f]` at both. */
  lemma PivotRowAnnihilated(m: seq<seq<int>>, w: nat, pairs: seq<Pair>, f: nat, s: nat)
    requires PivotPairs(m, w, pairs) && FreeColumn(pairs, w, f) && s < |pairs|
    ensures Dot(m[pairs[s].1], ClosedForm(m, w, pairs, f)) == 0
  {
    var (p, k) := pairs[s];
    var v := ClosedForm(m, w, pairs, f);
    var prods := Products(m[k], v);
    assert Lookup(pairs, p) == Some(k);
    forall c | 0 <= c < w && c != f && c != p
      ensures prods[c] == 0
    {
      match Lookup(pairs, c)
      case Some(r2) =>
        var t :| 0 <= t < |pairs| && pairs[t] == (c, r2);
        assert m[k][c] == 0;
      case None =>
    }
    ParityTwo(prods, p, f);
    assert v[p] == m[k][f] && v[f] == 1;
    assert prods[p] == m[k][f] && prods[f] == m[k][f];
    var x := m[k][f];
    assert (x + x) % 2 == 0;
    assert Dot(m[k], v) == Parity(prods);
  }

  /** Every kernel vector solves the reduced system: it is orthogonal to every
      row, it has a 1 at its own free column and a 0 at every other free column. */
  lemma KernelAnnihilates(m: seq<seq<int>>, w: nat, pairs: seq<Pair>, f: nat)
    requires PivotPairs(m, w, pairs) && FreeColumn(pairs, w, f)
    ensures KernelVector(m, w, pairs, f)[f] == 1
    ensures forall c: nat :: FreeColumn(pairs, w, c) && c != f ==> KernelVector(m, w, pairs, f)[c] == 0
    ensures forall k :: 0 <= k < |m| ==> Dot(m[k], KernelVector(m, w, pairs, f)) == 0
  {
    SolveClosedForm(m, w, pairs, f, |pairs|);
    assert pairs[..|pairs|] == pairs;
    var v := KernelVector(m, w, pairs, f);
    forall k | 0 <= k < |m|
      ensures Dot(m[k], v) == 0
    {
      if exists s :: 0 <= s < |pairs| && pairs[s].1 == k {
        var s :| 0 <= s < |pairs| && pairs[s].1 == k;
        PivotRowAnnihilated(m, w, pairs, f, s);
      } else {
        DotZeroRow(m[k], v);
      }
    }
  }

  /** After `j` columns the scan of an echelon matrix has met exactly the
      leading 1s of its first rows, and the next row leads at column `j` or later. */
  ghost predicate ScanAgrees(m: seq<seq<int>>, w: nat, j: nat)
    requires Rect(m, w) && j <= w
  {
    var p := ScanColumns(m, w, j).0;
    && (forall s :: 0 <= s < |p| ==> VanderMonde.GetPivot(m[s]) == Some(p[s].0))
    && (|p| < |m| ==> PivotFrom(m[|p|], j))
  }

  lemma ScanAdvance(m: seq<seq<int>>, w: nat, j: nat)
    requires Echelon(m, w) && j < w && ScanAgrees(m, w, j)
    ensures ScanAgrees(m, w, j + 1)
  {
    var p := ScanColumns(m, w, j).0;
    var r := |p|;
    if r < |m| && m[r][j] == 1 {
      assert ScanColumns(m, w, j + 1).0 == p + [(j, r)];
      assert VanderMonde.GetPivot(m[r]) == Some(j);
      if r + 1 < |m| && VanderMonde.GetPivot(m[r + 1]).Some? {
        assert VanderMonde.GetPivot(m[r]).value < VanderMonde.GetPivot(m[r + 1]).value;
      }
    } else {
      assert ScanColumns(m, w, j + 1).0 == p;
      if r < |m| {
        var q := VanderMonde.GetPivot(m[r]);
        assert q.Some? ==> m[r][q.value] == 1;
      }
    }
  }

  lemma {:induction false} ScanAgreesUpTo(m: seq<seq<int>>, w: nat, j: nat)
    requires Echelon(m, w) && j <= w
    ensures ScanAgrees(m, w, j)
    decreases j
  {
    if j > 0 {
      var k := j - 1;
      ScanAgreesUpTo(m, w, k);
      ScanAdvance(m, w, k);
      assert k + 1 == j;
    }
  }

  /** The distinct pivot columns of the first `t` rows, when the first `|p|`
      rows lead at the increasing columns of `p` and the others have no 1. */
  lemma {:induction false} PivotColumnsOfScan(m: seq<seq<int>>, p: seq<Pair>, t: nat)
    requires |p| <= |m| && t <= |m|
    requires forall s :: 0 <= s < |p| ==> VanderMonde.GetPivot(m[s]) == Some(p[s].0)
    requires forall s, u :: 0 <= s < u < |p| ==> p[s].0 < p[u].0
    requires forall k :: |p| <= k < |m| ==> VanderMonde.GetPivot(m[k]).None?
    ensures |PivotColumns(m, t)| == if t <= |p| then t else |p|
    ensures t < |p| ==> forall c :: c in PivotColumns(m, t) ==> c < p[t].0
  {
    if t <= |p| {
      PivotColumnsPrefix(m, p, t);
    } else {
      PivotColumnsPrefix(m, p, |p|);
      PivotColumnsTail(m, |p|, t);
    }
  }

  /** Over rows leading at strictly increasing columns, each row adds a new
      pivot column, larger than all before it. */
  lemma {:induction false} PivotColumnsPrefix(m: seq<seq<int>>, p: seq<Pair>, t: nat)
    requires t <= |p| <= |m|
    requires forall s :: 0 <= s < |p| ==> VanderMonde.GetPivot(m[s]) == Some(p[s].0)
    requires forall s, u :: 0 <= s < u < |p| ==> p[s].0 < p[u].0
    ensures |PivotColumns(m, t)| == t
    ensures t < |p| ==> forall c :: c in PivotColumns(m, t) ==> c < p[t].0
    decreases t
  {
    if t > 0 {
      PivotColumnsPrefix(m, p, t - 1);
      var before := PivotColumns(m, t - 1);
      var c := p[t - 1].0;
      assert VanderMonde.GetPivot(m[t - 1]) == Some(c);
      assert PivotColumns(m, t) == before + {c};
      assert c !in before;
      assert |before + {c}| == |before| + 1;
      if t < |p| {
        assert c < p[t].0;
      }
    }
  }

  /** Rows without a 1 add no pivot column. */
  lemma {:induction false} PivotColumnsTail(m: seq<seq<int>>, j: nat, t: nat)
    requires j <= t <= |m|
    requires forall k :: j <= k < |m| ==> VanderMonde.GetPivot(m[k]).None?
    ensures PivotColumns(m, t) == PivotColumns(m, j)
    decreases t
  {
    if t > j {
      PivotColumnsTail(m, j, t - 1);
      assert VanderMonde.GetPivot(m[t - 1]).None?;
    }
  }

  /** After the full scan of an echelon matrix, the scanned rows lead at the
      pivot columns and the remaining rows have no 1. */
  lemma ScanTail(m: seq<seq<int>>, w: nat)
    requires Echelon(m, w)
    ensures forall s :: 0 <= s < |ScanColumns(m, w, w).0| ==>
              VanderMonde.GetPivot(m[s]) == Some(ScanColumns(m, w, w).0[s].0)
    ensures forall k :: |ScanColumns(m, w, w).0| <= k < |m| ==> VanderMonde.GetPivot(m[k]).None?
  {
    var p := ScanColumns(m, w, w).0;
    ScanAgreesUpTo(m, w, w);
    if |p| < |m| {
      var q := VanderMonde.GetPivot(m[|p|]);
      assert q.None? by {
        if q.Some? {
          assert q.value < w;
        }
      }
    }
    forall k | |p| <= k < |m|
      ensures VanderMonde.GetPivot(m[k]).None?
    {
    }
  }

  /** On a reduced 0/1 matrix, the scan of `kernel` finds its pivot pairs. */
  lemma EchelonPairs(m: seq<seq<int>>, w: nat)
    requires Echelon(m, w) && IsBitMatrix(m)
    ensures PivotPairs(m, w, ScanColumns(m, w, w).0)
  {
    var p := ScanColumns(m, w, w).0;
    ScanTail(m, w);
    ScanPairsShape(m, w, w);
    forall k, c | 0 <= k < |m| && 0 <= c < w && m[k][c] != 0
      ensures exists s :: 0 <= s < |p| && p[s].1 == k
    {
      if k >= |p| {
        assert false;
      }
      assert p[k].1 == k;
    }
    forall s, k | 0 <= s < |p| && 0 <= k < |m| && k != p[s].1
      ensures m[k][p[s].0] == 0
    {
      assert VanderMonde.GetPivot(m[s]).value == p[s].0;
    }
  }

  /** On a reduced 0/1 matrix, the scan of `kernel` finds the pivot pairs: as
      many as `rank` counts, with every listed free column a true free column. */
  lemma EchelonScan(m: seq<seq<int>>, w: nat)
    requires Echelon(m, w) && IsBitMatrix(m)
    ensures PivotPairs(m, w, ScanColumns(m, w, w).0)
    ensures |PivotColumns(m, |m|)| == |ScanColumns(m, w, w).0|
    ensures forall t :: 0 <= t < |ScanColumns(m, w, w).1| ==>
              FreeColumn(ScanColumns(m, w, w).0, w, ScanColumns(m, w, w).1[t])
  {
    EchelonPairs(m, w);
    ScanTail(m, w);
    ScanPairsShape(m, w, w);
    ScanFreeShape(m, w, w);
    PivotColumnsOfScan(m, ScanColumns(m, w, w).0, |m|);
  }

  /** The first loop of `kernel`: each column is a pivot column when the next
      unused row has a 1 there, and free otherwise. */
  method ScanPivots(m: seq<seq<int>>, rows: nat, cols: nat) returns (pivots: seq<Pair>, freeColumns: seq<nat>)
    requires rows == |m| && Rect(m, cols)
    ensures (pivots, freeColumns) == ScanColumns(m, cols, cols)
  {
    pivots := [];
    freeColumns := [];
    var rowIndex: nat := 0;
    for j: nat := 0 to cols
      invariant (pivots, freeColumns) == ScanColumns(m, cols, j)
      invariant rowIndex == |pivots|
    {
      if rowIndex < rows && m[rowIndex][j] == 1 {
        pivots := pivots + [(j, rowIndex)];
        rowIndex := rowIndex + 1;
      } else {
        freeColumns := freeColumns + [j];
      }
    }
  }

  /** The body of `kernel`'s loop over free columns: start from the unit
      vector of `freeCol`, then solve for each pivot in turn. */
  method SolveFreeColumn(m: seq<seq<int>>, cols: nat, pivots: seq<Pair>, freeCol: nat) returns (kernelVector: seq<int>)
    requires Rect(m, cols) && IsBitMatrix(m) && PairsInRange(pivots, cols, |m|) && freeCol < cols
    ensures kernelVector == KernelVector(m, cols, pivots, freeCol)
  {
    kernelVector := seq(cols, _ => 0)[freeCol := 1];
    for s: nat := 0 to |pivots|
      invariant kernelVector == Solve(m, cols, pivots, Unit(cols, freeCol), s)
    {
      var (pIndex, pRow) := pivots[s];
      var sum := PivotSum(m[pRow], kernelVector, pIndex);
      kernelVector := kernelVector[pIndex := sum];
    }
  }

  /** The innermost loop of `kernel`: XOR of `row[col] * v[col]` over every
      column but `skip`, from the last column down. */
  method PivotSum(row: seq<int>, v: seq<int>, skip: nat) returns (sum: int)
    requires |row| == |v| && IsBitVector(row) && IsBitVector(v)
    ensures sum == SkipSum(row, v, skip, 0)
  {
    sum := 0;
    for col: nat := |row| downto 0
      invariant sum == SkipSum(row, v, skip, col)
    {
      if col != skip {
        BitProduct(row[col], v[col]);
        sum := Xor(sum, row[col] * v[col]);
      }
    }
  }

  /** A strictly increasing sequence of `w` naturals below `w` is 0, 1, ..., w - 1. */
  lemma {:induction false} IncreasingFill(p: seq<Pair>, w: nat, s: nat)
    requires |p| == w && s < w
    requires forall t :: 0 <= t < w ==> p[t].0 < w
    requires forall t, u :: 0 <= t < u < w ==> p[t].0 < p[u].0
    ensures p[s].0 >= s && p[s].0 <= s
    decreases s
  {
    if s > 0 {
      IncreasingFill(p, w, s - 1);
    }
    IncreasingCeiling(p, w, s);
  }

  lemma {:induction false} IncreasingCeiling(p: seq<Pair>, w: nat, s: nat)
    requires |p| == w && s < w
    requires forall t :: 0 <= t < w ==> p[t].0 < w
    requires forall t, u :: 0 <= t < u < w ==> p[t].0 < p[u].0
    ensures p[s].0 + (w - 1 - s) <= w - 1
    decreases w - s
  {
    if s + 1 < w {
      IncreasingCeiling(p, w, s + 1);
    }
  }

  /** With every column a pivot column, row `c` meets a vector only at
      column `c`, so a 0/1 vector orthogonal to it is 0 there. */
  lemma UnitRow(m: seq<seq<int>>, w: nat, p: seq<Pair>, g: seq<int>, c: nat)
    requires PivotPairs(m, w, p) && |p| == w <= |m| && |g| == w && c < w && IsBitVector(g)
    requires forall t :: 0 <= t < w ==> p[t] == (t, t)
    requires Dot(m[c], g) == 0
    ensures g[c] == 0
  {
    var prods := Products(m[c], g);
    forall c2 | 0 <= c2 < w && c2 != c
      ensures prods[c2] == 0
    {
      assert m[c][p[c2].0] == 0;
    }
    assert m[p[c].1][p[c].0] == 1;
    ParityOne(prods, c);
    assert IsBit(g[c]);
  }

  /** With as many pivots as columns, the scan pairs column `t` with row `t`. */
  lemma FullRankPairs(m: seq<seq<int>>, w: nat)
    requires Echelon(m, w) && IsBitMatrix(m) && |PivotColumns(m, |m|)| == w
    ensures PivotPairs(m, w, ScanColumns(m, w, w).0)
    ensures |ScanColumns(m, w, w).0| == w <= |m|
    ensures forall t :: 0 <= t < w ==> ScanColumns(m, w, w).0[t] == (t, t)
  {
    var p := ScanColumns(m, w, w).0;
    EchelonScan(m, w);
    ScanPairsShape(m, w, w);
    forall t | 0 <= t < w
      ensures p[t] == (t, t)
    {
      IncreasingFill(p, w, t);
    }
  }

  /** A reduced 0/1 matrix with as many pivots as columns has only the zero
      vector in its kernel: row `c` is then the unit row of column `c`. */
  lemma FullRankOnlyZero(m: seq<seq<int>>, w: nat, g: seq<int>)
    requires Echelon(m, w) && IsBitMatrix(m) && |PivotColumns(m, |m|)| == w
    requires |g| == w && IsBitVector(g)
    requires forall k :: 0 <= k < |m| ==> Dot(m[k], g) == 0
    ensures forall c :: 0 <= c < w ==> g[c] == 0
  {
    FullRankPairs(m, w);
    forall c | 0 <= c < w
      ensures g[c] == 0
    {
      UnitRow(m, w, ScanColumns(m, w, w).0, g, c);
    }
  }

  /** A square reduced matrix with a pivot in every column is the identity. */
  lemma FullRankIdentity(m: seq<seq<int>>, w: nat)
    requires Echelon(m, w) && IsBitMatrix(m) && |m| == w && |PivotColumns(m, |m|)| == w
    ensures forall t, c :: 0 <= t < w && 0 <= c < w ==> m[t][c] == if t == c then 1 else 0
  {
    FullRankPairs(m, w);
    var p := ScanColumns(m, w, w).0;
    forall t, c | 0 <= t < w && 0 <= c < w ensures m[t][c] == if t == c then 1 else 0 {
      assert p[t] == (t, t) && p[c] == (c, c);
    }
  }

  /** Every kernel vector of a reduced matrix is a 0/1 vector with a 1 at its
      free column, orthogonal to every row. */
  lemma EchelonKernel(m: seq<seq<int>>, w: nat, t: nat)
    requires Echelon(m, w) && IsBitMatrix(m) && t < |ScanColumns(m, w, w).1|
    ensures var v := KernelVector(m, w, ScanColumns(m, w, w).0, ScanColumns(m, w, w).1[t]);
      |v| == w && IsBitVector(v) && v[ScanColumns(m, w, w).1[t]] == 1
      && forall k :: 0 <= k < |m| ==> Dot(m[k], v) == 0
  {
    EchelonScan(m, w);
    KernelAnnihilates(m, w, ScanColumns(m, w, w).0, ScanColumns(m, w, w).1[t]);
  }

  /** Growing the point and monomial prefixes by one commutes with the logged
      row operations as `compute_next` assumes: the new column is the logged
      replay of the new monomial's column and the new point's row is untouched. */
  lemma EvaluationGrow(points: seq<string>, mons: seq<string>, n: nat, i: nat, ops: seq<Op>)
    requires Words(points, n) && Words(mons, n) && i < |points| && i < |mons| && OpsInRange(ops, i)
    ensures ReplayRows(ops, Evaluation(points[..i + 1], mons[..i + 1], n), i + 1)
         == Extend(ReplayRows(ops, Evaluation(points[..i], mons[..i], n), i),
                   Replay(ops, EvalColumn(points[..i], mons[i])), EvalRow(points[i], mons[..i + 1]))
  {
    var small := Evaluation(points[..i], mons[..i], n);
    var big := Evaluation(points[..i + 1], mons[..i + 1], n);
    var col := EvalColumn(points[..i], mons[i]);
    var row := EvalRow(points[i], mons[..i + 1]);
    forall k | 0 <= k < i
      ensures big[k] == small[k] + [col[k]]
    {
      assert big[k] == EvalRow(points[k], mons[..i + 1]);
      assert small[k] == EvalRow(points[k], mons[..i]);
    }
    assert big == Extend(small, col, row);
    ReplayExtend(ops, small, i, col, row);
  }

  /** The set of pairs in a list. */
  function PairSet(pairs: seq<Pair>): set<Pair>
  {
    set s | 0 <= s < |pairs| :: pairs[s]
  }

  /** `kernel` walks its `HashMap` of pivots in an unspecified order; any order
      of the same pairs gives the same kernel vector. */
  lemma KernelOrderIrrelevant(m: seq<seq<int>>, w: nat, pairs1: seq<Pair>, pairs2: seq<Pair>, f: nat)
    requires PivotPairs(m, w, pairs1) && PivotPairs(m, w, pairs2) && PairSet(pairs1) == PairSet(pairs2)
    requires FreeColumn(pairs1, w, f)
    ensures FreeColumn(pairs2, w, f)
    ensures KernelVector(m, w, pairs1, f) == KernelVector(m, w, pairs2, f)
  {
    forall t | 0 <= t < |pairs2|
      ensures pairs2[t].0 != f
    {
      assert pairs2[t] in PairSet(pairs1);
    }
    forall c | 0 <= c < w
      ensures Lookup(pairs1, c) == Lookup(pairs2, c)
    {
      LookupBySet(pairs1, pairs2, c);
      LookupBySet(pairs2, pairs1, c);
    }
    SolveClosedForm(m, w, pairs1, f, |pairs1|);
    SolveClosedForm(m, w, pairs2, f, |pairs2|);
    assert pairs1[..|pairs1|] == pairs1;
    assert pairs2[..|pairs2|] == pairs2;
  }

  /** With distinct columns, the lookup only depends on the set of pairs. */
  lemma LookupBySet(pairs1: seq<Pair>, pairs2: seq<Pair>, c: nat)
    requires PairSet(pairs1) == PairSet(pairs2)
    requires forall s, t :: 0 <= s < |pairs2| && 0 <= t < |pairs2| && s != t ==> pairs2[s].0 != pairs2[t].0
    ensures Lookup(pairs1, c).Some? ==> Lookup(pairs2, c) == Lookup(pairs1, c)
  {
    if Lookup(pairs1, c).Some? {
      var t1 :| 0 <= t1 < |pairs1| && pairs1[t1] == (c, Lookup(pairs1, c).value);
      assert pairs1[t1] in PairSet(pairs2);
      var t2 :| 0 <= t2 < |pairs2| && pairs2[t2] == pairs1[t1];
      var t3 :| 0 <= t3 < |pairs2| && pairs2[t3] == (c, Lookup(pairs2, c).value);
    }
  }

  class VanderMonde {
    var elements: seq<seq<int>>

    constructor (elements: seq<seq<int>>)
      ensures this.elements == elements
    {
      this.elements := elements;
    }

    function NRows(): nat
      reads this
    {
      |elements|
    }

    /** The length of the first row: the common row length of a rectangular matrix. */
    function NCols(): (c: nat)
      reads this
      ensures elements == [] ==> c == 0
      ensures elements != [] && Rect(elements, |elements[0]|) ==> Rect(elements, c)
    {
      if elements != [] then |elements[0]| else 0
    }

    method SwapRows(row1: nat, row2: nat)
      requires row1 < |elements| && row2 < |elements|
      modifies this
      ensures elements == old(elements)[row1 := old(elements)[row2]][row2 := old(elements)[row1]]
    {
      elements := elements[row1 := elements[row2]][row2 := elements[row1]];
    }

    /** `get_pivot`: the position of the first 1 in the row, if any. */
    static function GetPivot(row: seq<int>): (p: Option<nat>)
      ensures p.Some? ==> p.value < |row| && row[p.value] == 1
      ensures p.Some? ==> forall k :: 0 <= k < p.value ==> row[k] != 1
      ensures p.None? ==> forall k :: 0 <= k < |row| ==> row[k] != 1
      decreases |row|
    {
      if |row| == 0 then None
      else if row[0] == 1 then Some(0)
      else match GetPivot(row[1..])
        case None => None
        case Some(q) => Some(q + 1)
    }

    /** The inner loop of the elimination (lines 68-70): row `target` gets row `source` added, mod 2. */
    method AddRowInto(target: nat, source: nat, ghost w: nat)
      requires target < |elements| && source < |elements| && target != source
      requires Rect(elements, w)
      modifies this
      ensures elements == RowStep(old(elements), (target, source))
    {
      ghost var before := elements;
      var cols := |elements[target]|;
      for j := 0 to cols
        invariant |elements| == |before|
        invariant forall k :: 0 <= k < |elements| && k != target ==> elements[k] == before[k]
        invariant |elements[target]| == cols
        invariant forall c :: 0 <= c < j ==> elements[target][c] == (before[target][c] + before[source][c]) % 2
        invariant forall c :: j <= c < cols ==> elements[target][c] == before[target][c]
      {
        elements := elements[target := elements[target][j := (elements[target][j] + elements[source][j]) % 2]];
      }
      assert elements[target] == AddRows(before[target], before[source]);
    }

    /** The elimination loop (lines 66-73): every other row with a 1 in column
        `lead` gets row `r` added, each addition logged as `(i, r)`. */
    method EliminateColumn(r: nat, lead: nat, ghost w: nat) returns (ops: seq<Op>)
      requires r < |elements| && lead < w && Rect(elements, w) && IsBitMatrix(elements)
      requires forall c :: 0 <= c < lead ==> elements[r][c] == 0
      requires elements[r][lead] == 1
      modifies this
      ensures Eliminated(old(elements), elements, w, r, lead, ops)
      ensures ops == EliminationLog(old(elements), w, r, lead, |old(elements)|)
    {
      ghost var before := elements;
      var rows := |elements|;
      ops := [];
      for i: nat := 0 to rows
        invariant Eliminating(before, elements, w, r, lead, i, ops)
        invariant ops == EliminationLog(before, w, r, lead, i)
      {
        assert elements[i] == before[i];
        if i != r && elements[i][lead] == 1 {
          ghost var prev := elements;
          AddRowInto(i, r, w);
          EliminationAdvance(before, prev, elements, w, r, lead, i, ops);
          EliminationLogStep(before, w, r, lead, i);
          ops := ops + [(i, r)];
        } else {
          EliminationSkip(before, elements, w, r, lead, i, ops);
          EliminationLogStep(before, w, r, lead, i);
        }
      }
    }

    /** The pivot search (lines 49-59): from column `lead0` on, the first
        column with a 1 in some row at or below `r`, and the first such row;
        `found` is false when the columns run out first. */
    method FindPivotRow(r: nat, lead0: nat, ghost w: nat) returns (i: nat, lead: nat, found: bool)
      requires r < |elements| && lead0 < w && Rect(elements, w)
      ensures lead0 <= lead <= w
      ensures forall k, c :: r <= k < |elements| && lead0 <= c < lead ==> elements[k][c] == 0
      ensures found ==> lead < w && r <= i < |elements| && elements[i][lead] != 0
      ensures found ==> forall k :: r <= k < i ==> elements[k][lead] == 0
      ensures !found ==> lead == w
    {
      var rows := |elements|;
      var cols := |elements[r]|;
      lead := lead0;
      i := r;
      while elements[i][lead] == 0
        invariant r <= i < rows && lead0 <= lead < w && cols == w
        invariant forall k, c :: r <= k < rows && lead0 <= c < lead ==> elements[k][c] == 0
        invariant forall k :: r <= k < i ==> elements[k][lead] == 0
        decreases w - lead, rows - i
      {
        i := i + 1;
        if i == rows {
          i := r;
          lead := lead + 1;
          if lead == cols {
            return i, lead, false;
          }
        }
      }
      found := true;
    }

    /** The swap and its log (lines 60-65): rows `r` and `i` trade places and,
        when they differ, the swap is logged as three additions. */
    method SwapLogged(r: nat, i: nat, ghost w: nat) returns (ops: seq<Op>)
      requires r < |elements| && i < |elements| && Rect(elements, w) && IsBitMatrix(elements)
      modifies this
      ensures elements == old(elements)[r := old(elements)[i]][i := old(elements)[r]]
      ensures ops == if r != i then [(r, i), (i, r), (r, i)] else []
      ensures OpsInRange(ops, |elements|) && OpsDistinct(ops)
      ensures elements == ReplayRows(ops, old(elements), w)
    {
      ghost var e0 := elements;
      SwapRows(r, i);
      if r != i {
        SwapTripleRows(e0, w, r, i);
        ops := [(r, i), (i, r), (r, i)];
      } else {
        ops := [];
        assert elements == e0;
      }
    }

    /** One round of the outer loop (lines 46-74) on a matrix whose first `r`
        rows already hold the pivots `piv`: find the next pivot, swap it up
        to row `r` and clear its column. `found` is false when no column from
        `lead0` on has a 1 at or below row `r`; the matrix is then untouched. */
    method ReduceRow(r: nat, lead0: nat, ghost w: nat, ghost piv: seq<nat>,
                     ghost orig: seq<seq<int>>, ghost prior: seq<Op>, ghost isReduced: bool)
      returns (lead: nat, found: bool, ops: seq<Op>)
      requires r == |piv| < |elements| && lead0 < w
      requires Reduction(orig, elements, w, piv, lead0, prior, isReduced)
      requires isReduced ==> Echelon(orig, w)
      modifies this
      ensures found ==> lead < w && Reduction(orig, elements, w, piv + [lead], lead + 1, prior + ops, isReduced)
      ensures !found ==> lead == w && ops == [] && elements == old(elements)
      ensures !found ==> Reduction(orig, elements, w, piv, w, prior, isReduced)
    {
      ghost var start := elements;
      var i;
      i, lead, found := FindPivotRow(r, lead0, w);
      if !found {
        ops := [];
        ReductionExhausted(orig, start, w, piv, lead0, prior, isReduced);
        return;
      }
      SwapReady(start, w, piv, lead0, lead, i);
      var swaps := SwapLogged(r, i, w);
      ghost var swapped := elements;
      var elim := EliminateColumn(r, lead, w);
      RoundComplete(orig, start, swapped, elements, w, piv, lead0, lead, i, prior, swaps, elim, isReduced);
      ops := swaps + elim;
    }

    /** `row_echelon_form`: Gauss-Jordan elimination over GF(2) on a copy.
        The copy is reduced, and replaying the returned log on the rows of
        this matrix gives the copy exactly; a matrix already reduced comes
        back unchanged with an empty log. */
    method RowEchelonForm() returns (reduced: VanderMonde, operations: seq<Op>)
      requires Rect(elements, NCols()) && IsBitMatrix(elements)
      ensures fresh(reduced)
      ensures |reduced.elements| == |elements| && Rect(reduced.elements, NCols()) && IsBitMatrix(reduced.elements)
      ensures OpsInRange(operations, |elements|) && OpsDistinct(operations)
      ensures reduced.elements == ReplayRows(operations, elements, NCols())
      ensures Echelon(reduced.elements, NCols())
      ensures Echelon(elements, NCols()) ==> operations == [] && reduced.elements == elements
    {
      reduced := new VanderMonde(elements);
      var rows := reduced.NRows();
      var cols := reduced.NCols();
      operations := [];
      var lead: nat := 0;
      ghost var piv: seq<nat> := [];
      ghost var wasReduced := Echelon(elements, cols);
      ReductionStart(elements, cols);

      var r: nat := 0;
      while r < rows
        invariant r == |piv| <= rows
        invariant Reduction(elements, reduced.elements, cols, piv, lead, operations, wasReduced)
      {
        if lead >= cols {
          break;
        }
        var found, ops;
        lead, found, ops := reduced.ReduceRow(r, lead, cols, piv, elements, operations, wasReduced);
        if !found {
          break;
        }
        operations := operations + ops;
        piv := piv + [lead];
        lead := lead + 1;
        r := r + 1;
      }
      ReductionDone(elements, reduced.elements, cols, piv, lead, operations, wasReduced);
    }

    /** `append_row`: the row goes below the others. */
    method AppendRow(v: seq<int>)
      modifies this
      ensures elements == old(elements) + [v]
    {
      elements := elements + [v];
    }

    /** `append_column`: entry `k` of `v` goes at the end of row `k`, for every row. */
    method AppendColumn(v: seq<int>)
      requires |v| >= |elements|
      modifies this
      ensures |elements| == |old(elements)|
      ensures forall k :: 0 <= k < |elements| ==> elements[k] == old(elements)[k] + [v[k]]
    {
      ghost var before := elements;
      for i := 0 to |elements|
        invariant |elements| == |before|
        invariant forall k :: 0 <= k < i ==> elements[k] == before[k] + [v[k]]
        invariant forall k :: i <= k < |elements| ==> elements[k] == before[k]
      {
        elements := elements[i := elements[i] + [v[i]]];
      }
    }

    /** `rank`: the number of distinct leading-1 columns, which is at most the
        number of rows and, for a rectangular matrix, at most the number of columns. */
    method Rank() returns (count: nat)
      ensures count == |PivotColumns(elements, |elements|)|
      ensures count <= |elements|
      ensures forall w :: Rect(elements, w) ==> count <= w
    {
      count := 0;
      var pivotColumns: set<nat> := {};
      for i := 0 to NRows()
        invariant pivotColumns == PivotColumns(elements, i) && count == |pivotColumns|
      {
        var p := GetPivot(elements[i]);
        PivotColumnsStep(elements, i);
        if p.Some? {
          if p.value !in pivotColumns {
            pivotColumns := pivotColumns + {p.value};
            count := count + 1;
          }
        }
      }
      PivotColumnsCount(elements);
    }

    /** `kernel`: the column scan, then one vector per free column. */
    method Kernel() returns (kernelBase: seq<seq<int>>)
      requires Rect(elements, NCols()) && IsBitMatrix(elements)
      ensures |kernelBase| == |ScanColumns(elements, NCols(), NCols()).1|
      ensures forall t :: 0 <= t < |kernelBase| ==>
                kernelBase[t] == KernelVector(elements, NCols(), ScanColumns(elements, NCols(), NCols()).0,
                                              ScanColumns(elements, NCols(), NCols()).1[t])
    {
      var m := elements;
      var rows := NRows();
      var cols := NCols();
      var pivots, freeColumns := ScanPivots(m, rows, cols);
      kernelBase := [];
      for t: nat := 0 to |freeColumns|
        invariant |kernelBase| == t
        invariant forall u :: 0 <= u < t ==> kernelBase[u] == KernelVector(m, cols, pivots, freeColumns[u])
      {
        var kernelVector := SolveFreeColumn(m, cols, pivots, freeColumns[t]);
        kernelBase := kernelBase + [kernelVector];
      }
    }

    /** `compute_next`: a copy grown by one column and one row.  The new
        column holds monomial `monomSlice[last]` at the first `idx` points,
        put through the logged row operations; the new row holds the first
        `idx + 1` monomials at point `supportSlice[last]`. */
    method ComputeNext(monomSlice: seq<string>, supportSlice: seq<string>, idx: nat, operations: seq<Op>, ghost n: nat)
      returns (next: VanderMonde)
      requires Words(monomSlice, n) && Words(supportSlice, n)
      requires idx < |monomSlice| && 0 < |supportSlice| && idx <= |supportSlice|
      requires OpsInRange(operations, idx) && |elements| <= idx
      ensures fresh(next)
      ensures next.elements == Extend(elements,
                Replay(operations, EvalColumn(supportSlice[..idx], monomSlice[|monomSlice| - 1]))[..|elements|],
                EvalRow(supportSlice[|supportSlice| - 1], monomSlice[..idx + 1]))
    {
      var last := supportSlice[|supportSlice| - 1];
      var mon := monomSlice[|monomSlice| - 1];
      WordsZipped(last, monomSlice[..idx + 1]);
      var row := seq(idx + 1, i requires 0 <= i <= idx => StrOps(last, monomSlice[i]));
      WordsZipped(mon, supportSlice[..idx]);
      var column := seq(idx, i requires 0 <= i < idx => StrOps(supportSlice[i], mon));
      assert column == EvalColumn(supportSlice[..idx], mon);
      assert row == EvalRow(last, monomSlice[..idx + 1]);
      var nVect := ApplyOperations(operations, column);
      next := new VanderMonde(elements);
      next.AppendColumn(nVect);
      next.AppendRow(row);
    }

    /** `fill_rows`: a copy with one row below for each support point, holding
        the values of the monomials at that point. */
    method FillRows(supportSlice: seq<string>, monomSlice: seq<string>, ghost n: nat) returns (next: VanderMonde)
      requires Words(supportSlice, n) && Words(monomSlice, n)
      ensures fresh(next)
      ensures next.elements == elements + Evaluation(supportSlice, monomSlice, n)
    {
      next := new VanderMonde(elements);
      for j := 0 to |supportSlice|
        invariant next.elements == elements + Evaluation(supportSlice[..j], monomSlice, n)
      {
        WordsZipped(supportSlice[j], monomSlice);
        var row := seq(|monomSlice|, i requires 0 <= i < |monomSlice| => StrOps(supportSlice[j], monomSlice[i]));
        assert Evaluation(supportSlice[..j + 1], monomSlice, n)
            == Evaluation(supportSlice[..j], monomSlice, n) + [row];
        next.AppendRow(row);
      }
      assert supportSlice[..|supportSlice|] == supportSlice;
    }
  }
}
