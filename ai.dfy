/** The algebraic-immunity search of src/ai.rs: the truth table split into
    its one-set and zero-set points, the monomials of bounded degree in
    enumeration order, the incremental annihilator search, and the final
    minimum over the two searches. */
module Ai {
  import opened Gf2
  import opened Vandermonde

  /** A value of the truth table (`u8`). */
  type Byte = b: int | 0 <= b < 256

  /** A result, or the panic that an out-of-range slice raises. */
  datatype Outcome<T> = Ok(value: T) | Panic

  // ---------------------------------------------------------------------
  // hamming_weight

  /** `hamming_weight`: the number of '1' characters of `word`. */
  function HammingWeight(word: string): (r: nat)
    ensures r <= |word|
    ensures r == 0 <==> forall k :: 0 <= k < |word| ==> word[k] != '1'
    decreases |word|
  {
    if |word| == 0 then 0
    else HammingWeight(word[..|word| - 1]) + (if word[|word| - 1] == '1' then 1 else 0)
  }

  /** Setting one character that is not yet '1' to '1' adds one to the weight. */
  lemma {:induction false} HammingWeightSet(word: string, q: nat)
    requires q < |word| && word[q] != '1'
    ensures HammingWeight(word[q := '1']) == HammingWeight(word) + 1
    decreases |word|
  {
    var set1 := word[q := '1'];
    var last := |word| - 1;
    var init := word[..last];
    assert HammingWeight(word) == HammingWeight(init) + (if word[last] == '1' then 1 else 0);
    if q < last {
      assert set1[..last] == init[q := '1'];
      assert HammingWeight(set1) == HammingWeight(init[q := '1']) + (if word[last] == '1' then 1 else 0);
      HammingWeightSet(init, q);
    } else {
      assert set1[..last] == init;
      assert HammingWeight(set1) == HammingWeight(init) + 1;
    }
  }

  /** The weight of a concatenation is the sum of the weights. */
  lemma {:induction false} HammingWeightConcat(a: string, b: string)
    ensures HammingWeight(a + b) == HammingWeight(a) + HammingWeight(b)
    decreases |b|
  {
    if |b| > 0 {
      var last := |b| - 1;
      assert (a + b)[..|a + b| - 1] == a + b[..last];
      HammingWeightConcat(a, b[..last]);
    } else {
      assert a + b == a;
    }
  }

  // ---------------------------------------------------------------------
  // compute_z: binary rendering and the partition of the truth table

  function Digit(one: bool): char { if one then '1' else '0' }

  /** The binary digits of `i`, most significant first, with no leading
      zero ("0" for zero): what the `b` format of a `usize` writes. */
  function Binary(i: nat): (s: string)
    ensures 1 <= |s| && IsBinaryString(s)
    decreases i
  {
    if i < 2 then [Digit(i == 1)] else Binary(i / 2) + [Digit(i % 2 == 1)]
  }

  /** `format!("{:0width$b}", i, width = n)`: the digits of `i` padded on the
      left with '0' up to `width` characters, and never truncated. */
  function ZeroPadded(i: nat, width: nat): (s: string)
    ensures IsBinaryString(s)
  {
    var digits := Binary(i);
    if |digits| < width then seq(width - |digits|, _ => '0') + digits else digits
  }

  /** The number a binary string stands for, most significant digit first. */
  function Value(s: string): nat
    decreases |s|
  {
    if |s| == 0 then 0 else 2 * Value(s[..|s| - 1]) + (if s[|s| - 1] == '1' then 1 else 0)
  }

  lemma {:induction false} BinaryValue(i: nat)
    ensures Value(Binary(i)) == i
    decreases i
  {
    if i >= 2 {
      var s := Binary(i);
      assert s[..|s| - 1] == Binary(i / 2);
      BinaryValue(i / 2);
    }
  }

  lemma {:induction false} ZerosValue(k: nat)
    ensures Value(seq(k, _ => '0')) == 0
  {
    if k > 0 {
      assert seq(k, _ => '0')[..k - 1] == seq(k - 1, _ => '0');
      ZerosValue(k - 1);
    }
  }

  lemma {:induction false} LeadingZerosValue(k: nat, s: string)
    ensures Value(seq(k, _ => '0') + s) == Value(s)
    decreases |s|
  {
    var zeros := seq(k, _ => '0');
    if |s| == 0 {
      assert zeros + s == zeros;
      ZerosValue(k);
    } else {
      var t := zeros + s;
      assert t[..|t| - 1] == zeros + s[..|s| - 1];
      LeadingZerosValue(k, s[..|s| - 1]);
    }
  }

  /** Reading back the padded rendering gives the index: no two indices share a string. */
  lemma ZeroPaddedValue(i: nat, width: nat)
    ensures Value(ZeroPadded(i, width)) == i
  {
    BinaryValue(i);
    var digits := Binary(i);
    if |digits| < width {
      LeadingZerosValue(width - |digits|, digits);
    }
  }

  lemma {:induction false} BinaryWidth(i: nat, width: nat)
    requires 1 <= width && i < Pow(2, width)
    ensures |Binary(i)| <= width
    decreases i
  {
    if i >= 2 {
      assert Pow(2, 1) == 2;
      assert width >= 2;
      assert Pow(2, width) == 2 * Pow(2, width - 1);
      BinaryWidth(i / 2, width - 1);
    }
  }

  /** Below `2^width` (and for a positive width) the rendering has exactly `width` characters. */
  lemma ZeroPaddedWidth(i: nat, width: nat)
    requires 1 <= width && i < Pow(2, width)
    ensures |ZeroPadded(i, width)| == width
  {
    BinaryWidth(i, width);
  }

  /** `compute_z` over the first `k` entries: the renderings of the indices
      whose value is 1, and of the others, each list in index order. */
  function Partition(table: seq<Byte>, n: nat, k: nat): (r: (seq<string>, seq<string>))
    requires k <= |table|
    ensures |r.0| + |r.1| == k
  {
    if k == 0 then ([], [])
    else
      var prev := Partition(table, n, k - 1);
      var s := ZeroPadded(k - 1, n);
      if table[k - 1] == 1 then (prev.0 + [s], prev.1) else (prev.0, prev.1 + [s])
  }

  /** Each string of `xs` stands for an index below `k` whose entry is 1
      exactly when `one` holds, and the indices ascend strictly. */
  predicate Listed(xs: seq<string>, table: seq<Byte>, k: nat, one: bool)
    requires k <= |table|
  {
    && (forall a :: 0 <= a < |xs| ==> Value(xs[a]) < k && (table[Value(xs[a])] == 1) == one)
    && (forall a, b :: 0 <= a < b < |xs| ==> Value(xs[a]) < Value(xs[b]))
  }

  lemma ListedAppend(xs: seq<string>, table: seq<Byte>, k: nat, one: bool, s: string)
    requires 0 < k <= |table| && Listed(xs, table, k - 1, one)
    requires Value(s) == k - 1 && (table[k - 1] == 1) == one
    ensures Listed(xs + [s], table, k, one)
  {
    var ys := xs + [s];
    forall a | 0 <= a < |ys| ensures Value(ys[a]) < k && (table[Value(ys[a])] == 1) == one {
      if a < |xs| { assert ys[a] == xs[a]; }
    }
    forall a, b | 0 <= a < b < |ys| ensures Value(ys[a]) < Value(ys[b]) {
      assert ys[a] == xs[a];
      if b < |xs| { assert ys[b] == xs[b]; }
    }
  }

  lemma ListedWiden(xs: seq<string>, table: seq<Byte>, k: nat, one: bool)
    requires 0 < k <= |table| && Listed(xs, table, k - 1, one)
    ensures Listed(xs, table, k, one)
  {
  }

  /** One step of `compute_z` keeps both lists sound. */
  lemma PartitionStepSound(table: seq<Byte>, n: nat, k: nat, ones: seq<string>, zeros: seq<string>)
    requires 0 < k <= |table| && Listed(ones, table, k - 1, true) && Listed(zeros, table, k - 1, false)
    ensures table[k - 1] == 1 ==> Listed(ones + [ZeroPadded(k - 1, n)], table, k, true) && Listed(zeros, table, k, false)
    ensures table[k - 1] != 1 ==> Listed(ones, table, k, true) && Listed(zeros + [ZeroPadded(k - 1, n)], table, k, false)
  {
    ZeroPaddedValue(k - 1, n);
    if table[k - 1] == 1 {
      ListedAppend(ones, table, k, true, ZeroPadded(k - 1, n));
      ListedWiden(zeros, table, k, false);
    } else {
      ListedWiden(ones, table, k, true);
      ListedAppend(zeros, table, k, false, ZeroPadded(k - 1, n));
    }
  }

  /** Every string of the first list stands for an index below `k` holding 1,
      every string of the second for one holding something else, and both
      lists are strictly ascending. */
  lemma {:induction false} PartitionSound(table: seq<Byte>, n: nat, k: nat)
    requires k <= |table|
    ensures Listed(Partition(table, n, k).0, table, k, true)
    ensures Listed(Partition(table, n, k).1, table, k, false)
  {
    if k > 0 {
      var prev := Partition(table, n, k - 1);
      PartitionSound(table, n, k - 1);
      PartitionStepSound(table, n, k, prev.0, prev.1);
    }
  }

  /** Every index below `k` is rendered into the list its value selects. */
  lemma {:induction false} PartitionComplete(table: seq<Byte>, n: nat, k: nat)
    requires k <= |table|
    ensures var r := Partition(table, n, k);
      forall i :: 0 <= i < k ==>
        (table[i] == 1 ==> ZeroPadded(i, n) in r.0) && (table[i] != 1 ==> ZeroPadded(i, n) in r.1)
  {
    if k > 0 {
      PartitionComplete(table, n, k - 1);
    }
  }

  /** For a table of at most `2^n` entries, every string is an `n`-digit 0/1 string. */
  lemma {:induction false} PartitionWords(table: seq<Byte>, n: nat, k: nat)
    requires k <= |table| <= Pow(2, n) && 1 <= n
    ensures Words(Partition(table, n, k).0, n) && Words(Partition(table, n, k).1, n)
  {
    if k > 0 {
      var i := k - 1;
      PartitionWords(table, n, i);
      var prev := Partition(table, n, i);
      var s := ZeroPadded(i, n);
      ZeroPaddedWidth(i, n);
      WordsAppend(prev.0, s, n);
      WordsAppend(prev.1, s, n);
      assert Partition(table, n, k) == if table[i] == 1 then (prev.0 + [s], prev.1) else (prev.0, prev.1 + [s]);
    }
  }

  /** One more n-digit 0/1 string keeps a list of them. */
  lemma WordsAppend(xs: seq<string>, s: string, n: nat)
    requires Words(xs, n) && |s| == n && IsBinaryString(s)
    ensures Words(xs + [s], n)
  {
    assert forall k :: 0 <= k < |xs| ==> (xs + [s])[k] == xs[k];
  }

  /** The first list is empty iff no entry is 1; the second iff every entry is 1. */
  lemma {:induction false} PartitionEmpty(table: seq<Byte>, n: nat, k: nat)
    requires k <= |table|
    ensures |Partition(table, n, k).0| == 0 <==> forall i :: 0 <= i < k ==> table[i] != 1
    ensures |Partition(table, n, k).1| == 0 <==> forall i :: 0 <= i < k ==> table[i] == 1
  {
    if k > 0 {
      PartitionEmpty(table, n, k - 1);
    }
  }

  // ---------------------------------------------------------------------
  // generate_combinations

  /** Every listed combination with `x` put in front. */
  function PrependAll(x: nat, cs: seq<seq<nat>>): seq<seq<nat>>
  {
    seq(|cs|, i requires 0 <= i < |cs| => [x] + cs[i])
  }

  /** The `k`-element subsets of `lo..n` as increasing lists, in
      lexicographic order: the sequence `(lo..n).combinations(k)` yields. */
  function Combinations(lo: nat, n: nat, k: nat): seq<seq<nat>>
    decreases n - lo
  {
    if k == 0 then [[]]
    else if lo >= n then []
    else PrependAll(lo, Combinations(lo + 1, n, k - 1)) + Combinations(lo + 1, n, k)
  }

  /** An increasing list of positions in `lo..n`. */
  predicate IsCombination(c: seq<nat>, lo: nat, n: nat)
  {
    && (forall i :: 0 <= i < |c| ==> lo <= c[i] < n)
    && (forall i, j :: 0 <= i < j < |c| ==> c[i] < c[j])
  }

  /** Lexicographic order on lists of positions. */
  predicate LexLess(a: seq<nat>, b: seq<nat>)
    decreases |a|
  {
    |a| > 0 && |b| > 0 && (a[0] < b[0] || (a[0] == b[0] && LexLess(a[1..], b[1..])))
  }

  function Binomial(m: nat, k: nat): nat
  {
    if k == 0 then 1 else if m == 0 then 0 else Binomial(m - 1, k - 1) + Binomial(m - 1, k)
  }

  /** Every listed subset has `k` elements, all in `lo..n`, increasing. */
  lemma {:induction false} CombinationsSound(lo: nat, n: nat, k: nat)
    ensures forall i :: 0 <= i < |Combinations(lo, n, k)| ==>
      |Combinations(lo, n, k)[i]| == k && IsCombination(Combinations(lo, n, k)[i], lo, n)
    decreases n - lo
  {
    if k > 0 && lo < n {
      CombinationsSound(lo + 1, n, k - 1);
      CombinationsSound(lo + 1, n, k);
    }
  }

  /** Every increasing list of positions in `lo..n` is listed. */
  lemma {:induction false} CombinationsComplete(c: seq<nat>, lo: nat, n: nat)
    requires IsCombination(c, lo, n)
    ensures c in Combinations(lo, n, |c|)
    decreases n - lo
  {
    if |c| > 0 {
      assert lo <= c[0] < n;
      var rest := Combinations(lo + 1, n, |c| - 1);
      var tail := Combinations(lo + 1, n, |c|);
      assert Combinations(lo, n, |c|) == PrependAll(lo, rest) + tail;
      if c[0] == lo {
        assert IsCombination(c[1..], lo + 1, n) by {
          forall i | 0 <= i < |c| - 1 ensures lo + 1 <= c[1..][i] { assert c[0] < c[i + 1]; }
        }
        CombinationsComplete(c[1..], lo + 1, n);
        var t :| 0 <= t < |rest| && rest[t] == c[1..];
        assert PrependAll(lo, rest)[t] == c;
      } else {
        assert IsCombination(c, lo + 1, n) by {
          forall i | 0 <= i < |c| ensures lo + 1 <= c[i] { if i > 0 { assert c[0] < c[i]; } }
        }
        CombinationsComplete(c, lo + 1, n);
        assert c in tail;
      }
    }
  }

  /** There are `C(n - lo, k)` of them. */
  lemma {:induction false} CombinationsCount(lo: nat, n: nat, k: nat)
    ensures |Combinations(lo, n, k)| == Binomial(if lo < n then n - lo else 0, k)
    decreases n - lo
  {
    if k > 0 && lo < n {
      CombinationsCount(lo + 1, n, k - 1);
      CombinationsCount(lo + 1, n, k);
    }
  }

  /** Each list is lexicographically smaller than every later one. */
  lemma {:induction false} CombinationsOrdered(lo: nat, n: nat, k: nat)
    ensures forall i, j :: 0 <= i < j < |Combinations(lo, n, k)| ==>
      LexLess(Combinations(lo, n, k)[i], Combinations(lo, n, k)[j])
    decreases n - lo
  {
    if k > 0 && lo < n {
      var head := Combinations(lo + 1, n, k - 1);
      var tail := Combinations(lo + 1, n, k);
      var all := Combinations(lo, n, k);
      CombinationsOrdered(lo + 1, n, k - 1);
      CombinationsOrdered(lo + 1, n, k);
      CombinationsSound(lo + 1, n, k);
      forall i, j | 0 <= i < j < |all| ensures LexLess(all[i], all[j]) {
        if j < |head| {
          assert all[i] == [lo] + head[i] && all[j] == [lo] + head[j];
          assert all[i][1..] == head[i] && all[j][1..] == head[j];
        } else if i < |head| {
          assert all[i] == [lo] + head[i];
          assert all[j] == tail[j - |head|];
          assert all[j][0] >= lo + 1;
        } else {
          assert all[i] == tail[i - |head|] && all[j] == tail[j - |head|];
        }
      }
    }
  }

  lemma {:induction false} LexIrreflexive(a: seq<nat>)
    ensures !LexLess(a, a)
    decreases |a|
  {
    if |a| > 0 {
      LexIrreflexive(a[1..]);
    }
  }

  /** The monomial string of a set of positions: position `p` is character
      `n - 1 - p`, because the string is reversed after the positions are set. */
  function MonomialOf(c: seq<nat>, n: nat): (s: string)
    ensures |s| == n && IsBinaryString(s)
  {
    seq(n, q requires 0 <= q < n => if n - 1 - q in c then '1' else '0')
  }

  /** The string of an increasing list is the string of all but its last
      position with that position, not yet set, set to '1'. */
  lemma MonomialSnoc(c: seq<nat>, n: nat)
    requires IsCombination(c, 0, n) && |c| > 0
    ensures IsCombination(c[..|c| - 1], 0, n)
    ensures MonomialOf(c[..|c| - 1], n)[n - 1 - c[|c| - 1]] != '1'
    ensures MonomialOf(c, n) == MonomialOf(c[..|c| - 1], n)[n - 1 - c[|c| - 1] := '1']
  {
    var init := c[..|c| - 1];
    var x := c[|c| - 1];
    forall t | 0 <= t < |init| ensures init[t] != x {
      assert c[t] < c[|c| - 1];
    }
    forall q | 0 <= q < n
      ensures MonomialOf(c, n)[q] == MonomialOf(init, n)[n - 1 - x := '1'][q]
    {
      assert (n - 1 - q in c) <==> (n - 1 - q in init || n - 1 - q == x);
    }
  }

  /** The weight of the string of an increasing list is its length. */
  lemma {:induction false} MonomialWeight(c: seq<nat>, n: nat)
    requires IsCombination(c, 0, n)
    ensures HammingWeight(MonomialOf(c, n)) == |c|
    decreases |c|
  {
    if |c| == 0 {
      assert HammingWeight(MonomialOf(c, n)) == 0;
    } else {
      var init := c[..|c| - 1];
      MonomialSnoc(c, n);
      MonomialWeight(init, n);
      HammingWeightSet(MonomialOf(init, n), n - 1 - c[|c| - 1]);
    }
  }

  lemma HeadIsMember(b: seq<nat>)
    ensures |b| > 0 ==> b[0] in b
  {
  }

  /** Increasing lists with the same elements are equal. */
  lemma {:induction false} IncreasingUnique(a: seq<nat>, b: seq<nat>)
    requires forall i, j :: 0 <= i < j < |a| ==> a[i] < a[j]
    requires forall i, j :: 0 <= i < j < |b| ==> b[i] < b[j]
    requires forall x :: x in a <==> x in b
    ensures a == b
    decreases |a|
  {
    if |a| == 0 {
      if |b| > 0 {
        HeadIsMember(b);
        assert false;
      }
    } else {
      assert a[0] in b && b[0] in a;
      assert a[0] == b[0] by {
        var s :| 0 <= s < |b| && b[s] == a[0];
        var t :| 0 <= t < |a| && a[t] == b[0];
        assert b[0] <= b[s] && a[0] <= a[t];
      }
      forall x
        ensures x in a[1..] <==> x in b[1..]
      {
        if x in a[1..] {
          var t :| 0 <= t < |a[1..]| && a[1..][t] == x;
          assert a[t + 1] > a[0];
          assert x in b;
        }
        if x in b[1..] {
          var t :| 0 <= t < |b[1..]| && b[1..][t] == x;
          assert b[t + 1] > b[0];
          assert x in a;
        }
      }
      IncreasingUnique(a[1..], b[1..]);
    }
  }

  /** Different subsets give different strings. */
  lemma MonomialInjective(a: seq<nat>, b: seq<nat>, n: nat)
    requires IsCombination(a, 0, n) && IsCombination(b, 0, n)
    requires MonomialOf(a, n) == MonomialOf(b, n)
    ensures a == b
  {
    forall x
      ensures x in a <==> x in b
    {
      if x in a || x in b {
        assert 0 <= x < n;
        assert MonomialOf(a, n)[n - 1 - x] == MonomialOf(b, n)[n - 1 - x];
      }
    }
    IncreasingUnique(a, b);
  }

  /** The strings of weight `k`, in the order of their subsets. */
  function Block(n: nat, k: nat): (b: seq<string>)
    ensures |b| == |Combinations(0, n, k)|
  {
    seq(|Combinations(0, n, k)|, i requires 0 <= i < |Combinations(0, n, k)| => MonomialOf(Combinations(0, n, k)[i], n))
  }

  /** The blocks of weights `0 .. j - 1`, one after the other. */
  function Layers(n: nat, j: nat): seq<string>
  {
    if j == 0 then [] else Layers(n, j - 1) + Block(n, j - 1)
  }

  /** Every string of block `k` has weight `k`. */
  lemma BlockWeight(n: nat, k: nat)
    ensures forall t :: 0 <= t < |Block(n, k)| ==> HammingWeight(Block(n, k)[t]) == k
  {
    CombinationsSound(0, n, k);
    forall t | 0 <= t < |Block(n, k)| ensures HammingWeight(Block(n, k)[t]) == k {
      MonomialWeight(Combinations(0, n, k)[t], n);
    }
  }

  /** No string repeats within a block. */
  lemma BlockDistinct(n: nat, k: nat)
    ensures forall s, t :: 0 <= s < t < |Block(n, k)| ==> Block(n, k)[s] != Block(n, k)[t]
  {
    var cs := Combinations(0, n, k);
    CombinationsSound(0, n, k);
    CombinationsOrdered(0, n, k);
    forall s, t | 0 <= s < t < |Block(n, k)| ensures Block(n, k)[s] != Block(n, k)[t] {
      if Block(n, k)[s] == Block(n, k)[t] {
        MonomialInjective(cs[s], cs[t], n);
        LexIrreflexive(cs[s]);
      }
    }
  }

  /** All strings are `n`-digit 0/1 strings; weights stay below `j` and never
      decrease along the list. */
  lemma {:induction false} LayersWeights(n: nat, j: nat)
    ensures Words(Layers(n, j), n)
    ensures forall t :: 0 <= t < |Layers(n, j)| ==> HammingWeight(Layers(n, j)[t]) < j
    ensures forall s, t :: 0 <= s <= t < |Layers(n, j)| ==>
      HammingWeight(Layers(n, j)[s]) <= HammingWeight(Layers(n, j)[t])
  {
    if j > 0 {
      LayersWeights(n, j - 1);
      BlockWeight(n, j - 1);
      var prev := Layers(n, j - 1);
      var l := Layers(n, j);
      forall t | 0 <= t < |l| ensures HammingWeight(l[t]) < j && (t < |prev| ==> HammingWeight(l[t]) < j - 1)
                                     && (t >= |prev| ==> HammingWeight(l[t]) == j - 1) {
        if t < |prev| { assert l[t] == prev[t]; } else { assert l[t] == Block(n, j - 1)[t - |prev|]; }
      }
    }
  }

  /** No string is listed twice. */
  lemma {:induction false} LayersDistinct(n: nat, j: nat)
    ensures forall s, t :: 0 <= s < t < |Layers(n, j)| ==> Layers(n, j)[s] != Layers(n, j)[t]
  {
    if j > 0 {
      LayersDistinct(n, j - 1);
      LayersWeights(n, j - 1);
      BlockWeight(n, j - 1);
      BlockDistinct(n, j - 1);
      var prev := Layers(n, j - 1);
      var block := Block(n, j - 1);
      var l := Layers(n, j);
      forall s, t | 0 <= s < t < |l| ensures l[s] != l[t] {
        if t < |prev| {
          assert l[s] == prev[s] && l[t] == prev[t];
        } else if s < |prev| {
          assert l[s] == prev[s] && l[t] == block[t - |prev|];
        } else {
          assert l[s] == block[s - |prev|] && l[t] == block[t - |prev|];
        }
      }
    }
  }

  /** The all-'0' string (the constant monomial) comes first. */
  lemma LayersFirst(n: nat, j: nat)
    requires j >= 1
    ensures |Layers(n, j)| >= 1 && Layers(n, j)[0] == seq(n, _ => '0')
    decreases j
  {
    if j > 1 {
      LayersFirst(n, j - 1);
    } else {
      assert Layers(n, 1) == Block(n, 0);
      assert Combinations(0, n, 0) == [[]];
    }
  }

  /** `Σ_{k < j} C(n, k)`. */
  function BinomialSum(n: nat, j: nat): nat
  {
    if j == 0 then 0 else BinomialSum(n, j - 1) + Binomial(n, j - 1)
  }

  /** The list holds `Σ_{k < j} C(n, k)` strings. */
  lemma {:induction false} LayersCount(n: nat, j: nat)
    ensures |Layers(n, j)| == BinomialSum(n, j)
  {
    if j > 0 {
      LayersCount(n, j - 1);
      CombinationsCount(0, n, j - 1);
    }
  }

  // ---------------------------------------------------------------------
  // Annihilators

  /** The polynomial with coefficients `g` over `mons` is 0 at every point. */
  ghost predicate Vanishes(g: seq<int>, mons: seq<string>, points: seq<string>, n: nat)
    requires Words(points, n) && Words(mons, n) && |g| == |mons|
  {
    forall t :: 0 <= t < |points| ==> PolyEval(g, mons, points[t]) == 0
  }

  /** A nonzero polynomial over `mons` that is 0 at every point. */
  ghost predicate IsAnnihilator(g: seq<int>, mons: seq<string>, points: seq<string>, n: nat)
    requires Words(points, n) && Words(mons, n)
  {
    |g| == |mons| && IsBitVector(g) && (exists c :: 0 <= c < |g| && g[c] == 1) && Vanishes(g, mons, points, n)
  }

  /** Only the zero polynomial over `mons` is 0 at every point. */
  ghost predicate NoAnnihilator(points: seq<string>, mons: seq<string>, n: nat)
    requires Words(points, n) && Words(mons, n)
  {
    forall g :: |g| == |mons| && IsBitVector(g) && Vanishes(g, mons, points, n) ==>
      forall c :: 0 <= c < |g| ==> g[c] == 0
  }

  /** Vanishing on both parts of a split is vanishing on the whole. */
  lemma VanishesJoin(g: seq<int>, mons: seq<string>, z: seq<string>, j: nat, n: nat)
    requires Words(z, n) && Words(mons, n) && |g| == |mons| && j <= |z|
    requires Vanishes(g, mons, z[..j], n) && Vanishes(g, mons, z[j..], n)
    ensures Vanishes(g, mons, z, n)
  {
    forall t | 0 <= t < |z| ensures PolyEval(g, mons, z[t]) == 0 {
      if t < j { assert z[..j][t] == z[t]; } else { assert z[j..][t - j] == z[t]; }
    }
  }

  /** Vanishing depends only on which points there are. */
  lemma VanishesPermuted(g: seq<int>, mons: seq<string>, z: seq<string>, z0: seq<string>, n: nat)
    requires Words(z, n) && Words(z0, n) && Words(mons, n) && |g| == |mons|
    requires multiset(z) == multiset(z0) && Vanishes(g, mons, z, n)
    ensures Vanishes(g, mons, z0, n)
  {
    forall t | 0 <= t < |z0| ensures PolyEval(g, mons, z0[t]) == 0 {
      assert z0[t] in multiset(z0);
      assert z0[t] in z;
      var s :| 0 <= s < |z| && z[s] == z0[t];
    }
  }

  /** No annihilator on a set of points means none on any set containing them. */
  lemma NoAnnihilatorWider(points: seq<string>, more: seq<string>, mons: seq<string>, n: nat)
    requires Words(points, n) && Words(more, n) && Words(mons, n)
    requires forall t :: 0 <= t < |points| ==> points[t] in more
    requires NoAnnihilator(points, mons, n)
    ensures NoAnnihilator(more, mons, n)
  {
    forall g | |g| == |mons| && IsBitVector(g) && Vanishes(g, mons, more, n)
      ensures forall c :: 0 <= c < |g| ==> g[c] == 0
    {
      forall t | 0 <= t < |points| ensures PolyEval(g, mons, points[t]) == 0 {
        var s :| 0 <= s < |more| && more[s] == points[t];
      }
      assert Vanishes(g, mons, points, n);
    }
  }

  /** A polynomial vanishes at the points iff its coefficient vector is
      orthogonal to every row of the evaluation matrix. */
  lemma VanishesIffOrthogonal(g: seq<int>, mons: seq<string>, points: seq<string>, n: nat)
    requires Words(points, n) && Words(mons, n) && |g| == |mons|
    ensures Vanishes(g, mons, points, n) <==>
      forall s :: 0 <= s < |points| ==> Dot(Evaluation(points, mons, n)[s], g) == 0
  {
    var eval := Evaluation(points, mons, n);
    forall s | 0 <= s < |points| ensures eval[s] == EvalRow(points[s], mons) {
    }
  }

  /** `m` is the echelon form of the 0/1 matrix `a` of width `w`, reached
      by replaying the logged row operations `ops`. */
  ghost predicate ReducedBy(ops: seq<Op>, a: seq<seq<int>>, m: seq<seq<int>>, w: nat)
  {
    && Rect(a, w) && IsBitMatrix(a) && OpsInRange(ops, |a|) && OpsDistinct(ops)
    && m == ReplayRows(ops, a, w) && Echelon(m, w)
  }

  /** A kernel vector of the reduced evaluation matrix is an annihilator of
      the points: it has a 1 at its free column, and the logged row
      operations can be undone. */
  lemma KernelAnnihilator(points: seq<string>, mons: seq<string>, n: nat, ops: seq<Op>, m: seq<seq<int>>, t: nat)
    requires Words(points, n) && Words(mons, n) && ReducedBy(ops, Evaluation(points, mons, n), m, |mons|)
    requires t < |ScanColumns(m, |mons|, |mons|).1|
    ensures IsAnnihilator(KernelVector(m, |mons|, ScanColumns(m, |mons|, |mons|).0, ScanColumns(m, |mons|, |mons|).1[t]),
                          mons, points, n)
  {
    var w := |mons|;
    var eval := Evaluation(points, mons, n);
    var sc := ScanColumns(m, w, w);
    var f := sc.1[t];
    var v := KernelVector(m, w, sc.0, f);
    EchelonKernel(m, w, t);
    OrthogonalBeforeReplay(ops, eval, w, v);
    VanishesIffOrthogonal(v, mons, points, n);
    assert v[f] == 1;
  }

  /** A reduced evaluation matrix with a pivot in every column admits only the zero polynomial. */
  lemma FullRankNoAnnihilator(points: seq<string>, mons: seq<string>, n: nat, ops: seq<Op>, m: seq<seq<int>>)
    requires Words(points, n) && Words(mons, n) && ReducedBy(ops, Evaluation(points, mons, n), m, |mons|)
    requires |PivotColumns(m, |m|)| == |mons|
    ensures NoAnnihilator(points, mons, n)
  {
    var eval := Evaluation(points, mons, n);
    forall g | |g| == |mons| && IsBitVector(g) && Vanishes(g, mons, points, n)
      ensures forall c :: 0 <= c < |g| ==> g[c] == 0
    {
      VanishesIffOrthogonal(g, mons, points, n);
      OrthogonalAfterReplay(ops, eval, |mons|, g);
      FullRankOnlyZero(m, |mons|, g);
    }
  }

  /** A unit row `t` with `col[t]` appended is orthogonal to `col` followed by 1. */
  lemma UnitRowWidened(row: seq<int>, t: nat, col: seq<int>)
    requires |row| == |col| && t < |row| && row[t] == 1 && IsBit(col[t])
    requires forall c :: 0 <= c < |row| && c != t ==> row[c] == 0
    ensures Dot(row + [col[t]], col + [1]) == 0
  {
    var w := |row|;
    var prods := Products(row + [col[t]], col + [1]);
    forall c | 0 <= c < w + 1 && c != t && c != w ensures prods[c] == 0 {
      assert prods[c] == row[c] * col[c];
    }
    ParityTwo(prods, t, w);
    assert prods[t] == col[t] && prods[w] == col[t];
    assert (col[t] + col[t]) % 2 == 0;
  }

  /** With a pivot in every column of a square reduced matrix, appending a
      column `col` leaves `col` followed by 1 in the kernel. */
  lemma IdentityWidenKernel(m: seq<seq<int>>, w: nat, col: seq<int>)
    requires Echelon(m, w) && IsBitMatrix(m) && |m| == w && |PivotColumns(m, |m|)| == w
    requires |col| == w && IsBitVector(col)
    ensures forall t :: 0 <= t < w ==> Dot(Widen(m, col)[t], col + [1]) == 0
  {
    FullRankIdentity(m, w);
    forall t | 0 <= t < w ensures Dot(Widen(m, col)[t], col + [1]) == 0 {
      assert Widen(m, col)[t] == m[t] + [col[t]];
      UnitRowWidened(m[t], t, col);
    }
  }

  /** Appending the values of one more monomial as a column. */
  lemma EvaluationWiden(points: seq<string>, mons: seq<string>, mon: string, n: nat)
    requires Words(points, n) && Words(mons, n) && |mon| == n && IsBinaryString(mon)
    ensures Words(mons + [mon], n)
    ensures Evaluation(points, mons + [mon], n) == Widen(Evaluation(points, mons, n), EvalColumn(points, mon))
  {
    var big := Evaluation(points, mons + [mon], n);
    var wide := Widen(Evaluation(points, mons, n), EvalColumn(points, mon));
    forall k | 0 <= k < |points| ensures big[k] == wide[k] {
      assert big[k] == EvalRow(points[k], mons + [mon]);
      assert wide[k] == EvalRow(points[k], mons) + [StrOps(points[k], mon)];
    }
  }

  /** Value-level core of the next lemma: on a square matrix whose logged
      reduction has full rank, the replayed extra column followed by 1 is
      orthogonal to every row of the matrix widened by the raw column. */
  lemma WidenedKernel(ops: seq<Op>, small: seq<seq<int>>, raw: seq<int>, m: seq<seq<int>>, w: nat,
                      wide: seq<seq<int>>)
    requires ReducedBy(ops, small, m, w) && |small| == w && |PivotColumns(m, |m|)| == w
    requires |raw| == w && IsBitVector(raw) && wide == Widen(small, raw)
    ensures IsBitVector(Replay(ops, raw))
    ensures forall s :: 0 <= s < w ==> Dot(wide[s], Replay(ops, raw) + [1]) == 0
  {
    var col := Replay(ops, raw);
    ReplayBits(ops, raw);
    WidenBits(small, raw, w, wide);
    ReducedWidenOrthogonal(ops, small, raw, m, w, wide);
    OrthogonalBeforeReplay(ops, wide, w + 1, col + [1]);
  }

  /** Widening a 0/1 matrix by a 0/1 column gives a 0/1 matrix one wider. */
  lemma WidenBits(small: seq<seq<int>>, raw: seq<int>, w: nat, wide: seq<seq<int>>)
    requires Rect(small, w) && IsBitMatrix(small) && |raw| == |small| && IsBitVector(raw)
    requires wide == Widen(small, raw)
    ensures Rect(wide, w + 1) && IsBitMatrix(wide)
  {
    forall s | 0 <= s < |wide| ensures |wide[s]| == w + 1 && IsBitVector(wide[s]) {
      assert wide[s] == small[s] + [raw[s]];
    }
  }

  /** After the log, the widened matrix is the identity widened by the
      replayed column, which `col + [1]` is orthogonal to. */
  lemma ReducedWidenOrthogonal(ops: seq<Op>, small: seq<seq<int>>, raw: seq<int>, m: seq<seq<int>>, w: nat,
                               wide: seq<seq<int>>)
    requires Rect(small, w) && OpsInRange(ops, |small|) && m == ReplayRows(ops, small, w)
    requires Echelon(m, w) && IsBitMatrix(m) && |m| == w && |PivotColumns(m, |m|)| == w
    requires |raw| == w && IsBitVector(Replay(ops, raw)) && wide == Widen(small, raw)
    ensures Rect(wide, w + 1) && OpsInRange(ops, |wide|)
    ensures ReplayRows(ops, wide, w + 1) == Widen(m, Replay(ops, raw))
    ensures forall t :: 0 <= t < w ==> Dot(Widen(m, Replay(ops, raw))[t], Replay(ops, raw) + [1]) == 0
  {
    ReplayWiden(ops, small, w, raw);
    IdentityWidenKernel(m, w, Replay(ops, raw));
  }

  /** A 0/1 vector ending in 1 that is orthogonal to every row of the
      evaluation matrix is an annihilator. */
  lemma OrthogonalAnnihilator(points: seq<string>, mons: seq<string>, n: nat, col: seq<int>)
    requires Words(points, n) && Words(mons, n) && |col| + 1 == |mons| && IsBitVector(col)
    requires forall s :: 0 <= s < |points| ==> Dot(Evaluation(points, mons, n)[s], col + [1]) == 0
    ensures IsAnnihilator(col + [1], mons, points, n)
  {
    var v := col + [1];
    VanishesIffOrthogonal(v, mons, points, n);
    assert IsBitVector(v) by {
      forall c | 0 <= c < |v| ensures IsBit(v[c]) {
        if c < |col| { assert v[c] == col[c]; }
      }
    }
    assert v[|col|] == 1;
  }

  /** The replayed column of `mon`, followed by 1, is orthogonal to every
      row of the evaluation matrix widened by `mon`. */
  lemma NextColumnOrthogonal(points: seq<string>, mons: seq<string>, mon: string, n: nat, ops: seq<Op>,
                             m: seq<seq<int>>)
    requires Words(points, n) && Words(mons, n) && |mon| == n && IsBinaryString(mon) && |points| == |mons|
    requires ReducedBy(ops, Evaluation(points, mons, n), m, |mons|) && |PivotColumns(m, |m|)| == |mons|
    ensures Words(mons + [mon], n) && IsBitVector(Replay(ops, EvalColumn(points, mon)))
    ensures forall s :: 0 <= s < |points| ==>
      Dot(Evaluation(points, mons + [mon], n)[s], Replay(ops, EvalColumn(points, mon)) + [1]) == 0
  {
    EvaluationWiden(points, mons, mon, n);
    WidenedKernel(ops, Evaluation(points, mons, n), EvalColumn(points, mon), m, |points|,
                  Evaluation(points, mons + [mon], n));
  }

  /** When the monomials `mons`, one per point, leave only the zero
      polynomial, adding `mon` gives an annihilator: the logged replay of
      the column of `mon`, followed by 1. */
  lemma NextMonomialAnnihilates(points: seq<string>, mons: seq<string>, mon: string, n: nat, ops: seq<Op>,
                                m: seq<seq<int>>)
    requires Words(points, n) && Words(mons, n) && |mon| == n && IsBinaryString(mon) && |points| == |mons|
    requires ReducedBy(ops, Evaluation(points, mons, n), m, |mons|) && |PivotColumns(m, |m|)| == |mons|
    ensures Words(mons + [mon], n)
    ensures IsAnnihilator(Replay(ops, EvalColumn(points, mon)) + [1], mons + [mon], points, n)
  {
    NextColumnOrthogonal(points, mons, mon, n, ops, m);
    OrthogonalAnnihilator(points, mons + [mon], n, Replay(ops, EvalColumn(points, mon)));
  }

  // ---------------------------------------------------------------------
  // find_min_annihilator: the incremental search

  /** The state at the top of an iteration: `z` is a permutation of the
      points `z0`, and `m` is the logged echelon form of the evaluation
      matrix of its first `i` points at the first `i` monomials. */
  ghost predicate SearchState(z0: seq<string>, e: seq<string>, n: nat, z: seq<string>, i: nat,
                              m: seq<seq<int>>, ops: seq<Op>)
  {
    && Words(z0, n) && Words(e, n) && Words(z, n) && multiset(z) == multiset(z0)
    && 1 <= i <= |z| && i <= |e| && Words(z[..i], n) && Words(e[..i], n)
    && ReducedBy(ops, Evaluation(z[..i], e[..i], n), m, i)
  }

  /** The 1x1 matrix the search starts from is the (already reduced)
      evaluation of the first monomial at the first point. */
  lemma InitialState(z0: seq<string>, e: seq<string>, n: nat)
    requires Words(z0, n) && Words(e, n) && 0 < |z0| && 0 < |e|
    ensures ZippedDigits(z0[0], e[0])
    ensures SearchState(z0, e, n, z0, 1, [[StrOps(z0[0], e[0])]], [])
  {
    WordsPrefix(z0, n, 1);
    WordsPrefix(e, n, 1);
    WordsZipped(z0[0], e);
    var a := Evaluation(z0[..1], e[..1], n);
    var row := EvalRow(z0[..1][0], e[..1]);
    assert a[0] == row;
    assert row[0] == StrOps(z0[0], e[0]);
    assert row == [StrOps(z0[0], e[0])];
    assert a == [[StrOps(z0[0], e[0])]];
  }

  /** The matrix `compute_next` builds from the reduced one is the evaluation
      matrix grown by one point and one monomial, with the logged operations
      replayed on it. */
  lemma GrowMatrix(z: seq<string>, e: seq<string>, n: nat, i: nat, ops: seq<Op>, m: seq<seq<int>>,
                   support: seq<string>, monoms: seq<string>, next: seq<seq<int>>)
    requires Words(z, n) && Words(e, n) && i < |z| && i < |e| && OpsInRange(ops, i)
    requires Words(z[..i], n) && Words(e[..i], n) && m == ReplayRows(ops, Evaluation(z[..i], e[..i], n), i)
    requires support == z[..i + 1] && monoms == e[..i + 1] && Words(support, n) && Words(monoms, n)
    requires next == Extend(m, Replay(ops, EvalColumn(support[..i], monoms[|monoms| - 1]))[..|m|],
                            EvalRow(support[|support| - 1], monoms[..i + 1]))
    ensures next == ReplayRows(ops, Evaluation(z[..i + 1], e[..i + 1], n), i + 1)
  {
    assert support[..i] == z[..i] && monoms[|monoms| - 1] == e[i];
    assert support[|support| - 1] == z[i] && monoms[..i + 1] == monoms;
    EvaluationGrow(z, e, n, i, ops);
    var col := Replay(ops, EvalColumn(z[..i], e[i]));
    assert col[..|m|] == col;
  }

  /** One `compute_next` followed by `row_echelon_form` (lines 112-114):
      the new matrix is the logged echelon form of the evaluation matrix of
      one more point and one more monomial. */
  method GrowAndReduce(vm: VanderMonde, z0: seq<string>, e: seq<string>, ghost n: nat, z: seq<string>,
                       i: nat, operations: seq<Op>)
    returns (reduced: VanderMonde, operationsI: seq<Op>)
    requires SearchState(z0, e, n, z, i, vm.elements, operations) && i < |z| && i < |e|
    ensures fresh(reduced)
    ensures Words(z[..i + 1], n) && Words(e[..i + 1], n)
    ensures ReducedBy(operations + operationsI, Evaluation(z[..i + 1], e[..i + 1], n), reduced.elements, i + 1)
  {
    WordsPrefix(z, n, i + 1);
    WordsPrefix(e, n, i + 1);
    var next := vm.ComputeNext(e[..i + 1], z[..i + 1], i, operations, n);
    GrowMatrix(z, e, n, i, operations, vm.elements, z[..i + 1], e[..i + 1], next.elements);
    ghost var a := Evaluation(z[..i + 1], e[..i + 1], n);
    assert next.NCols() == i + 1;
    reduced, operationsI := next.RowEchelonForm();
    ReplayRowsConcat(operations, operationsI, a, i + 1);
    OpsConcat(operations, operationsI, |a|);
  }

  /** Exchanging two entries keeps the same points. */
  lemma SwapPermutes(z: seq<string>, a: nat, b: nat)
    requires a < |z| && b < |z|
    ensures multiset(z[a := z[b]][b := z[a]]) == multiset(z)
  {
  }

  /** Lines 116-118: on a square reduced evaluation matrix whose rank is
      short, the kernel has a first vector, and it is an annihilator of the
      points in the matrix. */
  method FirstKernelVector(vm: VanderMonde, ghost points: seq<string>, ghost mons: seq<string>, ghost n: nat,
                           ghost ops: seq<Op>)
    returns (k: seq<int>)
    requires Words(points, n) && Words(mons, n) && 0 < |points| == |mons|
    requires ReducedBy(ops, Evaluation(points, mons, n), vm.elements, |mons|)
    requires |PivotColumns(vm.elements, |vm.elements|)| < |mons|
    ensures IsAnnihilator(k, mons, points, n)
  {
    ghost var m := vm.elements;
    assert vm.NCols() == |mons|;
    EchelonScan(m, |mons|);
    var kernel := vm.Kernel();
    k := kernel[0];
    KernelAnnihilator(points, mons, n, ops, m, 0);
  }

  /** An annihilator of the first `j` points that also vanishes on the
      rest annihilates every point of any permutation. */
  lemma JoinPermuted(k: seq<int>, mons: seq<string>, z: seq<string>, z0: seq<string>, j: nat, n: nat)
    requires Words(z, n) && Words(z0, n) && Words(mons, n) && multiset(z) == multiset(z0) && j <= |z|
    requires Words(z[..j], n) && Words(z[j..], n) && IsAnnihilator(k, mons, z[..j], n)
    requires forall t :: 0 <= t < |z[j..]| ==> PolyEval(k, mons, z[j..][t]) == 0
    ensures IsAnnihilator(k, mons, z0, n)
  {
    assert Vanishes(k, mons, z[j..], n);
    VanishesJoin(k, mons, z, j, n);
    VanishesPermuted(k, mons, z, z0, n);
  }

  /** Swapping the first failing point to position `j` keeps the points
      before it and the multiset of points. */
  lemma FailingSwap(z0: seq<string>, z: seq<string>, z': seq<string>, n: nat, j: nat, t: nat)
    requires Words(z, n) && multiset(z) == multiset(z0) && j + t < |z|
    requires z' == z[j := z[j + t]][j + t := z[j]]
    ensures j < |z'| == |z| && z'[..j] == z[..j] && multiset(z') == multiset(z0) && Words(z', n)
    ensures z'[j] == z[j + t]
  {
    SwapPermutes(z, j, j + t);
    assert z'[..j] == z[..j];
  }

  /** Lines 120-128: `verify` checks the candidate `k` on the points not
      yet in the matrix.  Either it vanishes on all of them, and so on every
      point, or the first point where it does not is swapped to position
      `i + 1`, right after the points in the matrix. */
  method CheckRest(z0: seq<string>, e: seq<string>, ghost n: nat, z: seq<string>, i: nat, k: seq<int>)
    returns (vanishes: bool, z': seq<string>)
    requires Words(z0, n) && Words(e, n) && Words(z, n) && multiset(z) == multiset(z0)
    requires i < |z| && i < |e| && Words(z[..i + 1], n) && Words(e[..i + 1], n)
    requires IsAnnihilator(k, e[..i + 1], z[..i + 1], n)
    ensures vanishes ==> IsAnnihilator(k, e[..i + 1], z0, n)
    ensures !vanishes ==> i + 1 < |z'| == |z| && z'[..i + 1] == z[..i + 1]
    ensures !vanishes ==> multiset(z') == multiset(z0) && Words(z', n)
    ensures !vanishes ==> PolyEval(k, e[..i + 1], z'[i + 1]) == 1
  {
    var mons := e[..i + 1];
    WordsSuffix(z, n, i + 1);
    VerifyMeansVanishing(z[i + 1..], k, mons, n);
    var (ok, failing) := Verify(z[i + 1..], k, mons);
    z' := z;
    if ok {
      vanishes := true;
      JoinPermuted(k, mons, z, z0, i + 1, n);
    } else {
      vanishes := false;
      if failing.Some? {
        var newIndex := i + failing.value.0 + 1;
        if newIndex < |z| {
          assert z[i + 1..][failing.value.0] == z[newIndex];
          AnfIsPolyEval(k, mons, z[newIndex]);
          z' := z[i + 1 := z[newIndex]][newIndex := z[i + 1]];
          FailingSwap(z0, z, z', n, i + 1, failing.value.0);
        }
      }
    }
  }

  /** The grown matrix with the (possibly swapped) points is the next state. */
  lemma StateAdvance(z0: seq<string>, e: seq<string>, n: nat, z: seq<string>, z': seq<string>, i: nat,
                     m: seq<seq<int>>, ops: seq<Op>)
    requires Words(z0, n) && Words(e, n) && Words(z', n) && multiset(z') == multiset(z0)
    requires i < |z| && i < |z'| && i < |e| && z'[..i + 1] == z[..i + 1]
    requires Words(z[..i + 1], n) && Words(e[..i + 1], n)
    requires ReducedBy(ops, Evaluation(z[..i + 1], e[..i + 1], n), m, i + 1)
    ensures SearchState(z0, e, n, z', i + 1, m, ops)
  {
  }

  /** One pass of the loop body (lines 112-133).  Either the kernel
      candidate vanishes on every point, or the state moves on to `i + 1`:
      the points already in the matrix stay where they are, and when the
      rank was short the point that falsified the candidate now comes next. */
  method SearchStep(vm: VanderMonde, z0: seq<string>, e: seq<string>, ghost n: nat, z: seq<string>, i: nat,
                    operations: seq<Op>)
    returns (vanishes: bool, next: VanderMonde, z': seq<string>, operations': seq<Op>,
             ghost short: bool, ghost annihilator: seq<int>)
    requires SearchState(z0, e, n, z, i, vm.elements, operations) && i < |z| && i < |e|
    ensures vanishes ==> short && IsAnnihilator(annihilator, e[..i + 1], z0, n)
    ensures !vanishes ==> SearchState(z0, e, n, z', i + 1, next.elements, operations')
    ensures !vanishes ==> |z'| == |z| && z'[..i + 1] == z[..i + 1]
    ensures !vanishes && short ==> i + 1 < |z'| && |annihilator| == i + 1
                                   && PolyEval(annihilator, e[..i + 1], z'[i + 1]) == 1
    ensures short <==> |PivotColumns(next.elements, |next.elements|)| < i + 1
  {
    var reduced, operationsI := GrowAndReduce(vm, z0, e, n, z, i, operations);
    next := reduced;
    operations' := operations + operationsI;
    z' := z;
    vanishes := false;
    var rank := next.Rank();
    short := rank < i + 1;
    annihilator := [];
    if rank < i + 1 {
      var k := FirstKernelVector(next, z[..i + 1], e[..i + 1], n, operations + operationsI);
      annihilator := k;
      vanishes, z' := CheckRest(z0, e, n, z, i, k);
      if vanishes {
        return;
      }
    }
    StateAdvance(z0, e, n, z, z', i, next.elements, operations');
  }

  /** Once every point is in a matrix of short rank, its first kernel
      vector annihilates all of `z0`. */
  lemma ExhaustedShort(z0: seq<string>, e: seq<string>, n: nat, z: seq<string>, i: nat, m: seq<seq<int>>,
                       ops: seq<Op>)
    returns (k: seq<int>)
    requires SearchState(z0, e, n, z, i, m, ops) && i == |z| && |PivotColumns(m, |m|)| < i
    ensures IsAnnihilator(k, e[..i], z0, n)
  {
    EchelonScan(m, i);
    var sc := ScanColumns(m, i, i);
    KernelAnnihilator(z[..i], e[..i], n, ops, m, 0);
    k := KernelVector(m, i, sc.0, sc.1[0]);
    assert z[..i] == z;
    VanishesPermuted(k, e[..i], z, z0, n);
  }

  /** Once every point is in a matrix of full rank and a monomial is left,
      the replayed column of that monomial, followed by 1, annihilates all
      of `z0`. */
  lemma ExhaustedNext(z0: seq<string>, e: seq<string>, n: nat, z: seq<string>, i: nat, m: seq<seq<int>>,
                      ops: seq<Op>)
    requires SearchState(z0, e, n, z, i, m, ops) && i == |z| && i < |e| && |PivotColumns(m, |m|)| == i
    ensures Words(e[..i + 1], n)
    ensures IsAnnihilator(Replay(ops, EvalColumn(z, e[i])) + [1], e[..i + 1], z0, n)
  {
    assert z[..i] == z;
    assert e[..i] + [e[i]] == e[..i + 1];
    NextPermuted(z0, z, e[..i], e[i], n, ops, m);
  }

  /** `NextMonomialAnnihilates` for any permutation `z0` of the points. */
  lemma NextPermuted(z0: seq<string>, z: seq<string>, mons: seq<string>, mon: string, n: nat, ops: seq<Op>,
                     m: seq<seq<int>>)
    requires Words(z0, n) && Words(z, n) && multiset(z) == multiset(z0)
    requires Words(mons, n) && |mon| == n && IsBinaryString(mon) && |z| == |mons|
    requires ReducedBy(ops, Evaluation(z, mons, n), m, |mons|) && |PivotColumns(m, |m|)| == |mons|
    ensures Words(mons + [mon], n)
    ensures IsAnnihilator(Replay(ops, EvalColumn(z, mon)) + [1], mons + [mon], z0, n)
  {
    NextMonomialAnnihilates(z, mons, mon, n, ops, m);
    VanishesPermuted(Replay(ops, EvalColumn(z, mon)) + [1], mons + [mon], z, z0, n);
  }

  /** Once every point and every monomial is in a matrix of full rank, no
      nonzero polynomial over the monomials vanishes on `z0`. */
  lemma ExhaustedNone(z0: seq<string>, e: seq<string>, n: nat, z: seq<string>, i: nat, m: seq<seq<int>>,
                      ops: seq<Op>)
    requires SearchState(z0, e, n, z, i, m, ops) && i == |z| == |e| && |PivotColumns(m, |m|)| == i
    ensures NoAnnihilator(z0, e, n)
  {
    assert z[..i] == z && e[..i] == e;
    FullRankNoAnnihilator(z, e, n, ops, m);
    forall t | 0 <= t < |z| ensures z[t] in z0 {
      assert z[t] in multiset(z);
    }
    NoAnnihilatorWider(z, z0, e, n);
  }

  /** The annihilator, if any, behind the answer once every point is in the matrix. */
  lemma ExhaustedWitness(z0: seq<string>, e: seq<string>, n: nat, z: seq<string>, i: nat, m: seq<seq<int>>,
                         ops: seq<Op>)
    returns (w: seq<int>)
    requires SearchState(z0, e, n, z, i, m, ops) && i == |z|
    ensures |m| == i
    ensures |PivotColumns(m, |m|)| < i ==> IsAnnihilator(w, e[..i], z0, n)
    ensures |PivotColumns(m, |m|)| == i < |e| ==> IsAnnihilator(w, e[..i + 1], z0, n)
    ensures |PivotColumns(m, |m|)| == i == |e| ==> NoAnnihilator(z0, e, n)
  {
    w := [];
    PivotColumnsBounds(m, i, |m|);
    if |PivotColumns(m, |m|)| < i {
      w := ExhaustedShort(z0, e, n, z, i, m, ops);
    } else if i < |e| {
      ExhaustedNext(z0, e, n, z, i, m, ops);
      w := Replay(ops, EvalColumn(z, e[i])) + [1];
    } else if |PivotColumns(m, |m|)| == i {
      ExhaustedNone(z0, e, n, z, i, m, ops);
    }
  }

  /** How the loop of `find_min_annihilator` stops: a candidate vanished on
      every point (the return at line 122), the slice `e[..=i]` at line 112
      ran past the monomials, or every point is in the matrix. */
  datatype Stop = Vanished | OutOfMonomials | Exhausted

  /** The start and the loop of `find_min_annihilator` (lines 100-134).
      `evidence` is the annihilator behind each possible answer: the
      candidate that vanished, or, once every point is in the matrix, the
      kernel vector of a short final matrix or the column of the next
      monomial of a full one; with no monomial left, a full final matrix
      means that no annihilator exists. */
  method RunSearch(z0: seq<string>, e: seq<string>, ghost n: nat)
    returns (stop: Stop, vm: VanderMonde, i: nat, ghost evidence: seq<int>)
    requires Words(z0, n) && Words(e, n) && 0 < |z0| && 0 < |e|
    ensures stop == Vanished ==> i < |e| && i < |z0| && IsAnnihilator(evidence, e[..i + 1], z0, n)
    ensures stop == OutOfMonomials ==> i == |e| < |z0|
    ensures stop == Exhausted ==> 1 <= i == |z0| && i <= |e| && |vm.elements| == i
    ensures stop == Exhausted && |PivotColumns(vm.elements, |vm.elements|)| < i ==>
      IsAnnihilator(evidence, e[..i], z0, n)
    ensures stop == Exhausted && |PivotColumns(vm.elements, |vm.elements|)| == i < |e| ==>
      IsAnnihilator(evidence, e[..i + 1], z0, n)
    ensures stop == Exhausted && |PivotColumns(vm.elements, |vm.elements|)| == i == |e| ==>
      NoAnnihilator(z0, e, n)
    ensures |z0| == 1 ==> stop == Exhausted && vm.elements == [[StrOps(z0[0], e[0])]]
  {
    InitialState(z0, e, n);
    vm := new VanderMonde([[StrOps(z0[0], e[0])]]);
    i := 1;
    var z := z0;
    var operations := [];
    evidence := [];
    stop := Exhausted;
    while i < |z|
      invariant SearchState(z0, e, n, z, i, vm.elements, operations) && |z| == |z0|
      invariant |z0| == 1 ==> vm.elements == [[StrOps(z0[0], e[0])]]
      decreases |z| - i
    {
      if i >= |e| {
        stop := OutOfMonomials;
        break;
      }
      var vanishes, next, z', operations', short, candidate := SearchStep(vm, z0, e, n, z, i, operations);
      if vanishes {
        stop := Vanished;
        evidence := candidate;
        break;
      }
      vm, z, operations := next, z', operations';
      i := i + 1;
    }
    if stop == Exhausted {
      evidence := ExhaustedWitness(z0, e, n, z, i, vm.elements, operations);
    }
  }

  // ---------------------------------------------------------------------
  // algebraic_immunity: the minimum over both searches

  /** `results.into_iter().flatten().min()`: the least of the values present. */
  function MinSome(results: seq<Option<nat>>): (r: Option<nat>)
    ensures r.None? <==> forall t :: 0 <= t < |results| ==> results[t].None?
    ensures r.Some? ==> r in results
    ensures r.Some? ==> forall t :: 0 <= t < |results| && results[t].Some? ==> r.value <= results[t].value
  {
    if |results| == 0 then None
    else
      var rest := MinSome(results[..|results| - 1]);
      var last := results[|results| - 1];
      if last.None? then rest
      else if rest.None? || last.value < rest.value then last
      else rest
  }

  /** Every entry of the table is 1, or none is. */
  predicate Constant(table: seq<Byte>)
  {
    (forall t :: 0 <= t < |table| ==> table[t] == 1) || (forall t :: 0 <= t < |table| ==> table[t] != 1)
  }

  /** One part has more points than there are monomials of degree at most
      `(n + 1) / 2`, so the search slices past the end of the list. */
  predicate Overflows(table: seq<Byte>, n: nat)
  {
    var (ones, zeros) := Partition(table, n, |table|);
    BinomialSum(n, (n + 1) / 2 + 1) < |ones| || BinomialSum(n, (n + 1) / 2 + 1) < |zeros|
  }

  /** The value of `match results.into_iter().flatten().min() { Some(v) => v, None => 0 }`. */
  function LeastOrZero(results: seq<Option<nat>>): nat
  {
    var best := MinSome(results);
    if best.Some? then best.value else 0
  }

  /** One search's result, with the monomial index and the annihilator behind it. */
  datatype Run = Run(result: Outcome<Option<nat>>, index: nat, annihilator: seq<int>)

  /** The answer `v` is the weight of `e[index]`, and either an annihilator
      of `part` over `e[..index + 1]` exists, or none over all of `e` does
      and `e[index]` is the last monomial. */
  ghost predicate Backed(v: nat, part: seq<string>, index: nat, annihilator: seq<int>, e: seq<string>, n: nat)
  {
    && Words(part, n) && Words(e, n) && index < |e|
    && v == HammingWeight(e[index])
    && (IsAnnihilator(annihilator, e[..index + 1], part, n) || (index == |e| - 1 && NoAnnihilator(part, e, n)))
  }

  /** The answer `v` of the search as written is the weight of `e[index]`,
      where either an annihilator over `e[..index + 1]` was found or the
      points ran out. */
  ghost predicate WrittenAnswer(v: nat, part: seq<string>, index: nat, annihilator: seq<int>, e: seq<string>, n: nat)
  {
    && Words(part, n) && Words(e, n) && index < |e|
    && v == HammingWeight(e[index])
    && (IsAnnihilator(annihilator, e[..index + 1], part, n) || index == |part| - 1)
  }

  /** What `find_min_annihilator` as written gives on a non-empty part: a
      panic only when the points outnumber the monomials, otherwise a
      `WrittenAnswer`, and for a single point the weight of `e[0]`. */
  ghost predicate WrittenResult(run: Run, part: seq<string>, e: seq<string>, n: nat)
  {
    && Words(part, n) && Words(e, n) && |e| > 0
    && (run.result.Panic? ==> |e| < |part|)
    && (run.result.Ok? ==> run.result.value.Some? &&
                           WrittenAnswer(run.result.value.value, part, run.index, run.annihilator, e, n))
    && (|part| == 1 ==> run.result == Ok(Some(HammingWeight(e[0]))))
  }

  /** What the corrected search gives on a non-empty part: a panic only when
      the points outnumber the monomials, otherwise a `Backed` answer. */
  ghost predicate CorrectedResult(run: Run, part: seq<string>, e: seq<string>, n: nat)
  {
    && Words(part, n) && Words(e, n) && |e| > 0
    && (run.result.Panic? ==> |e| < |part|)
    && (run.result.Ok? ==> run.result.value.Some? &&
                           Backed(run.result.value.value, part, run.index, run.annihilator, e, n))
  }

  /** Both searches ran: a panic if either panicked, otherwise the least of
      their answers, which is one of them. */
  ghost predicate Combined(res: Outcome<nat>, first: Run, second: Run)
  {
    && (res.Panic? <==> first.result.Panic? || second.result.Panic?)
    && (res.Ok? ==> first.result.Ok? && second.result.Ok? &&
                    res.value == LeastOrZero([first.result.value, second.result.value]))
  }

  /** With a single point the search as written answers the weight of the
      all-'0' first monomial, 0, so the least of the two answers is 0. */
  lemma WrittenSinglePoint(first: Run, second: Run, ones: seq<string>, zeros: seq<string>, e: seq<string>, n: nat)
    requires WrittenResult(first, ones, e, n) && WrittenResult(second, zeros, e, n)
    requires first.result.Ok? && second.result.Ok? && e[0] == seq(n, _ => '0')
    requires |ones| == 1 || |zeros| == 1
    ensures LeastOrZero([first.result.value, second.result.value]) == 0
  {
    assert HammingWeight(e[0]) == 0;
    var results := [first.result.value, second.result.value];
    if |ones| == 1 {
      assert results[0] == Some(0);
    } else {
      assert results[1] == Some(0);
    }
  }

  /** The least of two present answers is one of them and at most each. */
  lemma LeastOfTwo(a: nat, b: nat)
    ensures LeastOrZero([Some(a), Some(b)]) == a || LeastOrZero([Some(a), Some(b)]) == b
    ensures LeastOrZero([Some(a), Some(b)]) <= a && LeastOrZero([Some(a), Some(b)]) <= b
  {
    var results := [Some(a), Some(b)];
    assert results[0] == Some(a) && results[1] == Some(b);
  }

  /** What `algebraic_immunity` as written gives on a non-constant table
      with one-set `ones` and zero-set `zeros`, searching the monomials `e`:
      the two searches combined, and 0 when a part has a single point. */
  ghost predicate WrittenTop(ones: seq<string>, zeros: seq<string>, e: seq<string>, n: nat,
                             res: Outcome<nat>, first: Run, second: Run)
  {
    && WrittenResult(first, ones, e, n) && WrittenResult(second, zeros, e, n) && Combined(res, first, second)
    && (res.Ok? && (|ones| == 1 || |zeros| == 1) ==> res.value == 0)
  }

  /** What `algebraic_immunity` with the corrected search gives on a
      non-constant table: the two corrected searches combined. */
  ghost predicate CorrectedTop(ones: seq<string>, zeros: seq<string>, e: seq<string>, n: nat,
                               res: Outcome<nat>, first: Run, second: Run)
  {
    CorrectedResult(first, ones, e, n) && CorrectedResult(second, zeros, e, n) && Combined(res, first, second)
  }

  /** The least of the two answers is bounded by a bound on the weights of
      the monomials both answers are weights of. */
  lemma CombinedBound(res: Outcome<nat>, first: Run, second: Run, e: seq<string>, bound: nat)
    requires Combined(res, first, second) && res.Ok?
    requires first.result.value.Some? && first.index < |e| && first.result.value.value == HammingWeight(e[first.index])
    requires second.result.value.Some? && second.index < |e| && second.result.value.value == HammingWeight(e[second.index])
    requires forall t :: 0 <= t < |e| ==> HammingWeight(e[t]) <= bound
    ensures res.value <= bound
  {
    LeastOfTwo(first.result.value.value, second.result.value.value);
  }

  /** The searches' results assemble into `WrittenTop`, and the answer is at
      most the largest weight among the monomials. */
  lemma WrittenTopHolds(z: seq<string>, zC: seq<string>, e: seq<string>, n: nat, bound: nat,
                        res: Outcome<nat>, first: Run, second: Run)
    requires WrittenResult(first, z, e, n) && WrittenResult(second, zC, e, n) && Combined(res, first, second)
    requires e[0] == seq(n, _ => '0') && forall t :: 0 <= t < |e| ==> HammingWeight(e[t]) <= bound
    ensures WrittenTop(z, zC, e, n, res, first, second)
    ensures res.Ok? ==> res.value <= bound
  {
    if res.Ok? {
      if |z| == 1 || |zC| == 1 {
        WrittenSinglePoint(first, second, z, zC, e, n);
      }
      CombinedBound(res, first, second, e, bound);
    }
  }

  /** The corrected searches' results assemble into `CorrectedTop`, and the
      answer is at most the largest weight among the monomials. */
  lemma CorrectedTopHolds(z: seq<string>, zC: seq<string>, e: seq<string>, n: nat, bound: nat,
                          res: Outcome<nat>, first: Run, second: Run)
    requires CorrectedResult(first, z, e, n) && CorrectedResult(second, zC, e, n) && Combined(res, first, second)
    requires forall t :: 0 <= t < |e| ==> HammingWeight(e[t]) <= bound
    ensures CorrectedTop(z, zC, e, n, res, first, second)
    ensures res.Ok? ==> res.value <= bound
  {
    if res.Ok? {
      CombinedBound(res, first, second, e, bound);
    }
  }

  /** A search that panics on a part of the table shows the table overflows. */
  lemma PanicOverflows(table: seq<Byte>, n: nat, z: seq<string>, zC: seq<string>, e: seq<string>)
    requires (z, zC) == Partition(table, n, |table|) && e == Layers(n, (n + 1) / 2 + 1)
    requires |e| < |z| || |e| < |zC|
    ensures Overflows(table, n)
  {
    LayersCount(n, (n + 1) / 2 + 1);
  }

  /** The two-variable AND, truth table `[0, 0, 0, 1]`, splits into the
      one-set "11" and the zero-set "00", "01", "10". */
  lemma AndTablePartition()
    ensures Partition([0, 0, 0, 1], 2, 4) == (["11"], ["00", "01", "10"])
  {
    var t: seq<Byte> := [0, 0, 0, 1];
    var none: seq<string> := [];
    assert Binary(0) == "0" && ZeroPadded(0, 2) == "00";
    assert Partition(t, 2, 1).0 == none && Partition(t, 2, 1).1 == ["00"];
    assert Binary(1) == "1" && ZeroPadded(1, 2) == "01";
    assert Partition(t, 2, 2).0 == none && Partition(t, 2, 2).1 == ["00", "01"];
    assert Binary(2) == "10" && ZeroPadded(2, 2) == "10";
    assert Partition(t, 2, 3).0 == none && Partition(t, 2, 3).1 == ["00", "01", "10"];
    assert Binary(3) == "11" && ZeroPadded(3, 2) == "11";
    assert Partition(t, 2, 4).0 == ["11"] && Partition(t, 2, 4).1 == ["00", "01", "10"];
  }

  /** The monomials of two variables of degree at most 1. */
  lemma AndTableMonomials()
    ensures Layers(2, 2) == ["00", "01", "10"]
  {
    var single: seq<seq<nat>> := [[]];
    assert PrependAll(1, single)[0] == [1];
    assert Combinations(1, 2, 1) == [[1]];
    assert PrependAll(0, single)[0] == [0];
    assert Combinations(0, 2, 1) == [[0], [1]];
    assert MonomialOf([], 2) == "00" && MonomialOf([0], 2) == "01" && MonomialOf([1], 2) == "10";
    assert Block(2, 0) == ["00"] && Block(2, 1) == ["01", "10"];
  }

  /** The point "11" lies in the support of every monomial of two variables
      of degree at most 1 that is listed first. */
  lemma AndTableRow()
    ensures EvalRow("11", ["00", "01"]) == [1, 1]
  {
    assert StrOps("1", "0") == 1 && StrOps("1", "1") == 1;
    assert StrOps("11", "00") == 1 && StrOps("11", "01") == 1;
  }

  /** On the one-set of AND the constant monomial alone has no annihilator. */
  lemma AndTableNoConstant()
    ensures NoAnnihilator(["11"], ["00"], 2)
  {
    AndTableRow();
    assert EvalRow("11", ["00"]) == [EvalRow("11", ["00", "01"])[0]];
    forall g | |g| == 1 && IsBitVector(g) && Vanishes(g, ["00"], ["11"], 2)
      ensures forall c :: 0 <= c < |g| ==> g[c] == 0
    {
      var points := ["11"];
      assert PolyEval(g, ["00"], points[0]) == 0;
      assert Products([1], g) == [g[0]];
    }
  }

  /** On the one-set of AND, `1 + x` over "00", "01" is an annihilator. */
  lemma AndTableLinear()
    ensures IsAnnihilator([1, 1], ["00", "01"], ["11"], 2)
  {
    AndTableRow();
    assert Products([1, 1], [1, 1]) == [1, 1];
    assert PolyEval([1, 1], ["00", "01"], "11") == 0;
    var g := [1, 1];
    assert g[0] == 1;
  }

  /** The points and monomials of the AND example are words of width 2. */
  lemma AndTableWords()
    ensures Words(["11"], 2) && Words(["00"], 2) && Words(["00", "01"], 2)
  {
    assert IsBinaryString("11") && IsBinaryString("00") && IsBinaryString("01");
  }

  /** With one point the loop of `find_min_annihilator` never runs and it
      answers the weight of the first monomial "00", which is 0; but the
      constant monomial does not vanish at "11", while `1 + x` over the
      first two monomials does, so the corrected search answers 1. */
  lemma AndTableCounterexample()
    ensures Partition([0, 0, 0, 1], 2, 4).0 == ["11"]
    ensures Layers(2, (2 + 1) / 2 + 1) == ["00", "01", "10"]
    ensures HammingWeight("00") == 0 && HammingWeight("01") == 1
    ensures Words(["11"], 2) && Words(["00"], 2) && Words(["00", "01"], 2)
    ensures NoAnnihilator(["11"], ["00"], 2) && IsAnnihilator([1, 1], ["00", "01"], ["11"], 2)
  {
    AndTableWords();
    AndTablePartition();
    AndTableMonomials();
    AndTableNoConstant();
    AndTableLinear();
  }

  /** On the zero-set of AND the constant monomial alone has no annihilator either. */
  lemma AndTableZerosNoConstant()
    ensures Words(["00", "01", "10"], 2) && Words(["00"], 2)
    ensures NoAnnihilator(["00", "01", "10"], ["00"], 2)
  {
    assert IsBinaryString("00") && IsBinaryString("01") && IsBinaryString("10");
    assert StrOps("0", "0") == 1 && StrOps("00", "00") == 1;
    assert EvalRow("00", ["00"]) == [1];
    forall g | |g| == 1 && IsBitVector(g) && Vanishes(g, ["00"], ["00", "01", "10"], 2)
      ensures forall c :: 0 <= c < |g| ==> g[c] == 0
    {
      var points := ["00", "01", "10"];
      assert PolyEval(g, ["00"], points[0]) == 0;
      assert Products([1], g) == [g[0]];
    }
  }

  /** Every answer of the corrected search on either part of AND is backed
      by a monomial of weight 1. */
  lemma AndTableBacked(v: nat, part: seq<string>, index: nat, annihilator: seq<int>)
    requires part == ["11"] || part == ["00", "01", "10"]
    requires Backed(v, part, index, annihilator, ["00", "01", "10"], 2)
    ensures v == 1
  {
    AndTableConstantFails(part, annihilator);
    var e := ["00", "01", "10"];
    assert e[..1] == ["00"];
    assert HammingWeight("10") == 1 && HammingWeight("01") == 1;
  }

  /** On either part of AND no polynomial over the constant monomial alone annihilates. */
  lemma AndTableConstantFails(part: seq<string>, g: seq<int>)
    requires part == ["11"] || part == ["00", "01", "10"]
    ensures Words(part, 2) && Words(["00"], 2) && !IsAnnihilator(g, ["00"], part, 2)
  {
    AndTableNoConstant();
    AndTableZerosNoConstant();
  }

  /** AND's one-set and zero-set do not outnumber the 3 monomials of degree at most 1. */
  lemma AndTableNoOverflow()
    ensures !Overflows([0, 0, 0, 1], 2)
  {
    AndTablePartition();
    assert Binomial(2, 0) == 1 && Binomial(2, 1) == 2;
    assert BinomialSum(2, 2) == 3;
  }

  /** On AND `algebraic_immunity` as written answers 0. */
  lemma AndTableAsWritten(res: Outcome<nat>, first: Run, second: Run)
    requires WrittenTop(Partition([0, 0, 0, 1], 2, 4).0, Partition([0, 0, 0, 1], 2, 4).1,
                        Layers(2, (2 + 1) / 2 + 1), 2, res, first, second)
    requires res.Ok?
    ensures res.value == 0
  {
    AndTablePartition();
  }

  /** On AND the corrected search answers 1, the algebraic immunity of AND. */
  lemma AndTableCorrected(res: Outcome<nat>, first: Run, second: Run)
    requires CorrectedTop(Partition([0, 0, 0, 1], 2, 4).0, Partition([0, 0, 0, 1], 2, 4).1,
                          Layers(2, (2 + 1) / 2 + 1), 2, res, first, second)
    requires res.Ok?
    ensures res.value == 1
  {
    AndTablePartition();
    AndTableMonomials();
    AndTableBacked(first.result.value.value, ["11"], first.index, first.annihilator);
    AndTableBacked(second.result.value.value, ["00", "01", "10"], second.index, second.annihilator);
    LeastOfTwo(1, 1);
  }

  // ---------------------------------------------------------------------
  // The AlgebraicImmunity object

  class AlgebraicImmunity {
    const truthTable: seq<Byte>

    constructor (truthTable: seq<Byte>)
      ensures this.truthTable == truthTable
    {
      this.truthTable := truthTable;
    }

    /** `compute_z`: the width-`n` renderings of the indices holding 1 and of
        the others, each in ascending index order. */
    method ComputeZ(n: nat) returns (trueIdxs: seq<string>, falseIdxs: seq<string>)
      ensures (trueIdxs, falseIdxs) == Partition(truthTable, n, |truthTable|)
    {
      trueIdxs := [];
      falseIdxs := [];
      for i := 0 to |truthTable|
        invariant (trueIdxs, falseIdxs) == Partition(truthTable, n, i)
      {
        var binStr := ZeroPadded(i, n);
        if truthTable[i] == 1 {
          trueIdxs := trueIdxs + [binStr];
        } else {
          falseIdxs := falseIdxs + [binStr];
        }
      }
    }

    /** Lines 78-82: the string with '1' at the positions `onesPositions`,
        read backwards. */
    static method BinaryString(onesPositions: seq<nat>, n: nat) returns (combination: string)
      requires forall t :: 0 <= t < |onesPositions| ==> onesPositions[t] < n
      ensures combination == MonomialOf(onesPositions, n)
    {
      var binaryString := seq(n, _ => '0');
      for t := 0 to |onesPositions|
        invariant |binaryString| == n
        invariant forall p :: 0 <= p < n ==> binaryString[p] == if p in onesPositions[..t] then '1' else '0'
      {
        assert onesPositions[..t + 1] == onesPositions[..t] + [onesPositions[t]];
        binaryString := binaryString[onesPositions[t] := '1'];
      }
      assert onesPositions[..|onesPositions|] == onesPositions;
      combination := seq(n, q requires 0 <= q < n => binaryString[n - 1 - q]);
    }

    /** `generate_combinations`: every monomial of degree at most `r`, by
        ascending degree and, within a degree, in `combinations` order. */
    static method GenerateCombinations(n: nat, r: nat) returns (allCombinations: seq<string>)
      ensures allCombinations == Layers(n, r + 1)
    {
      allCombinations := [];
      for k := 0 to r + 1
        invariant allCombinations == Layers(n, k)
      {
        var subsets := Combinations(0, n, k);
        CombinationsSound(0, n, k);
        for t := 0 to |subsets|
          invariant allCombinations == Layers(n, k) + Block(n, k)[..t]
        {
          var combination := BinaryString(subsets[t], n);
          assert Block(n, k)[..t + 1] == Block(n, k)[..t] + [combination];
          allCombinations := allCombinations + [combination];
        }
        assert Block(n, k)[..|subsets|] == Block(n, k);
      }
    }
  
    /** `find_min_annihilator` as written.  The test at line 136 compares
        the rank with `i + 1` although the matrix has only `i` rows, so it
        always holds: every search that does not stop early returns the
        weight of `e[|z| - 1]`, and lines 140-149 are never reached. */
    static method FindMinAnnihilator(z: seq<string>, e: seq<string>, ghost n: nat)
      returns (res: Outcome<Option<nat>>, ghost index: nat, ghost found: bool, ghost annihilator: seq<int>)
      requires Words(z, n) && Words(e, n) && (|e| > 0 ==> |z| > 0)
      ensures res == Ok(None) <==> |e| == 0
      ensures res == Panic ==> |e| < |z|
      ensures res.Ok? && res.value.Some? ==> index < |e| && res.value.value == HammingWeight(e[index])
      ensures found ==> res.Ok? && res.value.Some? && IsAnnihilator(annihilator, e[..index + 1], z, n)
      ensures res.Ok? && res.value.Some? && !found ==> index == |z| - 1
      ensures |e| > 0 && |z| == 1 ==> res == Ok(Some(HammingWeight(e[0])))
    {
      res, index, found, annihilator := Ok(None), 0, false, [];
      if |e| == 0 {
        return;
      }
      var stop, vm, i, evidence := RunSearch(z, e, n);
      match stop
      case Vanished =>
        res, index, found, annihilator := Ok(Some(HammingWeight(e[i]))), i, true, evidence;
      case OutOfMonomials =>
        res := Panic;
      case Exhausted =>
        var rank := vm.Rank();
        if rank < i + 1 {
          res, index := Ok(Some(HammingWeight(e[i - 1]))), i - 1;
        } else {
          assert false;
        }
    }
  
    /** `find_min_annihilator` with the test after the loop that lines
        136-149 evidently intend: a final matrix of short rank answers with
        the last monomial in it, a full one with the next monomial, and with
        no monomial left, the last monomial.  Every answer is backed by an
        annihilator over the monomials up to the answer, or, for the last
        monomial, by the absence of any annihilator. */
    static method FindMinAnnihilatorCorrected(z: seq<string>, e: seq<string>, ghost n: nat)
      returns (res: Outcome<Option<nat>>, ghost index: nat, ghost found: bool, ghost annihilator: seq<int>)
      requires Words(z, n) && Words(e, n) && (|e| > 0 ==> |z| > 0)
      ensures res == Ok(None) <==> |e| == 0
      ensures res == Panic ==> |e| < |z|
      ensures res.Ok? && res.value.Some? ==> index < |e| && res.value.value == HammingWeight(e[index])
      ensures found ==> res.Ok? && res.value.Some? && IsAnnihilator(annihilator, e[..index + 1], z, n)
      ensures res.Ok? && res.value.Some? && !found ==> index == |e| - 1 && NoAnnihilator(z, e, n)
    {
      res, index, found, annihilator := Ok(None), 0, false, [];
      if |e| > 0 {
        var stop, vm, i, evidence := RunSearch(z, e, n);
        var at: nat := 0;
        match stop {
          case Vanished =>
            at, found, annihilator := i, true, evidence;
          case OutOfMonomials =>
            res := Panic;
          case Exhausted =>
            var rank := vm.Rank();
            if rank < i {
              at, found, annihilator := i - 1, true, evidence;
              assert e[..at + 1] == e[..i];
            } else if i < |e| {
              at, found, annihilator := i, true, evidence;
            } else {
              at := |e| - 1;
            }
        }
        index := at;
        if !res.Panic? {
          res := Ok(Some(HammingWeight(e[at])));
        }
      }
    }
  
    /** The two searches of `algebraic_immunity` on non-empty parts, with
        `find_min_annihilator` as written, combined. */
    static method BothSearches(z: seq<string>, zC: seq<string>, e: seq<string>, ghost n: nat)
      returns (res: Outcome<nat>, ghost first: Run, ghost second: Run)
      requires Words(z, n) && Words(zC, n) && Words(e, n) && |z| > 0 && |zC| > 0 && |e| > 0
      ensures WrittenResult(first, z, e, n) && WrittenResult(second, zC, e, n)
      ensures Combined(res, first, second)
    {
      var r1, index1, found1, annihilator1 := FindMinAnnihilator(z, e, n);
      var r2, index2, found2, annihilator2 := FindMinAnnihilator(zC, e, n);
      first, second := Run(r1, index1, annihilator1), Run(r2, index2, annihilator2);
      if r1.Panic? || r2.Panic? {
        res := Panic;
      } else {
        res := Ok(LeastOrZero([r1.value, r2.value]));
      }
    }

    /** The two searches with the corrected `find_min_annihilator`, combined. */
    static method BothSearchesCorrected(z: seq<string>, zC: seq<string>, e: seq<string>, ghost n: nat)
      returns (res: Outcome<nat>, ghost first: Run, ghost second: Run)
      requires Words(z, n) && Words(zC, n) && Words(e, n) && |z| > 0 && |zC| > 0 && |e| > 0
      ensures CorrectedResult(first, z, e, n) && CorrectedResult(second, zC, e, n)
      ensures Combined(res, first, second)
    {
      var r1, index1, found1, annihilator1 := FindMinAnnihilatorCorrected(z, e, n);
      var r2, index2, found2, annihilator2 := FindMinAnnihilatorCorrected(zC, e, n);
      first, second := Run(r1, index1, annihilator1), Run(r2, index2, annihilator2);
      if r1.Panic? || r2.Panic? {
        res := Panic;
      } else {
        res := Ok(LeastOrZero([r1.value, r2.value]));
      }
    }

    /** Lines 48-66 of `algebraic_immunity` on a non-constant table, with
        `find_min_annihilator` as written. */
    static method SearchWrittenParts(z: seq<string>, zC: seq<string>, ghost table: seq<Byte>, n: nat)
      returns (res: Outcome<nat>, ghost first: Run, ghost second: Run)
      requires (z, zC) == Partition(table, n, |table|) && |z| > 0 && |zC| > 0 && |table| <= Pow(2, n)
      ensures WrittenTop(z, zC, Layers(n, (n + 1) / 2 + 1), n, res, first, second)
      ensures res.Ok? ==> res.value <= (n + 1) / 2
      ensures res == Panic ==> Overflows(table, n)
    {
      PartitionWords(table, n, |table|);
      var r := (n + 1) / 2;
      var e := GenerateCombinations(n, r);
      LayersFirst(n, r + 1);
      LayersWeights(n, r + 1);
      res, first, second := BothSearches(z, zC, e, n);
      WrittenTopHolds(z, zC, e, n, r, res, first, second);
      if res.Panic? {
        PanicOverflows(table, n, z, zC, e);
      }
    }

    /** Lines 48-66 of `algebraic_immunity` on a non-constant table, with
        the corrected search. */
    static method SearchCorrectedParts(z: seq<string>, zC: seq<string>, ghost table: seq<Byte>, n: nat)
      returns (res: Outcome<nat>, ghost first: Run, ghost second: Run)
      requires (z, zC) == Partition(table, n, |table|) && |z| > 0 && |zC| > 0 && |table| <= Pow(2, n)
      ensures CorrectedTop(z, zC, Layers(n, (n + 1) / 2 + 1), n, res, first, second)
      ensures res.Ok? ==> res.value <= (n + 1) / 2
      ensures res == Panic ==> Overflows(table, n)
    {
      PartitionWords(table, n, |table|);
      var r := (n + 1) / 2;
      var e := GenerateCombinations(n, r);
      LayersFirst(n, r + 1);
      LayersWeights(n, r + 1);
      res, first, second := BothSearchesCorrected(z, zC, e, n);
      CorrectedTopHolds(z, zC, e, n, r, res, first, second);
      if res.Panic? {
        PanicOverflows(table, n, z, zC, e);
      }
    }

    /** `algebraic_immunity` as written: 0 for a constant table; otherwise
        the least answer of `find_min_annihilator` on the one-set and on the
        zero-set, over the monomials of degree at most `(n + 1) / 2`, and a
        panic if either search panics. */
    static method AlgebraicImmunityOf(truthTable: seq<Byte>, n: nat)
      returns (res: Outcome<nat>, ghost first: Run, ghost second: Run)
      requires |truthTable| <= Pow(2, n)
      ensures Constant(truthTable) ==> res == Ok(0)
      ensures res.Ok? ==> res.value <= (n + 1) / 2
      ensures res == Panic ==> Overflows(truthTable, n)
      ensures !Constant(truthTable) ==>
        WrittenTop(Partition(truthTable, n, |truthTable|).0, Partition(truthTable, n, |truthTable|).1,
                   Layers(n, (n + 1) / 2 + 1), n, res, first, second)
    {
      first, second := Run(Panic, 0, []), Run(Panic, 0, []);
      var restrictedAi := new AlgebraicImmunity(truthTable);
      var z, zC := restrictedAi.ComputeZ(n);
      PartitionEmpty(truthTable, n, |truthTable|);
      if |z| == 0 || |zC| == 0 {
        res := Ok(0);
      } else {
        res, first, second := SearchWrittenParts(z, zC, truthTable, n);
      }
    }

    /** `algebraic_immunity` with the corrected search: as
        `AlgebraicImmunityOf`, each answer now backed by an annihilator or
        by the absence of one. */
    static method AlgebraicImmunityCorrected(truthTable: seq<Byte>, n: nat)
      returns (res: Outcome<nat>, ghost first: Run, ghost second: Run)
      requires |truthTable| <= Pow(2, n)
      ensures Constant(truthTable) ==> res == Ok(0)
      ensures res.Ok? ==> res.value <= (n + 1) / 2
      ensures res == Panic ==> Overflows(truthTable, n)
      ensures !Constant(truthTable) ==>
        CorrectedTop(Partition(truthTable, n, |truthTable|).0, Partition(truthTable, n, |truthTable|).1,
                     Layers(n, (n + 1) / 2 + 1), n, res, first, second)
    {
      first, second := Run(Panic, 0, []), Run(Panic, 0, []);
      var restrictedAi := new AlgebraicImmunity(truthTable);
      var z, zC := restrictedAi.ComputeZ(n);
      PartitionEmpty(truthTable, n, |truthTable|);
      if |z| == 0 || |zC| == 0 {
        res := Ok(0);
      } else {
        res, first, second := SearchCorrectedParts(z, zC, truthTable, n);
      }
    }
  }
}
