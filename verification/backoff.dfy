/** The stupid-backoff scorer (model.py). Estimates are exact reals; the
    float results NaN and +-Inf are one value, NonFinite; log10 is a
    parameter of the score. */
module Backoff {
  import opened Ngrams
  import opened CountTrie

  /** a to the power e. */
  function Pow(a: real, e: nat): (r: real)
    ensures a > 0.0 ==> r > 0.0
    ensures e == 0 ==> r == 1.0
  {
    if e == 0 then 1.0 else a * Pow(a, e - 1)
  }

  function Min(a: int, b: int): int
  {
    if a <= b then a else b
  }

  /** The exponent get_alpha_matrix leaves at row r, column p: each of the
      first k columns is the row index rolled up by p + 1; later columns
      keep the row index. */
  function AlphaExponent(k: nat, r: nat, p: nat): nat
    requires r < k
  {
    if p < k then (r + p + 1) % k else r
  }

  lemma ModOnce(x: nat, k: nat)
    requires 0 < k <= x < 2 * k
    ensures x % k == x - k
  {
    assert x == 1 * k + (x - k);
  }

  /** At a cell the masks keep (order n = k - r is at most p + 1), the
      discount exponent is the number of orders between n and the highest
      order available at p, min(p + 1, k): the highest available order is
      undiscounted, and from column k - 1 on row r holds exponent r. */
  lemma AlphaExponentOrder(k: nat, r: nat, p: nat)
    requires r < k && p + 1 >= k - r
    ensures AlphaExponent(k, r, p) == Min(p + 1, k) - (k - r)
    ensures p >= k - 1 ==> AlphaExponent(k, r, p) == r
    ensures AlphaExponent(k, r, p) == 0 <==> k - r == Min(p + 1, k)
  {
    if p < k {
      ModOnce(r + p + 1, k);
    }
  }

  /** One step of get_alpha_matrix's loop: column i of every row takes
      the entry of that column (r + i + 1) mod k rows further down,
      `jnp.roll(exponent_matrix[:, i], -(i+1))`. */
  function RollColumn(e: seq<seq<nat>>, i: nat): (e': seq<seq<nat>>)
    requires forall r :: 0 <= r < |e| ==> i < |e[r]|
    ensures |e'| == |e|
  {
    seq(|e|, r requires 0 <= r < |e| => e[r][i := e[(r + i + 1) % |e|][i]])
  }

  /** The exponent matrix after the loop has rolled its first i columns:
      rolled columns hold (r + p + 1) mod k, the others the row index r. */
  function Exponents(k: nat, seqLength: nat, i: nat): (e: seq<seq<nat>>)
    ensures |e| == k && forall r :: 0 <= r < k ==> |e[r]| == seqLength
  {
    seq(k, r requires 0 <= r < k => seq(seqLength, p => if p < i then (r + p + 1) % k else r))
  }

  /** Rolling column i of the matrix whose first i columns are rolled gives
      the matrix whose first i + 1 columns are rolled; past the last
      column nothing changes. */
  lemma RollStep(k: nat, seqLength: nat, i: nat)
    ensures i < seqLength ==> RollColumn(Exponents(k, seqLength, i), i) == Exponents(k, seqLength, i + 1)
    ensures i >= seqLength ==> Exponents(k, seqLength, i) == Exponents(k, seqLength, i + 1)
  {
    var e: seq<seq<nat>>, e': seq<seq<nat>> := Exponents(k, seqLength, i), Exponents(k, seqLength, i + 1);
    if i < seqLength {
      var rolled: seq<seq<nat>> := RollColumn(e, i);
      forall r | 0 <= r < k
        ensures rolled[r] == e'[r]
      {
        var q: nat := (r + i + 1) % k;
        assert e[q][i] == q;
        assert rolled[r] == e[r][i := q];
      }
    } else {
      forall r | 0 <= r < k
        ensures e[r] == e'[r]
      {
      }
    }
  }

  /** get_alpha_matrix (model.py:10-20): the exponent matrix starts with
      row index r everywhere, each of the first k columns is rolled in turn
      (an update to a column past seqLength is dropped, as JAX drops
      out-of-range updates), then alpha is raised to it. */
  method GetAlphaMatrix(alpha: real, k: nat, seqLength: nat) returns (m: seq<seq<real>>)
    ensures |m| == k
    ensures forall r :: 0 <= r < k ==> |m[r]| == seqLength
    ensures forall r, p :: 0 <= r < k && 0 <= p < seqLength ==> m[r][p] == Pow(alpha, AlphaExponent(k, r, p))
  {
    var e: seq<seq<nat>> := seq(k, r => seq(seqLength, _ => r));
    forall r | 0 <= r < k
      ensures e[r] == Exponents(k, seqLength, 0)[r]
    {
    }
    for i := 0 to k
      invariant e == Exponents(k, seqLength, i)
    {
      RollStep(k, seqLength, i);
      if i < seqLength {
        e := RollColumn(e, i);
      }
    }
    m := seq(k, r requires 0 <= r < k => seq(seqLength, p requires 0 <= p < seqLength => Pow(alpha, e[r][p])));
  }

  function Ones(n: nat): (r: seq<int>)
    ensures |r| == n && forall i :: 0 <= i < n ==> r[i] == 1
  {
    seq(n, _ => 1)
  }

  /** `jnp.tril(jnp.ones((k, k)))`: ones on and below the diagonal. */
  function Tril(k: nat): (t: seq<seq<int>>)
    ensures |t| == k && forall i :: 0 <= i < k ==> |t[i]| == k
  {
    seq(k, i => seq(k, j => if j <= i then 1 else 0))
  }

  /** `jnp.rot90` of a square matrix: a quarter turn counter-clockwise. */
  function Rot90(a: seq<seq<int>>): (t: seq<seq<int>>)
    requires forall i :: 0 <= i < |a| ==> |a[i]| == |a|
    ensures |t| == |a| && forall i :: 0 <= i < |a| ==> |t[i]| == |a|
  {
    var n := |a|;
    seq(n, i requires 0 <= i < n => seq(n, j requires 0 <= j < n => a[j][n - 1 - i]))
  }

  /** `ramp_mask` for one sequence (model.py:62-64). */
  function RampMask(k: nat, seqLength: nat): (t: seq<seq<int>>)
    requires k <= seqLength
    ensures |t| == k && forall r :: 0 <= r < k ==> |t[r]| == seqLength
  {
    var a := Rot90(Tril(k));
    var t := seq(k, r requires 0 <= r < k => a[r] + Ones(seqLength - k));
    assert forall r :: 0 <= r < k ==> t[r] == a[r] + Ones(seqLength - k);
    t
  }

  /** The length mask of a sequence with `sl` non-padding tokens (model.py:61). */
  function LengthMask(k: nat, seqLength: nat, sl: nat): (t: seq<seq<int>>)
    requires sl <= seqLength
    ensures |t| == k && forall r :: 0 <= r < k ==> |t[r]| == seqLength
  {
    seq(k, _ => Ones(sl) + Zeros(seqLength - sl))
  }

  /** The combined mask (model.py:65). */
  function Mask(k: nat, seqLength: nat, sl: nat): (t: seq<seq<int>>)
    requires k <= seqLength && sl <= seqLength
    ensures |t| == k && forall r :: 0 <= r < k ==> |t[r]| == seqLength
  {
    var lm, rm := LengthMask(k, seqLength, sl), RampMask(k, seqLength);
    seq(k, r requires 0 <= r < k => seq(seqLength, p requires 0 <= p < seqLength => lm[r][p] * rm[r][p]))
  }

  /** The mask keeps cell (r, p) exactly when p is one of the first `sl`
      positions and the order k - r is at most p + 1. */
  lemma MaskAt(k: nat, seqLength: nat, sl: nat, r: nat, p: nat)
    requires k <= seqLength && sl <= seqLength && r < k && p < seqLength
    ensures Mask(k, seqLength, sl)[r][p] == if p < sl && p + 1 >= k - r then 1 else 0
  {
    var a := Rot90(Tril(k));
    var lm, rm := LengthMask(k, seqLength, sl), RampMask(k, seqLength);
    assert lm[r][p] == if p < sl then 1 else 0 by {
      if p < sl {
        assert lm[r][p] == Ones(sl)[p];
      } else {
        assert lm[r][p] == Zeros(seqLength - sl)[p - sl];
      }
    }
    assert rm[r][p] == if p + 1 >= k - r then 1 else 0 by {
      if p < k {
        assert rm[r][p] == a[r][p] == Tril(k)[p][k - 1 - r];
      } else {
        assert rm[r][p] == Ones(seqLength - k)[p - k];
      }
    }
  }

  /** The scorer's state, set once at construction and only read after
      (model.py:25-34). The discount defaults to 0.4, as in `__init__`. */
  datatype StupidBackoff = StupidBackoff(tree: NgramTree, k: nat, N: int, alpha: real := 0.4)

  /** A sequence the scorer accepts: at least k tokens, as get_k_ngrams and
      the ramp mask need. */
  predicate Scorable(sb: StupidBackoff, s: seq<Token>)
  {
    1 <= sb.k <= |s|
  }

  /** `score_table` before masking (model.py:55-57): the count of every row
      of get_k_ngrams, reshaped to k rows of |s| columns. */
  function CountTable(sb: StupidBackoff, s: seq<Token>): (t: seq<seq<int>>)
    requires Scorable(sb, s)
    ensures |t| == sb.k && forall r :: 0 <= r < sb.k ==> |t[r]| == |s|
  {
    var counts := RowCounts(sb.tree, KNgrams(s, sb.k));
    KNgramsAt(s, sb.k);
    seq(sb.k, r requires 0 <= r < sb.k =>
      seq(|s|, p requires 0 <= p < |s| => counts[Flat(r, |s|, p)]))
  }

  /** `[self.get_ngram_count(i) for i in rows]`. */
  function RowCounts(t: NgramTree, rows: seq<seq<Token>>): (counts: seq<int>)
    ensures |counts| == |rows|
  {
    if rows == [] then [] else [NgramCount(t, rows[0])] + RowCounts(t, rows[1..])
  }

  lemma {:induction false} RowCountsAt(t: NgramTree, rows: seq<seq<Token>>, i: nat)
    requires i < |rows|
    ensures RowCounts(t, rows)[i] == NgramCount(t, rows[i])
  {
    if i > 0 {
      RowCountsAt(t, rows[1..], i - 1);
    }
  }

  /** The mask of this sequence. */
  function SeqMask(sb: StupidBackoff, s: seq<Token>, r: nat, p: nat): int
    requires Scorable(sb, s) && r < sb.k && p < |s|
  {
    Mask(sb.k, |s|, NonZeroCount(s))[r][p]
  }

  /** An entry multiplied by a 0/1 mask entry. */
  function ApplyMask(x: int, m: int): (r: int)
    ensures m == 0 ==> r == 0
    ensures m == 1 ==> r == x
  {
    x * m
  }

  /** `score_table` after masking (model.py:66). */
  function MaskedCount(sb: StupidBackoff, s: seq<Token>, r: nat, p: nat): int
    requires Scorable(sb, s) && r < sb.k && p < |s|
  {
    ApplyMask(CountTable(sb, s)[r][p], SeqMask(sb, s, r, p))
  }

  /** `denominator` (model.py:68-70): the masked table rolled up one row,
      its last row set to N, masked again. */
  function Denominator(sb: StupidBackoff, s: seq<Token>, r: nat, p: nat): int
    requires Scorable(sb, s) && r < sb.k && p < |s|
  {
    var below := if r + 1 == sb.k then 0 else r + 1;  // jnp.roll by -1 wraps around
    var rolled := MaskedCount(sb, s, below, p);
    ApplyMask(if r == sb.k - 1 then sb.N else rolled, SeqMask(sb, s, r, p))
  }

  /** `alpha_matrix` after masking (model.py:72-73). */
  function MaskedAlpha(sb: StupidBackoff, s: seq<Token>, r: nat, p: nat): real
    requires Scorable(sb, s) && r < sb.k && p < |s|
  {
    Pow(sb.alpha, AlphaExponent(sb.k, r, p)) * SeqMask(sb, s, r, p) as real
  }

  /** A float estimate: an exact real, or NaN / +-Inf from a division by zero. */
  datatype Estimate = Finite(value: real) | NonFinite

  /** `jnp.divide`: dividing by zero gives NaN (0/0) or an infinity. */
  function Divide(num: real, den: real): Estimate
  {
    if den == 0.0 then NonFinite else Finite(num / den)
  }

  /** A count times a discount, over a denominator. */
  function Quotient(count: int, discount: real, den: int): Estimate
  {
    Divide(count as real * discount, den as real)
  }

  /** `score_table` after the discount and the division (model.py:75-76). */
  function CellEstimate(sb: StupidBackoff, s: seq<Token>, r: nat, p: nat): Estimate
    requires Scorable(sb, s) && r < sb.k && p < |s|
  {
    Quotient(MaskedCount(sb, s, r, p), MaskedAlpha(sb, s, r, p), Denominator(sb, s, r, p))
  }

  /** `jnp.isfinite(x) & (x > 0)`. */
  predicate Usable(e: Estimate)
  {
    e.Finite? && e.value > 0.0
  }

  /** Number of usable estimates in a column. */
  function UsableCount(col: seq<Estimate>): (n: nat)
    ensures n <= |col|
  {
    if col == [] then 0 else (if Usable(col[0]) then 1 else 0) + UsableCount(col[1..])
  }

  /** `rows` (model.py:78): the column length k minus the number of usable
      estimates. The gather (model.py:82) clamps the out-of-range index k
      to k - 1. */
  function SelectRow(col: seq<Estimate>): (row: nat)
    requires col != []
    ensures row < |col|
  {
    var rows := |col| - UsableCount(col);
    if rows < |col| then rows else |col| - 1
  }

  /** The gathered estimate after `nan_to_num` (model.py:82-83), which turns
      NaN and the infinities into 1.0. */
  function SelectValue(col: seq<Estimate>): real
    requires col != []
  {
    match col[SelectRow(col)]
    case Finite(v) => v
    case NonFinite => 1.0
  }

  /** No usable estimate in a column is the same as a usable count of 0. */
  lemma {:induction false} NoneUsable(col: seq<Estimate>)
    ensures UsableCount(col) == 0 <==> forall i :: 0 <= i < |col| ==> !Usable(col[i])
  {
    if col != [] {
      NoneUsable(col[1..]);
      assert forall i :: 1 <= i < |col| ==> col[i] == col[1..][i - 1];
    }
  }

  /** When the usable estimates are exactly the last m of the column, the
      usable count is m. */
  lemma {:induction false} UsableSuffix(col: seq<Estimate>, m: nat)
    requires m <= |col|
    requires forall i :: 0 <= i < |col| ==> (Usable(col[i]) <==> i >= |col| - m)
    ensures UsableCount(col) == m
  {
    if col != [] {
      var m' := if m == |col| then m - 1 else m;
      assert forall i :: 0 <= i < |col| - 1 ==> col[1..][i] == col[i + 1];
      UsableSuffix(col[1..], m');
    }
  }

  /** The selection (model.py:78-83): when the usable estimates of a column
      are exactly its last m >= 1 rows (orders 1..m), row k - m, the highest
      usable order, is selected and its positive estimate used. */
  lemma SelectsHighestUsable(col: seq<Estimate>, m: nat)
    requires 1 <= m <= |col|
    requires forall i :: 0 <= i < |col| ==> (Usable(col[i]) <==> i >= |col| - m)
    ensures SelectRow(col) == |col| - m
    ensures Usable(col[|col| - m]) && SelectValue(col) == col[|col| - m].value
  {
    UsableSuffix(col, m);
  }

  /** A column with no usable estimate falls back to its last row; the value
      used is that row's estimate, or 1.0 if it is NonFinite. */
  lemma NoneUsableSelectsLast(col: seq<Estimate>)
    requires col != []
    requires forall i :: 0 <= i < |col| ==> !Usable(col[i])
    ensures SelectRow(col) == |col| - 1
    ensures SelectValue(col) == if col[|col| - 1].Finite? then col[|col| - 1].value else 1.0
  {
    NoneUsable(col);
  }

  /** Column p of the estimate table, rows 0..k-1. */
  function Column(sb: StupidBackoff, s: seq<Token>, p: nat): (col: seq<Estimate>)
    requires Scorable(sb, s) && p < |s|
    ensures |col| == sb.k
  {
    seq(sb.k, r requires 0 <= r < sb.k => CellEstimate(sb, s, r, p))
  }

  /** The value used at position p. */
  function PositionValue(sb: StupidBackoff, s: seq<Token>, p: nat): real
    requires Scorable(sb, s) && p < |s|
  {
    SelectValue(Column(sb, s, p))
  }

  /** The values of all positions of a sequence, `score` after `nan_to_num`. */
  function PositionValues(sb: StupidBackoff, s: seq<Token>): (vs: seq<real>)
    requires Scorable(sb, s)
    ensures |vs| == |s|
  {
    seq(|s|, p requires 0 <= p < |s| => PositionValue(sb, s, p))
  }

  /** Sum of log10 of the first n values, `jnp.log10(score).sum(1)`. */
  function SumLogs(log10: real -> real, vs: seq<real>, n: nat): real
    requires n <= |vs|
  {
    if n == 0 then 0.0 else SumLogs(log10, vs, n - 1) + log10(vs[n - 1])
  }

  /** The score of one sequence (model.py:84-86): the sum over all its
      positions of log10 of the position value. */
  function Score(sb: StupidBackoff, s: seq<Token>, log10: real -> real): real
    requires Scorable(sb, s)
  {
    SumLogs(log10, PositionValues(sb, s), |s|)
  }

  /** The scorer applied to one row. */
  function RowScorer(sb: StupidBackoff, log10: real -> real): seq<Token> --> real
  {
    s requires Scorable(sb, s) => Score(sb, s, log10)
  }

  /** A function applied to every row of a batch, as the vectorised code
      applies the scorer. */
  function MapRows(f: seq<Token> --> real, batch: seq<seq<Token>>): (out: seq<real>)
    requires forall i :: 0 <= i < |batch| ==> f.requires(batch[i])
    ensures |out| == |batch|
  {
    seq(|batch|, i requires 0 <= i < |batch| => f(batch[i]))
  }

  /** `StupidBackoff.score` on a batch: one score per row. */
  function BatchScore(sb: StupidBackoff, batch: seq<seq<Token>>, log10: real -> real): (scores: seq<real>)
    requires forall i :: 0 <= i < |batch| ==> Scorable(sb, batch[i])
  {
    MapRows(RowScorer(sb, log10), batch)
  }

  /** Row r of the count table holds, at column p, the count of the order
      k - r n-gram ending at position p. */
  lemma CountTableAt(sb: StupidBackoff, s: seq<Token>, r: nat, p: nat)
    requires Scorable(sb, s) && r < sb.k && p < |s|
    ensures CountTable(sb, s)[r][p] == OrderCount(sb, s, sb.k - r, p)
  {
    KNgramsAt(s, sb.k);
    RowCountsAt(sb.tree, KNgrams(s, sb.k), Flat(r, |s|, p));
  }

  /** The count the tree holds for the order-n n-gram ending at position p. */
  function OrderCount(sb: StupidBackoff, s: seq<Token>, n: nat, p: nat): int
    requires 1 <= n && p < |s|
  {
    NgramCount(sb.tree, NgramAt(s, n, p, sb.k))
  }

  /** The discount of order k - r at position p: alpha once per order
      between k - r and the highest order available at p, min(p + 1, k). */
  function Discount(sb: StupidBackoff, r: nat, p: nat): real
    requires r < sb.k && p + 1 >= sb.k - r
  {
    Pow(sb.alpha, Min(p + 1, sb.k) - (sb.k - r))
  }

  /** What the estimate of order n = k - r is divided by: N for a unigram,
      else the count of the (n - 1)-gram ending at p, the n-gram's suffix. */
  function BackoffBase(sb: StupidBackoff, s: seq<Token>, r: nat, p: nat): int
    requires r < sb.k && p < |s|
  {
    if r == sb.k - 1 then sb.N else OrderCount(sb, s, sb.k - r - 1, p)
  }

  /** The masks keep cell (r, p): p is one of the first NonZeroCount(s)
      positions and the order k - r fits in the p + 1 tokens up to p. */
  predicate Kept(sb: StupidBackoff, s: seq<Token>, r: nat, p: nat)
  {
    p < NonZeroCount(s) && p + 1 >= sb.k - r
  }

  lemma SeqMaskAt(sb: StupidBackoff, s: seq<Token>, r: nat, p: nat)
    requires Scorable(sb, s) && r < sb.k && p < |s|
    ensures SeqMask(sb, s, r, p) == if Kept(sb, s, r, p) then 1 else 0
  {
    MaskAt(sb.k, |s|, NonZeroCount(s), r, p);
  }

  /** The masked count table holds the order k - r count at kept cells, 0 elsewhere. */
  lemma MaskedCountAt(sb: StupidBackoff, s: seq<Token>, r: nat, p: nat)
    requires Scorable(sb, s) && r < sb.k && p < |s|
    ensures MaskedCount(sb, s, r, p) == if Kept(sb, s, r, p) then OrderCount(sb, s, sb.k - r, p) else 0
  {
    SeqMaskAt(sb, s, r, p);
    CountTableAt(sb, s, r, p);
  }

  /** The denominator of a kept cell of order n = k - r is N for a unigram
      and otherwise the count of the (n - 1)-gram ending at p, its suffix;
      a dropped cell has denominator 0. */
  lemma DenominatorAt(sb: StupidBackoff, s: seq<Token>, r: nat, p: nat)
    requires Scorable(sb, s) && r < sb.k && p < |s|
    ensures Denominator(sb, s, r, p) == if Kept(sb, s, r, p) then BackoffBase(sb, s, r, p) else 0
  {
    SeqMaskAt(sb, s, r, p);
    var m := SeqMask(sb, s, r, p);
    if !Kept(sb, s, r, p) {
    } else if r == sb.k - 1 {
      assert Denominator(sb, s, r, p) == ApplyMask(sb.N, m);
    } else {
      MaskedCountAt(sb, s, r + 1, p);
      assert Kept(sb, s, r + 1, p);
      var below := OrderCount(sb, s, sb.k - (r + 1), p);
      assert BackoffBase(sb, s, r, p) == below;
      assert Denominator(sb, s, r, p) == ApplyMask(below, m);
    }
  }

  /** The masked discount of a kept cell is alpha to the number of orders
      between its order and the highest order available at p; 0 elsewhere. */
  lemma MaskedAlphaAt(sb: StupidBackoff, s: seq<Token>, r: nat, p: nat)
    requires Scorable(sb, s) && r < sb.k && p < |s|
    ensures Kept(sb, s, r, p) ==> MaskedAlpha(sb, s, r, p) == Discount(sb, r, p)
    ensures !Kept(sb, s, r, p) ==> MaskedAlpha(sb, s, r, p) == 0.0
  {
    SeqMaskAt(sb, s, r, p);
    if Kept(sb, s, r, p) {
      AlphaExponentOrder(sb.k, r, p);
    }
  }

  /** The estimate of one cell (model.py:66-76). A cell the masks drop is
      0 / 0, NonFinite. A kept cell of order n = k - r is the count of the
      n-gram ending at p, discounted by alpha once per order between n and
      min(p + 1, k), divided by the count of the (n - 1)-gram ending at p
      (its suffix, not its context), or by N for a unigram. */
  lemma EstimateAt(sb: StupidBackoff, s: seq<Token>, r: nat, p: nat)
    requires Scorable(sb, s) && r < sb.k && p < |s|
    ensures !Kept(sb, s, r, p) ==> CellEstimate(sb, s, r, p) == NonFinite
    ensures Kept(sb, s, r, p) ==>
      CellEstimate(sb, s, r, p) == Quotient(OrderCount(sb, s, sb.k - r, p), Discount(sb, r, p), BackoffBase(sb, s, r, p))
  {
    MaskedCountAt(sb, s, r, p);
    DenominatorAt(sb, s, r, p);
    MaskedAlphaAt(sb, s, r, p);
  }

  /** When the usable estimates of column p are exactly those of orders
      1..m (m >= 1), the position's value is the order-m estimate, which is
      usable. */
  lemma BackoffSelects(sb: StupidBackoff, s: seq<Token>, p: nat, m: nat)
    requires Scorable(sb, s) && p < |s| && 1 <= m <= sb.k
    requires forall r :: 0 <= r < sb.k ==> (Usable(Column(sb, s, p)[r]) <==> r >= sb.k - m)
    ensures Usable(CellEstimate(sb, s, sb.k - m, p))
    ensures CellEstimate(sb, s, sb.k - m, p) == Finite(PositionValue(sb, s, p))
  {
    var col := Column(sb, s, p);
    SelectsHighestUsable(col, m);
    assert col[sb.k - m] == CellEstimate(sb, s, sb.k - m, p);
  }

  /** Backoff at position p: under the same condition, the order-m cell is
      kept and the position's value is the order-m count, discounted, over
      its base. */
  lemma BackoffValue(sb: StupidBackoff, s: seq<Token>, p: nat, m: nat)
    requires Scorable(sb, s) && p < |s| && 1 <= m <= sb.k
    requires forall r :: 0 <= r < sb.k ==> (Usable(Column(sb, s, p)[r]) <==> r >= sb.k - m)
    ensures Kept(sb, s, sb.k - m, p)
    ensures Quotient(OrderCount(sb, s, m, p), Discount(sb, sb.k - m, p), BackoffBase(sb, s, sb.k - m, p)) ==
      Finite(PositionValue(sb, s, p))
  {
    BackoffSelects(sb, s, p, m);
    EstimateAt(sb, s, sb.k - m, p);
  }

  /** Every terminal count of the tree is non-negative. */
  predicate CountsNonNegative(t: NgramTree)
  {
    forall q :: q in t.trie.terminal ==> t.trie.terminal[q] >= 0
  }

  /** The tree main.py builds from cells of non-negative count has
      non-negative counts. */
  lemma BuiltCountsNonNegative(cells: seq<Cell>, total: int)
    requires forall i :: 0 <= i < |cells| ==> cells[i].count >= 0
    ensures CountsNonNegative(BuildSpec(cells, total))
  {
    FoldNonNegative(cells);
  }

  /** A quotient of a non-negative count, a positive discount and a positive
      denominator that is not usable is 0. */
  lemma QuotientNotUsable(c: int, a: real, n: int)
    requires c >= 0 && a > 0.0 && n > 0
    requires !Usable(Quotient(c, a, n))
    ensures Quotient(c, a, n) == Finite(0.0)
  {
    if c > 0 {
      assert c as real * a > 0.0;
    }
  }

  /** A real position whose column holds no usable estimate falls back to
      row k - 1, the unigram row; the unigram count is then 0, so the
      position's value is 0.0 (log10 gives -inf) rather than a neutral 1.0. */
  lemma ExhaustedColumn(sb: StupidBackoff, s: seq<Token>, p: nat)
    requires Scorable(sb, s) && p < NonZeroCount(s)
    requires sb.alpha > 0.0 && sb.N > 0 && CountsNonNegative(sb.tree)
    requires UsableCount(Column(sb, s, p)) == 0
    ensures SelectRow(Column(sb, s, p)) == sb.k - 1
    ensures PositionValue(sb, s, p) == 0.0
  {
    var col := Column(sb, s, p);
    var r := sb.k - 1;
    NoneUsable(col);
    NoneUsableSelectsLast(col);
    EstimateAt(sb, s, r, p);
    var c := OrderCount(sb, s, 1, p);
    assert c >= 0;
    QuotientNotUsable(c, Discount(sb, r, p), sb.N);
  }

  /** Positions from NonZeroCount(s) on are masked in every row: no
      estimate there is usable and the position's value is the neutral 1.0. */
  lemma PastTokens(sb: StupidBackoff, s: seq<Token>, p: nat)
    requires Scorable(sb, s) && NonZeroCount(s) <= p < |s|
    ensures UsableCount(Column(sb, s, p)) == 0
    ensures PositionValue(sb, s, p) == 1.0
  {
    var col := Column(sb, s, p);
    forall q | 0 <= q < sb.k
      ensures col[q] == NonFinite
    {
      EstimateAt(sb, s, q, p);
    }
    NoneUsable(col);
    NoneUsableSelectsLast(col);
  }

  /** Values 1.0 add nothing to the sum when log10(1.0) == 0: a sum that
      runs on over such values equals the sum before them. */
  lemma {:induction false} SumLogsOnes(log10: real -> real, vs: seq<real>, base: nat, n: nat)
    requires base <= n <= |vs| && log10(1.0) == 0.0
    requires forall p :: base <= p < n ==> vs[p] == 1.0
    ensures SumLogs(log10, vs, n) == SumLogs(log10, vs, base)
    decreases n
  {
    if n > base {
      SumLogsOnes(log10, vs, base, n - 1);
    }
  }

  /** With log10(1.0) == 0, the score of a sequence is the sum over its
      first NonZeroCount(s) positions only: padding contributes nothing. */
  lemma ScoreOverTokens(sb: StupidBackoff, s: seq<Token>, log10: real -> real)
    requires Scorable(sb, s) && log10(1.0) == 0.0
    ensures Score(sb, s, log10) == SumLogs(log10, PositionValues(sb, s), NonZeroCount(s))
  {
    var vs := PositionValues(sb, s);
    forall p | NonZeroCount(s) <= p < |s| ensures vs[p] == 1.0 {
      PastTokens(sb, s, p);
    }
    SumLogsOnes(log10, vs, NonZeroCount(s), |s|);
  }

  /** Scoring is row by row: scoring a batch is scoring its parts. */
  lemma MapRowsAppend(f: seq<Token> --> real, a: seq<seq<Token>>, b: seq<seq<Token>>)
    requires forall i :: 0 <= i < |a| ==> f.requires(a[i])
    requires forall i :: 0 <= i < |b| ==> f.requires(b[i])
    ensures forall i :: 0 <= i < |a + b| ==> f.requires((a + b)[i])
    ensures MapRows(f, a + b) == MapRows(f, a) + MapRows(f, b)
  {
    var ab := a + b;
    forall i | 0 <= i < |ab| ensures f.requires(ab[i]) {
      if i >= |a| {
        assert ab[i] == b[i - |a|];
      }
    }
    var x, y, z := MapRows(f, ab), MapRows(f, a), MapRows(f, b);
    forall i | 0 <= i < |ab| ensures x[i] == (y + z)[i] {
      if i < |a| {
        assert ab[i] == a[i];
      } else {
        assert ab[i] == b[i - |a|];
      }
    }
  }

  lemma BatchScoreAppend(sb: StupidBackoff, a: seq<seq<Token>>, b: seq<seq<Token>>, log10: real -> real)
    requires forall i :: 0 <= i < |a| ==> Scorable(sb, a[i])
    requires forall i :: 0 <= i < |b| ==> Scorable(sb, b[i])
    ensures forall i :: 0 <= i < |a + b| ==> Scorable(sb, (a + b)[i])
    ensures BatchScore(sb, a + b, log10) == BatchScore(sb, a, log10) + BatchScore(sb, b, log10)
  {
    MapRowsAppend(RowScorer(sb, log10), a, b);
  }
}
