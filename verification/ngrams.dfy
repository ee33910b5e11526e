/** N-gram extraction and count cells (util.py).
    Token id 0 is the padding sentinel; real vocabulary ids start at 1. */
module Ngrams {

  type Token = nat

  /** A (coordinate, count) entry of the sparse count matrix. The matrix is a
      list of such cells in which a coordinate may repeat; repeats add up. */
  datatype Cell = Cell(coord: seq<Token>, count: int)

  /** `count` padding sentinels. */
  function Zeros(count: nat): (r: seq<Token>)
    ensures |r| == count
    ensures forall i :: 0 <= i < count ==> r[i] == 0
  {
    seq(count, _ => 0)
  }

  /** Number of non-padding tokens in a sequence, as `(seq != 0).sum()`. */
  function NonZeroCount(s: seq<Token>): (n: nat)
    ensures n <= |s|
  {
    if s == [] then 0 else (if s[0] != 0 then 1 else 0) + NonZeroCount(s[1..])
  }

  /** Every position is counted exactly when no token is the sentinel. */
  lemma {:induction false} NonZeroCountFull(s: seq<Token>)
    ensures NonZeroCount(s) == |s| <==> forall i :: 0 <= i < |s| ==> s[i] != 0
  {
    if s != [] {
      NonZeroCountFull(s[1..]);
      assert forall i :: 1 <= i < |s| ==> s[i] == s[1..][i - 1];
    }
  }

  /** `pad`: a window shorter than `n` gets sentinels appended up to length
      `n` (real tokens first, zeros after); a longer one is returned as is. */
  function Pad(s: seq<Token>, n: nat): (r: seq<Token>)
    ensures |r| == if |s| < n then n else |s|
    ensures r[..|s|] == s
    ensures forall i :: |s| <= i < |r| ==> r[i] == 0
  {
    if |s| < n then s + Zeros(n - |s|) else s
  }

  /** The `scan` of `get_ngrams`: each step appends the next token to the
      carried window and drops the window's oldest token. */
  function ScanWindows(carry: seq<Token>, rest: seq<Token>): seq<seq<Token>>
    decreases |rest|
  {
    if rest == [] then []
    else
      var y := (carry + [rest[0]])[1..];
      [y] + ScanWindows(y, rest[1..])
  }

  /** `get_ngrams`: the first window (`history`) followed by the scanned ones,
      each padded to width `k`. */
  function GetNgrams(s: seq<Token>, n: nat, k: nat): seq<seq<Token>>
    requires 1 <= n <= |s|
  {
    var windows := [s[..n]] + ScanWindows(s[..n], s[n..]);
    seq(|windows|, i requires 0 <= i < |windows| => Pad(windows[i], k))
  }

  lemma {:induction false} ScanWindowsAt(w: seq<Token>, n: nat)
    requires 1 <= n <= |w|
    ensures |ScanWindows(w[..n], w[n..])| == |w| - n
    ensures forall i :: 0 <= i < |w| - n ==> ScanWindows(w[..n], w[n..])[i] == w[i + 1..i + 1 + n]
    decreases |w|
  {
    if |w| > n {
      var y := (w[..n] + [w[n]])[1..];
      assert y == w[1..n + 1];
      var w' := w[1..];
      assert w'[..n] == y;
      assert w'[n..] == w[n..][1..];
      ScanWindowsAt(w', n);
      var tail := ScanWindows(y, w[n..][1..]);
      assert ScanWindows(w[..n], w[n..]) == [y] + tail;
      forall i | 0 <= i < |w| - n
        ensures ScanWindows(w[..n], w[n..])[i] == w[i + 1..i + 1 + n]
      {
        if i > 0 {
          assert tail[i - 1] == w'[i..i + n];
          assert w'[i..i + n] == w[i + 1..i + 1 + n];
        }
      }
    }
  }

  /** `get_ngrams(s, n, k)` yields the |s| - n + 1 windows of width `n`,
      window `i` being s[i..i+n] right-padded to width `k`. */
  lemma GetNgramsWindows(s: seq<Token>, n: nat, k: nat)
    requires 1 <= n <= |s|
    ensures |GetNgrams(s, n, k)| == |s| - n + 1
    ensures forall i :: 0 <= i <= |s| - n ==> GetNgrams(s, n, k)[i] == Pad(s[i..i + n], k)
  {
    GetNgramsLength(s, n, k);
    forall i | 0 <= i <= |s| - n ensures GetNgrams(s, n, k)[i] == Pad(s[i..i + n], k) {
      GetNgramsRow(s, n, k, i);
    }
  }

  lemma GetNgramsLength(s: seq<Token>, n: nat, k: nat)
    requires 1 <= n <= |s|
    ensures |GetNgrams(s, n, k)| == |s| - n + 1
  {
    ScanWindowsAt(s, n);
  }

  /** Window i of get_ngrams, one window at a time. */
  lemma GetNgramsRow(s: seq<Token>, n: nat, k: nat, i: nat)
    requires 1 <= n <= |s| && i <= |s| - n
    ensures i < |GetNgrams(s, n, k)| && GetNgrams(s, n, k)[i] == Pad(s[i..i + n], k)
  {
    var scan := ScanWindows(s[..n], s[n..]);
    ScanWindowsAt(s, n);
    var windows := [s[..n]] + scan;
    if i == 0 {
      assert windows[0] == s[0..n];
    } else {
      assert windows[i] == scan[i - 1] == s[i..i + n];
    }
  }

  /** The row of the order-`n` block that stands at column `p`: all sentinels
      while the window would start before the sequence, otherwise the window
      of `n` tokens ending at `p`, right-padded to width `k`. */
  function NgramAt(s: seq<Token>, n: nat, p: nat, k: nat): seq<Token>
    requires 1 <= n && p < |s|
  {
    if p < n - 1 then Zeros(k) else Pad(s[p - n + 1..p + 1], k)
  }

  /** `jnp.zeros((n - 1, k))` for one sequence: m all-sentinel rows of width k. */
  function ZeroRows(m: nat, k: nat): (z: seq<seq<Token>>)
    ensures |z| == m && forall i :: 0 <= i < m ==> z[i] == Zeros(k)
  {
    seq(m, _ => Zeros(k))
  }

  /** One block of `get_k_ngrams`: n-1 all-sentinel rows, then the order-n windows. */
  function OrderBlock(s: seq<Token>, n: nat, k: nat): seq<seq<Token>>
    requires 1 <= n <= |s|
  {
    ZeroRows(n - 1, k) + GetNgrams(s, n, k)
  }

  /** The blocks of orders n, n-1, ..., 1, concatenated in that order. */
  function BlocksDown(s: seq<Token>, n: nat, k: nat): seq<seq<Token>>
    requires n <= |s|
    decreases n
  {
    if n == 0 then [] else OrderBlock(s, n, k) + BlocksDown(s, n - 1, k)
  }

  /** `get_k_ngrams` for one sequence: k blocks of |s| rows, order k first. */
  function KNgrams(s: seq<Token>, k: nat): seq<seq<Token>>
    requires 1 <= k <= |s|
  {
    BlocksDown(s, k, k)
  }

  /** Each order-n block has exactly |s| rows, row p being NgramAt(s, n, p, k). */
  lemma OrderBlockAt(s: seq<Token>, n: nat, k: nat)
    requires 1 <= n <= |s|
    ensures |OrderBlock(s, n, k)| == |s|
    ensures forall p :: 0 <= p < |s| ==> OrderBlock(s, n, k)[p] == NgramAt(s, n, p, k)
  {
    OrderBlockLength(s, n, k);
    forall p | 0 <= p < |s| ensures OrderBlock(s, n, k)[p] == NgramAt(s, n, p, k) {
      OrderBlockRow(s, n, k, p);
    }
  }

  /** Index of row `p` of block `j` once blocks of `l` rows are stacked,
      as the reshape to (-1, k) lays them out. */
  function Flat(j: nat, l: nat, p: nat): nat
  {
    j * l + p
  }

  lemma MulStep(n: nat, l: nat)
    requires n > 0
    ensures n * l == l + (n - 1) * l
  {
  }

  lemma OrderBlockLength(s: seq<Token>, n: nat, k: nat)
    requires 1 <= n <= |s|
    ensures |OrderBlock(s, n, k)| == |s|
  {
    GetNgramsLength(s, n, k);
  }

  lemma {:induction false} BlocksDownLength(s: seq<Token>, n: nat, k: nat)
    requires n <= |s|
    ensures |BlocksDown(s, n, k)| == n * |s|
    decreases n
  {
    if n > 0 {
      OrderBlockLength(s, n, k);
      BlocksDownLength(s, n - 1, k);
      MulStep(n, |s|);
    }
  }

  /** Row p of the order-n block, one row at a time. */
  lemma OrderBlockRow(s: seq<Token>, n: nat, k: nat, p: nat)
    requires 1 <= n <= |s| && p < |s|
    ensures p < |OrderBlock(s, n, k)| && OrderBlock(s, n, k)[p] == NgramAt(s, n, p, k)
  {
    if p < n - 1 {
      LeadingZeroRow(s, n, k, p);
    } else {
      WindowRow(s, n, k, p);
    }
  }

  /** The first n - 1 rows of the order-n block are all sentinels. */
  lemma LeadingZeroRow(s: seq<Token>, n: nat, k: nat, p: nat)
    requires 1 <= n <= |s| && p < n - 1
    ensures p < |OrderBlock(s, n, k)| && OrderBlock(s, n, k)[p] == Zeros(k)
  {
    AppendLeft(ZeroRows(n - 1, k), GetNgrams(s, n, k), p);
  }

  /** Row p >= n - 1 of the order-n block is the window ending at p. */
  lemma WindowRow(s: seq<Token>, n: nat, k: nat, p: nat)
    requires 1 <= n <= |s| && n - 1 <= p < |s|
    ensures p < |OrderBlock(s, n, k)| && OrderBlock(s, n, k)[p] == Pad(s[p - n + 1..p + 1], k)
  {
    var i := p - (n - 1);
    GetNgramsRow(s, n, k, i);
    AppendRight(ZeroRows(n - 1, k), GetNgrams(s, n, k), i);
    assert i == p - n + 1 && i + n == p + 1;
  }

  lemma AppendAssoc<T>(a: seq<T>, b: seq<T>, c: seq<T>)
    ensures (a + b) + c == a + (b + c)
  {
  }

  lemma AppendLeft<T>(a: seq<T>, b: seq<T>, i: nat)
    requires i < |a|
    ensures (a + b)[i] == a[i]
  {
  }

  lemma AppendRight<T>(a: seq<T>, b: seq<T>, i: nat)
    requires i < |b|
    ensures |a| + i < |a + b| && (a + b)[|a| + i] == b[i]
  {
  }

  lemma {:induction false} BlocksDownRow(s: seq<Token>, n: nat, k: nat, j: nat, p: nat)
    requires n <= |s| && j < n && p < |s|
    ensures Flat(j, |s|, p) < |BlocksDown(s, n, k)|
    ensures BlocksDown(s, n, k)[Flat(j, |s|, p)] == NgramAt(s, n - j, p, k)
    decreases n
  {
    var l := |s|;
    var head := OrderBlock(s, n, k);
    var rest := BlocksDown(s, n - 1, k);
    assert BlocksDown(s, n, k) == head + rest;
    if j == 0 {
      OrderBlockRow(s, n, k, p);
      AppendLeft(head, rest, p);
      assert Flat(j, l, p) == p;
    } else {
      OrderBlockLength(s, n, k);
      BlocksDownRow(s, n - 1, k, j - 1, p);
      var q := Flat(j - 1, l, p);
      AppendRight(head, rest, q);
      MulStep(j, l);
      assert Flat(j, l, p) == l + q;
      assert (n - 1) - (j - 1) == n - j;
    }
  }

  lemma BlocksDownAt(s: seq<Token>, n: nat, k: nat)
    requires n <= |s|
    ensures |BlocksDown(s, n, k)| == n * |s|
    ensures forall j, p :: 0 <= j < n && 0 <= p < |s| ==>
      Flat(j, |s|, p) < n * |s| && BlocksDown(s, n, k)[Flat(j, |s|, p)] == NgramAt(s, n - j, p, k)
  {
    BlocksDownLength(s, n, k);
    forall j, p | 0 <= j < n && 0 <= p < |s|
      ensures Flat(j, |s|, p) < n * |s| && BlocksDown(s, n, k)[Flat(j, |s|, p)] == NgramAt(s, n - j, p, k)
    {
      BlocksDownRow(s, n, k, j, p);
    }
  }

  /** `get_k_ngrams(s, k)` yields k * |s| rows: row Flat(r, |s|, p) is the
      order-(k - r) n-gram ending at column p (so orders run from k down to 1),
      and its first k - r - 1 rows are all sentinels. */
  lemma KNgramsAt(s: seq<Token>, k: nat)
    requires 1 <= k <= |s|
    ensures |KNgrams(s, k)| == k * |s|
    ensures forall r, p :: 0 <= r < k && 0 <= p < |s| ==>
      Flat(r, |s|, p) < k * |s| && KNgrams(s, k)[Flat(r, |s|, p)] == NgramAt(s, k - r, p, k)
  {
    BlocksDownAt(s, k, k);
  }

  /** Every row of `get_k_ngrams` has width k: the n real tokens of its
      window first, then k - n sentinels. */
  lemma NgramAtShape(s: seq<Token>, n: nat, p: nat, k: nat)
    requires 1 <= n <= k && p < |s|
    ensures |NgramAt(s, n, p, k)| == k
    ensures p >= n - 1 ==> NgramAt(s, n, p, k)[..n] == s[p - n + 1..p + 1]
    ensures forall i :: (if p >= n - 1 then n else 0) <= i < k ==> NgramAt(s, n, p, k)[i] == 0
  {
  }

  lemma {:induction false} BlocksDownWidth(s: seq<Token>, n: nat, k: nat)
    requires n <= |s| && n <= k
    ensures forall i :: 0 <= i < |BlocksDown(s, n, k)| ==> |BlocksDown(s, n, k)[i]| == k
    decreases n
  {
    if n > 0 {
      OrderBlockAt(s, n, k);
      forall p | 0 <= p < |s| ensures |OrderBlock(s, n, k)[p]| == k {
        NgramAtShape(s, n, p, k);
      }
      BlocksDownWidth(s, n - 1, k);
    }
  }

  /** Every row `get_k_ngrams` yields has width k. */
  lemma KNgramsWidth(s: seq<Token>, k: nat)
    requires 1 <= k <= |s|
    ensures forall i :: 0 <= i < |KNgrams(s, k)| ==> |KNgrams(s, k)[i]| == k
  {
    BlocksDownWidth(s, k, k);
  }

  /** `init_matrix`: a single cell of count 1 at the all-sentinel coordinate. */
  function InitMatrix(k: nat): (m: seq<Cell>)
    ensures |m| == 1 && m[0].count == 1
    ensures |m[0].coord| == k && forall i :: 0 <= i < k ==> m[0].coord[i] == 0
  {
    [Cell(Zeros(k), 1)]
  }

  /** `increment_at_coordinate`: a single cell of count 1 at the n-gram
      right-padded with sentinels to width k. The matrix argument of the
      source only supplies the shape, which is not modelled. */
  function IncrementAtCoordinate(ngram: seq<Token>, k: nat): (m: seq<Cell>)
    requires |ngram| <= k
    ensures |m| == 1 && m[0].count == 1
    ensures |m[0].coord| == k && m[0].coord[..|ngram|] == ngram
    ensures forall i :: |ngram| <= i < k ==> m[0].coord[i] == 0
  {
    [Cell(Pad(ngram, k), 1)]
  }
}
