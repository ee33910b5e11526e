# Stupid-backoff n-gram counting and scoring, in Dafny

This project models the integer core of jax-stupid-backoff, an n-gram
language model.

1. **Extraction (util.py):** slide windows of every order 1..k over a token
   sequence. Token 0 is padding. Right-pad each window with zeros to width k.
   Stack the windows into the k·L rows of `get_k_ngrams`.
2. **Counting (main.py):** count the non-padding tokens and accumulate one
   count cell per row. The sparse count matrix is modelled as a list of
   (coordinate, count) cells in which a coordinate may repeat.
3. **Compaction (main.py):** fold the cells into a nested dict (the count
   trie), then overwrite root key 0 with the token total. The nested dict is
   seen through its paths: a set of node paths plus a map from path to the
   value under that node's `-1` key.
4. **Lookup (util.py):** `get_ngram_count` walks the trie up to the first 0.
5. **Scoring (model.py):** `StupidBackoff.score` and `get_alpha_matrix`.
   - Build a k × L count table.
   - Mask it by sequence length and by order (order ≤ p + 1).
   - Divide each count by the next lower order's count at the same column,
     or by N for unigrams, after discounting by alpha.
   - In each column, select row k minus the number of finite positive
     estimates.
   - Sum log10 of the selected values.

The modules are:

- `Ngrams` (ngrams.dfy)
- `CountTrie` (trie.dfy)
- `Compaction` (compaction.dfy)
- `Backoff` (backoff.dfy)

The imperative parts are Dafny methods with loops, each proved against a
specification function:

- the lookup loop;
- the counting loop;
- the per-cell walk;
- the fold;
- the column rolls of the alpha matrix.

The pure parts are functions with lemmas about them.

Main results:

- **Round trip:** looking up a coordinate in the built tree returns the sum
  of the counts of the cells whose walk ends at the same node
  (`CountTrie.RoundTrip`).
- **Order independence:** the tree depends only on the multiset of cells
  (`CountTrie.FoldPermutation`).
- **Closed form of each estimate:** `Backoff.EstimateAt`.
- **Backoff selection:** when orders 1..m are the usable ones, the value at
  a position is the order-m estimate (`Backoff.BackoffValue`).
- **Padding is neutral in the score:** `Backoff.ScoreOverTokens`.

Four behaviours of the code shape the model:

- **Padding side:** windows are right-padded, so the real tokens come
  first and zeros fill the rest of the width-k row (util.py:100-107).
- **Denominator:** for order n it is the count of the (n-1)-gram ending at
  the same column, that is the n-gram's suffix: the masked table rolled up
  one row (model.py:68-70).
- **Alpha exponents:** they are rolled per column. Row r holds
  alpha^((r+p+1) mod k) in columns p < k and alpha^r from column k-1 on
  (model.py:13-16).
- **A real position with no usable estimate:** the gather clamps row k to
  row k-1. That row holds a finite 0.0, so log10 gives -inf
  (model.py:78-84, `Backoff.ExhaustedColumn`).

## Model

| member | source | states |
|---|---|---|
| Ngrams.NonZeroCount | model.py:59 | The number of non-padding tokens, `(seq != 0).sum()`, never exceeds the length. |
| Ngrams.NonZeroCountFull | model.py:59 | The count equals the length exactly when no token is the sentinel 0. |
| Ngrams.Pad | util.py:98-107 | A window shorter than n is extended to length n: its tokens first, then zeros. A window of length ≥ n is returned unchanged. |
| Ngrams.ScanWindows | util.py:15-19 | Defines the scan of `get_ngrams`: each step appends the next token to the carried window, drops its oldest token and emits the result. |
| Ngrams.ScanWindowsAt | util.py:15-19 | The scan that appends a token and drops the oldest yields \|w\|-n windows; window i is w[i+1..i+1+n]. |
| Ngrams.GetNgrams | util.py:10-25 | Defines `get_ngrams`: the initial window `history` followed by the windows of the scan, each right-padded to width k. |
| Ngrams.GetNgramsLength | util.py:10-25 | get_ngrams yields L-n+1 windows. |
| Ngrams.GetNgramsRow | util.py:10-25 | Window i of get_ngrams is s[i..i+n] right-padded to width k: the initial `history` for i = 0, scan step i - 1 after. |
| Ngrams.GetNgramsWindows | util.py:10-25 | get_ngrams yields L-n+1 windows; window i is s[i..i+n] right-padded to width k. |
| Ngrams.ZeroRows | util.py:40 | The front-fill of a block is n-1 rows, each k sentinels. |
| Ngrams.NgramAt | util.py:38-42 | Defines row p of the order-n block: k zeros while p < n-1, else the window s[p-n+1..p+1] right-padded to width k. |
| Ngrams.OrderBlock | util.py:38-42 | Defines the order-n block of one sequence: n-1 zero rows followed by the rows of get_ngrams. |
| Ngrams.OrderBlockAt | util.py:38-42 | The order-n block has L rows. Its first n-1 rows are all zeros; row p ≥ n-1 is the window of n tokens ending at p, padded to width k. |
| Ngrams.LeadingZeroRow | util.py:38-42 | Rows p < n-1 of the order-n block are all sentinels. |
| Ngrams.WindowRow | util.py:38-42 | Row p ≥ n-1 of the order-n block is the window s[p-n+1..p+1], padded to width k. |
| Ngrams.OrderBlockRow | util.py:38-42 | Row p of the order-n block is NgramAt(s, n, p, k): sentinels before the window fits, else the window ending at p. |
| Ngrams.BlocksDown | util.py:35-46 | Defines the concatenation of the blocks of orders n down to 1, in that order. |
| Ngrams.BlocksDownLength | util.py:35-46 | n stacked blocks hold n·L rows. |
| Ngrams.BlocksDownRow | util.py:35-46 | Row j·L+p of the stacked blocks of orders n..1 is the order n-j n-gram ending at p. |
| Ngrams.BlocksDownAt | util.py:35-46 | The same for all j < n and p < L at once. |
| Ngrams.KNgrams | util.py:31-46 | Defines `get_k_ngrams`: the order blocks for n = k down to 1, each n-1 zero rows followed by get_ngrams, stacked into k·L rows. |
| Ngrams.KNgramsAt | util.py:31-46 | get_k_ngrams yields k·L rows. Row r·L+p is the order k-r n-gram ending at column p, so orders run from k down to 1. |
| Ngrams.NgramAtShape | util.py:40-41 | Every row has width k: the n real tokens of its window, then zeros. Rows that stand before the sequence start are all zeros. |
| Ngrams.BlocksDownWidth | util.py:35-46 | Every row of the stacked blocks has width k. |
| Ngrams.KNgramsWidth | util.py:31-46 | Every row of get_k_ngrams has width k. |
| Ngrams.InitMatrix | util.py:49-55 | The seed matrix is one cell of count 1 at the all-zero coordinate of width k. |
| Ngrams.IncrementAtCoordinate | util.py:58-77 | Requires len(ngram) ≤ k (the source's assert). Yields one cell of count 1 at the ngram followed by zeros up to width k. |
| CountTrie.LeadRun | util.py:84-90 | Defines the node the lookup loop reaches: the tokens before the first 0, or all of them. |
| CountTrie.LeadingNonZero | util.py:84-86 | The lookup walk takes exactly the tokens before the first 0 (or all of them). |
| CountTrie.WalkPath | main.py:109-118 | Defines the node where the fold's walk of a coordinate stops: element 0 is always taken, then elements up to the last or up to the one before the next 0. |
| CountTrie.WalkLength | main.py:109-125 | The fold's walk consumes at least one element of any non-empty coordinate, and never more than its length. |
| CountTrie.WalkStops | main.py:118 | The walk stops right after position i exactly when i is the last position or the next element is 0. |
| CountTrie.WalkPathIsLeadRun | main.py:109-125 | For a coordinate starting with a real token, the fold's walk and the lookup walk reach the same node. |
| CountTrie.PaddingCollapses | main.py:118-123 | Trailing zeros do not move a walk: [5, 0, 0] ends on the same node as [5]. |
| CountTrie.Insert | main.py:104-125 | Defines the walk of one cell: create each missing child along the walk, then add the count to the `-1` slot of the node where the walk stops. |
| CountTrie.EmptyTrie | main.py:101 | Defines `tree = {}`: only the root node and no slot. |
| CountTrie.Fold | main.py:101-125 | Defines the fold: insert the cells one by one into an empty dict, in the order of the list. |
| CountTrie.InsertEffect | main.py:104-125 | One cell: no node is removed; the nodes along its path are created and no others; exactly one terminal slot, at the walk's end, gains the count (created if absent); every other slot is unchanged. |
| CountTrie.BuildSpec | main.py:101-127 | Defines the tree main.py builds: the fold of the cells, then root key 0 overwritten by the token total. |
| CountTrie.SetTotal | main.py:127 | `tree[0] = total_tokens`: the total is stored and everything under root key 0 disappears; every other node and slot is unchanged. |
| CountTrie.InsertValid | main.py:112-116 | Inserting a cell keeps every prefix of every node a node and every terminal slot on a node. |
| CountTrie.FoldValid | main.py:101-125 | The fold only builds such trees. |
| CountTrie.InsertSlot | main.py:118-124 | A cell changes the slot of node p only when its walk ends at p, and then adds its count. |
| CountTrie.FoldKeys | main.py:118-124 | After the fold, node p has a terminal slot iff some cell's walk ends at p. |
| CountTrie.FoldSlot | main.py:118-124 | After the fold, the slot of p holds the sum of the counts of the cells whose walk ends at p (0 when none does). |
| CountTrie.FoldTerminal | main.py:118-124 | After the fold, node p has a terminal slot iff some cell's walk ends at p, and the slot holds the sum of those cells' counts. |
| CountTrie.FoldRootHasNoTerminal | main.py:109-125 | The root never gets a terminal slot. |
| CountTrie.FoldNonNegative | main.py:120-123 | Non-negative cell counts give non-negative terminal counts. |
| CountTrie.InsertMerge | main.py:120-123 | Two cells at one coordinate build the same tree as one cell holding the sum of their counts, so merging repeats in the matrix changes nothing. |
| CountTrie.InsertCommutes | main.py:102-125 | Two cells inserted in either order give the same tree. |
| CountTrie.FoldSnoc | main.py:102-125 | Folding one more cell is inserting it into the tree built so far. |
| CountTrie.FoldMoveLast | main.py:102-125 | Folding s + [x] + u equals inserting x into the fold of s + u. |
| CountTrie.FoldPermutation | main.py:102-125 | Two cell lists with the same multiset build the same tree. |
| CountTrie.SetTotalValid | main.py:127 | Overwriting root key 0 keeps the tree well formed. |
| CountTrie.NgramCount | util.py:80-95 | Defines `get_ngram_count` in closed form: the `-1` slot of the node reached by the tokens before the first 0, or 0 when that node or slot is missing. `GetNgramCount` is proved equal to it. |
| CountTrie.GetNgramCount | util.py:80-95 | The lookup loop returns the terminal count of the node reached by the tokens before the first 0. It returns 0 when a node is missing or has no slot. |
| CountTrie.RoundTrip | util.py:80-95 | On the built tree, looking up a coordinate whose first token is real returns the sum of the counts of all cells whose walk ends at the same node. A coordinate that is empty or starts with 0 returns 0. |
| Compaction.BatchNonZero | main.py:90 | Defines the token count one batch adds: the number of non-zero tokens over its sequences. |
| Compaction.CorpusNonZero | main.py:81-90 | Defines `total_tokens` after a list of batches: the sum of their batch counts, starting from 0. |
| Compaction.CorpusNonZeroAppend | main.py:81-90 | The token total over consecutive batches is the sum of their totals. |
| Compaction.CorpusCells | main.py:81-94 | Defines the accumulated increments: the cells of every batch, in batch order. |
| Compaction.RowCells | main.py:94 | The increments of a batch are one count-1 cell per row, at that row's coordinate. |
| Compaction.BatchRows | main.py:92 | Every row extracted from a batch has width k. |
| Compaction.CorpusCellsShape | main.py:92-94 | Every accumulated cell has count 1 and a width-k coordinate. |
| Compaction.CorpusStep | main.py:81-94 | One more batch adds its non-padding tokens to the total and its cells after those of the earlier batches. |
| Compaction.CountCorpus | main.py:73-94 | The counting loop yields the total of non-padding tokens over all batches and the seed cell followed by every batch's cells. |
| Compaction.InsertCell | main.py:104-125 | The per-cell walk over the mutable dict, cursor and counter produces the tree Insert specifies. |
| Compaction.BuildTree | main.py:101-127 | The fold loop plus `tree[0] = total_tokens` produces BuildSpec(cells, total). |
| Backoff.Pow | model.py:18-20 | `jnp.power` on a constant base: positive for a positive base, 1 for exponent 0. |
| Backoff.AlphaExponentOrder | model.py:13-16 | At a kept cell the exponent is the number of orders between k-r and min(p+1, k). It is r from column k-1 on. It is 0 exactly for the highest order available at p. |
| Backoff.RollColumn | model.py:15-16 | Defines one loop step: column i of row r takes the entry of column i in row (r + i + 1) mod k, as `jnp.roll(..., -(i+1))` sets it. |
| Backoff.Exponents | model.py:13-16 | Defines the exponent matrix after the first i columns are rolled: (r + p + 1) mod k in rolled columns, the row index r elsewhere. |
| Backoff.RollStep | model.py:15-16 | One roll of column i turns the matrix whose first i columns are rolled into the one whose first i + 1 are; a column past seq_length changes nothing. |
| Backoff.GetAlphaMatrix | model.py:10-20 | The column-rolling loop yields a k × seqLength matrix with alpha^((r+p+1) mod k) in columns p < k and alpha^r after. |
| Backoff.Tril | model.py:62 | `jnp.tril(jnp.ones((k,k)))`: a k × k matrix with ones on and below the diagonal. |
| Backoff.Rot90 | model.py:62 | `jnp.rot90` of a square matrix: same size, a quarter turn counter-clockwise. |
| Backoff.RampMask | model.py:62-64 | Defines `ramp_mask`: the rotated lower triangle of ones followed by ones, k rows of seq_length columns. |
| Backoff.LengthMask | model.py:61 | Defines the length mask: ones over the first `sl` columns and zeros after, k rows of seq_length columns. |
| Backoff.Mask | model.py:65 | Defines the combined mask as the cell-wise product of the two, k rows of seq_length columns. |
| Backoff.MaskAt | model.py:59-65 | The combined mask is 1 at (r, p) iff p < the number of real tokens and p + 1 ≥ k - r, for seq_length ≥ k. |
| Backoff.RowCounts | model.py:57 | The list comprehension yields one count per row of get_k_ngrams. |
| Backoff.RowCountsAt | model.py:57 | Count i of the comprehension is the tree's count of row i. |
| Backoff.CountTable | model.py:55-57 | `score_table` before masking: the lookups of the rows of get_k_ngrams reshaped to k rows of seq_length columns. |
| Backoff.CountTableAt | model.py:55-57 | Count-table entry (r, p) is the tree's count of the order k-r n-gram ending at p. |
| Backoff.SeqMaskAt | model.py:59-65 | The mask of a sequence is 1 exactly at kept cells. |
| Backoff.MaskedCount | model.py:66 | Defines `score_table` after masking: the count entry times the mask entry. |
| Backoff.MaskedCountAt | model.py:66 | The masked table holds the order k-r count at kept cells and 0 elsewhere. |
| Backoff.Denominator | model.py:68-70 | Defines `denominator`: the masked table rolled up one row with wrap-around, its last row set to N, masked again. |
| Backoff.DenominatorAt | model.py:68-70 | The denominator of a kept cell is N for the unigram row, else the count of the next lower order at the same column. A dropped cell's denominator is 0. |
| Backoff.MaskedAlpha | model.py:72-73 | Defines the masked alpha matrix: the discount alpha^AlphaExponent times the mask entry. |
| Backoff.MaskedAlphaAt | model.py:72-73 | The masked discount is alpha^(min(p+1,k) - (k-r)) at kept cells and 0 elsewhere. |
| Backoff.CellEstimate | model.py:72-76 | Defines the estimate of a cell: masked count times masked discount, divided by the denominator, NonFinite on division by 0. |
| Backoff.Divide | model.py:76 | Defines `jnp.divide`: the real quotient, or NonFinite when the denominator is 0. |
| Backoff.EstimateAt | model.py:66-76 | A dropped cell is 0/0, so NonFinite. A kept cell is its count times the discount over its backoff base. |
| Backoff.Usable | model.py:78 | Defines `jnp.isfinite(x) & (x > 0)` on an estimate. |
| Backoff.UsableCount | model.py:78 | The number of usable estimates in a column, never more than the column's length. |
| Backoff.SelectRow | model.py:78-82 | The selected row always exists: k minus the number of usable estimates, with k clamped to k-1. |
| Backoff.SelectValue | model.py:78-83 | Defines the value of a column: the estimate at the selected row, or 1.0 when it is NonFinite, as `nan_to_num`. |
| Backoff.NoneUsable | model.py:78 | The usable count is 0 iff no estimate in the column is finite and positive. |
| Backoff.SelectsHighestUsable | model.py:78-82 | When exactly the last m ≥ 1 rows are usable, row k-m is selected, and its positive value is used. |
| Backoff.NoneUsableSelectsLast | model.py:78-83 | With nothing usable, the last row is selected; its value is used, or 1.0 if it is NaN or infinite. |
| Backoff.Column | model.py:82 | Column p of the estimate table: k estimates, one per order row, as the gather reads them. |
| Backoff.PositionValue | model.py:82-83 | Defines the value at position p: the selected estimate of column p after `nan_to_num`. |
| Backoff.BackoffSelects | model.py:78-83 | When orders 1..m are exactly the usable ones, the order-m estimate is usable and is the position's value. |
| Backoff.BackoffValue | model.py:66-83 | When orders 1..m are exactly the usable ones, the order-m cell is kept and the position's value is the order-m count, discounted, over its base. |
| Backoff.BuiltCountsNonNegative | main.py:120-123 | Trees built from non-negative cells have non-negative counts. |
| Backoff.ExhaustedColumn | model.py:78-83 | Given alpha > 0, N > 0 and non-negative counts, a real position with no usable estimate falls back to the unigram row and has value 0.0. |
| Backoff.PastTokens | model.py:61-83 | A position past the real tokens is NonFinite in every row, and its value is the neutral 1.0. |
| Backoff.Score | model.py:45-86 | Defines the score of one sequence: the sum over all its positions of log10 of the position value. |
| Backoff.PositionValues | model.py:82-83 | One value per position of the sequence. |
| Backoff.SumLogsOnes | model.py:84-86 | Values 1.0 add nothing to the sum of log10 when log10(1.0) = 0. |
| Backoff.ScoreOverTokens | model.py:84-86 | The score of a sequence equals the sum over its first NonZeroCount(s) positions; padding positions contribute 0. |
| Backoff.BatchScore | model.py:45-86 | Defines `score` on a batch: the sequence score of each row, in row order. |
| Backoff.BatchScoreAppend | model.py:84-86 | Rows are scored independently: scoring a batch is scoring its parts and concatenating. |

## Left out

- **Dataset, tokenizer and CLI:** dataset loading, tokenizer construction, argument parsing and XLA setup (main.py:1-69) are I/O and configuration.
- **Device parallelism:** `pmap`, `vmap`, `jit` and the device-count reshapes are read as "apply to each sequence in order". A batch is a list of sequences.
- **Sparse matrix internals:** BCOO storage, the matrix shape and the vocabulary size are not modelled. The matrix is the list of its cells. `CountTrie.InsertMerge` shows that two cells at one coordinate, inserted one after the other, build the same tree as one merged cell, and `CountTrie.FoldPermutation` that the cells may be reordered to bring repeats together, so merging repeated coordinates anywhere in the list would not change the tree.
- **Integer width:** the source holds counts in int32 arrays: the BCOO data, the count table built by `jnp.asarray` (model.py:57), the token counts `base` (model.py:59) and the denominator that `N` is written into (model.py:69). The model's counts and N are unbounded integers, so a count or token total of 2^31 or more, which int32 cannot hold, is not modelled.
- **Checkpoints:** saving and loading with `jnp.save`/`jnp.load` is file I/O.
- **Plots and perplexity:** plotting, quantiles and the perplexity transform in main.py after line 128 work on floats.
- **Floats:** counts, discounts and quotients are exact reals. `jnp.power` is `Pow` and `jnp.divide` is real division, with division by 0 giving `NonFinite`. NaN and the infinities are one value, `NonFinite`. `log10` is a parameter of `Backoff.Score`, and float rounding and summation order are not modelled.
- **The scorer's derived state:** `StupidBackoff.__init__` stores its arguments, which are the fields of the `Backoff.StupidBackoff` record. It also builds the `get_ngram_count` partial over the tree, the pmap of `get_k_ngrams` and reads the device count (model.py:34-42). These are derived from the arguments or concern devices; the model calls `CountTrie.NgramCount` and `Ngrams.KNgrams` directly.
- Ngrams.IncrementAtCoordinate: the source's `assert k >= len(ngram)` is a precondition, so the assertion failure is not modelled.
- CountTrie.GetNgramCount: requires the dict to be well formed: the root exists, node paths are prefix closed, and slots hang on nodes. Every nested dict has this shape, and `FoldValid` and `SetTotalValid` prove it for the built tree.
- Backoff.MaskAt: states the mask only for seq_length ≥ k, which the source needs in order to build the ramp mask.
- Ngrams.KNgrams: requires 1 ≤ k ≤ |s|. For a shorter sequence `jax.lax.slice` at util.py:12 fails for n > len; this error path is a precondition and is not modelled.
- Compaction.CountCorpus: requires, through `RowsLongEnough`, every sequence of every batch to hold at least k tokens, for the same reason.
- Backoff.Scorable: the scorer's members require 1 ≤ k ≤ |s|, for the same reason; the ramp mask also needs seq_length ≥ k.
