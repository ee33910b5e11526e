/** The counting pass and the compaction fold of main.py (lines 73-127):
    count the non-padding tokens, accumulate one count cell per extracted
    row, then fold the cells into the nested count tree. */
module Compaction {
  import opened Ngrams
  import opened CountTrie

  /** A batch is a list of equally long token sequences (rows). */
  type Batch = seq<seq<Token>>

  /** Every row of every batch is at least k tokens long, as get_k_ngrams needs. */
  predicate RowsLongEnough(batches: seq<Batch>, k: nat)
  {
    forall b, i :: 0 <= b < |batches| && 0 <= i < |batches[b]| ==> |batches[b][i]| >= k
  }

  /** Non-padding tokens of a batch, as `seq[jnp.where(seq != 0)].shape[0]`. */
  function BatchNonZero(batch: Batch): nat
  {
    if batch == [] then 0 else BatchNonZero(batch[..|batch| - 1]) + NonZeroCount(batch[|batch| - 1])
  }

  /** Non-padding tokens over a list of batches. */
  function CorpusNonZero(batches: seq<Batch>): nat
  {
    if batches == [] then 0 else CorpusNonZero(batches[..|batches| - 1]) + BatchNonZero(batches[|batches| - 1])
  }

  /** The token count over several batches is the sum of the per-batch counts. */
  lemma {:induction false} CorpusNonZeroAppend(a: seq<Batch>, b: seq<Batch>)
    ensures CorpusNonZero(a + b) == CorpusNonZero(a) + CorpusNonZero(b)
    decreases |b|
  {
    if b == [] {
      assert a + b == a;
    } else {
      var b' := b[..|b| - 1];
      assert (a + b)[..|a + b| - 1] == a + b';
      assert (a + b)[|a + b| - 1] == b[|b| - 1];
      CorpusNonZeroAppend(a, b');
    }
  }

  /** The increments of `increment_fn` for a list of rows, summed with `.sum(0)`:
      one count-1 cell per row. */
  function RowCells(rows: seq<seq<Token>>, k: nat): (cells: seq<Cell>)
    requires forall i :: 0 <= i < |rows| ==> |rows[i]| <= k
    ensures |cells| == |rows|
    ensures forall i :: 0 <= i < |rows| ==> cells[i].count == 1 && |cells[i].coord| == k
    ensures forall i :: 0 <= i < |rows| && |rows[i]| == k ==> cells[i].coord == rows[i]
  {
    if rows == [] then []
    else
      var last := rows[|rows| - 1];
      assert Pad(last, k)[..|last|] == last;
      RowCells(rows[..|rows| - 1], k) + IncrementAtCoordinate(last, k)
  }

  /** The rows `pmap(get_k_ngrams)` yields for a batch, after `reshape(-1, k)`:
      the k * L rows of each sequence, sequence after sequence. */
  function BatchRows(batch: Batch, k: nat): (rows: seq<seq<Token>>)
    requires 1 <= k && forall i :: 0 <= i < |batch| ==> |batch[i]| >= k
    ensures forall i :: 0 <= i < |rows| ==> |rows[i]| == k
  {
    if batch == [] then []
    else
      var s := batch[|batch| - 1];
      KNgramsWidth(s, k);
      BatchRows(batch[..|batch| - 1], k) + KNgrams(s, k)
  }

  /** Cells accumulated over a list of batches. */
  function CorpusCells(batches: seq<Batch>, k: nat): seq<Cell>
    requires 1 <= k && RowsLongEnough(batches, k)
  {
    if batches == [] then []
    else
      var b := batches[|batches| - 1];
      CorpusCells(batches[..|batches| - 1], k) + RowCells(BatchRows(b, k), k)
  }

  /** Every accumulated cell has count 1 and a width-k coordinate. */
  lemma {:induction false} CorpusCellsShape(batches: seq<Batch>, k: nat)
    requires 1 <= k && RowsLongEnough(batches, k)
    ensures forall i :: 0 <= i < |CorpusCells(batches, k)| ==>
      CorpusCells(batches, k)[i].count == 1 && |CorpusCells(batches, k)[i].coord| == k
  {
    if batches != [] {
      var init := batches[..|batches| - 1];
      assert RowsLongEnough(init, k) by {
        forall b, i | 0 <= b < |init| && 0 <= i < |init[b]| ensures |init[b][i]| >= k {
          assert init[b] == batches[b];
        }
      }
      CorpusCellsShape(init, k);
    }
  }

  /** One more batch: the token total and the cells of the first i + 1
      batches extend those of the first i. */
  lemma CorpusStep(batches: seq<Batch>, k: nat, i: nat)
    requires 1 <= k && RowsLongEnough(batches, k) && i < |batches|
    ensures RowsLongEnough(batches[..i + 1], k)
    ensures CorpusNonZero(batches[..i + 1]) == CorpusNonZero(batches[..i]) + BatchNonZero(batches[i])
    ensures CorpusCells(batches[..i + 1], k) == CorpusCells(batches[..i], k) + RowCells(BatchRows(batches[i], k), k)
  {
    var next := batches[..i + 1];
    assert next[..i] == batches[..i];
    assert next[i] == batches[i];
    forall b, j | 0 <= b < |next| && 0 <= j < |next[b]| ensures |next[b][j]| >= k {
      assert next[b] == batches[b];
    }
  }

  /** The counting loop (main.py:73, 81-94): `total_tokens` grows by the
      number of non-padding tokens of each batch, and the matrix, seeded by
      `init_matrix`, gains one count-1 cell per extracted row. */
  method CountCorpus(batches: seq<Batch>, k: nat) returns (cells: seq<Cell>, totalTokens: nat)
    requires 1 <= k && RowsLongEnough(batches, k)
    ensures totalTokens == CorpusNonZero(batches)
    ensures cells == InitMatrix(k) + CorpusCells(batches, k)
  {
    cells := InitMatrix(k);
    totalTokens := 0;
    var idx := 0;
    while idx < |batches|
      invariant 0 <= idx <= |batches|
      invariant RowsLongEnough(batches[..idx], k)
      invariant totalTokens == CorpusNonZero(batches[..idx])
      invariant cells == InitMatrix(k) + CorpusCells(batches[..idx], k)
    {
      var batch := batches[idx];
      CorpusStep(batches, k, idx);
      totalTokens := totalTokens + BatchNonZero(batch);
      var allX := BatchRows(batch, k);
      var increments := RowCells(allX, k);
      AppendAssoc(InitMatrix(k), CorpusCells(batches[..idx], k), increments);
      cells := cells + increments;
      idx := idx + 1;
    }
    assert batches[..idx] == batches;
  }

  /** One pass of the compaction loop body (main.py:104-125): walk the
      cell's coordinate from the root, creating missing children, and add
      the count to the terminal slot where the walk stops. `nodes` and
      `terminal` are the nested dict `tree` seen through its paths;
      `cursor` is `_tree`. */
  method InsertCell(nodes: set<Path>, terminal: map<Path, int>, cell: Cell)
    returns (nodes': set<Path>, terminal': map<Path, int>)
    requires [] in nodes
    ensures Trie(nodes', terminal') == Insert(Trie(nodes, terminal), cell)
  {
    nodes', terminal' := nodes, terminal;
    var indices := cell.coord;
    var count := cell.count;
    var i := 0;
    var cursor: Path := [];
    assert cursor[..0] == [] && [] in Prefixes(cursor);
    assert Prefixes(cursor) == {[]};
    while i < |indices|
      invariant 0 <= i <= |indices|
      invariant indices != [] ==> i < WalkLength(indices)
      invariant cursor == indices[..i]
      invariant nodes' == nodes + Prefixes(cursor)
      invariant terminal' == terminal
    {
      var idx := indices[i];
      if cursor + [idx] !in nodes' {
        nodes' := nodes' + {cursor + [idx]};
      }
      PrefixesSnoc(cursor, idx);
      cursor := cursor + [idx];
      SnocSlice(indices, i);
      WalkStops(indices, i);
      if i == |indices| - 1 || indices[i + 1] == 0 {
        if cursor in terminal' {
          terminal' := terminal'[cursor := terminal'[cursor] + count];
        } else {
          terminal' := terminal'[cursor := count];
        }
        InsertAt(Trie(nodes, terminal), cell, i, nodes', terminal');
        return;
      }
      i := i + 1;
    }
    assert indices == [];
  }

  /** The compaction fold (main.py:101-127): every cell in turn, then root
      key 0 is overwritten with the token total. */
  method BuildTree(cells: seq<Cell>, totalTokens: int) returns (tree: NgramTree)
    ensures tree == BuildSpec(cells, totalTokens)
  {
    var nodes: set<Path> := {[]};
    var terminal: map<Path, int> := map[];
    var n := 0;
    while n < |cells|
      invariant 0 <= n <= |cells|
      invariant Trie(nodes, terminal) == Fold(cells[..n])
    {
      FoldValid(cells[..n]);
      nodes, terminal := InsertCell(nodes, terminal, cells[n]);
      assert cells[..n + 1][..n] == cells[..n];
      n := n + 1;
    }
    assert cells[..n] == cells;
    tree := SetTotal(Trie(nodes, terminal), totalTokens);
  }
}
