/** The count trie: the nested dict that main.py builds from the count cells
    and that util.get_ngram_count walks. A nested dict is seen here through
    its paths: `nodes` holds the path of every dict (the root is []), and
    `terminal` maps a path to the value under that dict's -1 key. */
module CountTrie {
  import opened Ngrams

  type Path = seq<Token>

  datatype Trie = Trie(nodes: set<Path>, terminal: map<Path, int>)

  /** The tree as the scorer receives it: the trie, with root key 0 holding
      the total token count instead of a sub-dict. */
  datatype NgramTree = NgramTree(trie: Trie, total: int)

  /** Every nested dict has this shape: the root exists, every node's
      ancestors exist, and terminal slots belong to existing nodes. */
  ghost predicate Valid(t: Trie)
  {
    && [] in t.nodes
    && (forall p, i {:trigger p[..i]} :: p in t.nodes && 0 <= i <= |p| ==> p[..i] in t.nodes)
    && t.terminal.Keys <= t.nodes
  }

  /** Number of leading non-sentinel tokens. */
  function LeadingNonZero(s: seq<Token>): (n: nat)
    ensures n <= |s|
    ensures forall i :: 0 <= i < n ==> s[i] != 0
    ensures n == |s| || s[n] == 0
  {
    if s == [] || s[0] == 0 then 0 else 1 + LeadingNonZero(s[1..])
  }

  /** The path the lookup walk follows: the tokens before the first sentinel. */
  function LeadRun(c: seq<Token>): Path
  {
    c[..LeadingNonZero(c)]
  }

  /** How many elements the compaction walk consumes: the first one always
      (even a sentinel), then each next one while it exists and is non-zero. */
  function WalkLength(c: seq<Token>): (n: nat)
    ensures n <= |c|
    ensures c != [] <==> n >= 1
  {
    if c == [] then 0 else 1 + LeadingNonZero(c[1..])
  }

  /** The path of the node whose terminal slot a cell with coordinate `c` feeds. */
  function WalkPath(c: seq<Token>): Path
  {
    c[..WalkLength(c)]
  }

  /** The walk stops right after position i exactly when i is the last
      position or the next token is a sentinel (main.py:118). */
  lemma WalkStops(c: seq<Token>, i: nat)
    requires i < WalkLength(c)
    ensures i + 1 == WalkLength(c) <==> (i == |c| - 1 || c[i + 1] == 0)
  {
    var w := LeadingNonZero(c[1..]);
    if i < w {
      assert c[1..][i] == c[i + 1];
    } else if i + 1 < |c| {
      assert c[1..][w] == c[i + 1];
    }
  }

  lemma {:induction false} LeadingNonZeroPadded(d: seq<Token>, m: nat)
    ensures LeadingNonZero(d + Zeros(m)) == LeadingNonZero(d)
  {
    if d != [] && d[0] != 0 {
      assert (d + Zeros(m))[1..] == d[1..] + Zeros(m);
      LeadingNonZeroPadded(d[1..], m);
    }
  }

  /** Trailing padding does not move a walk: a window running into the
      padding, such as [5, 0, 0], ends on the same node as [5]. */
  lemma PaddingCollapses(c: seq<Token>, m: nat)
    requires c != []
    ensures WalkPath(c + Zeros(m)) == WalkPath(c)
  {
    assert (c + Zeros(m))[1..] == c[1..] + Zeros(m);
    LeadingNonZeroPadded(c[1..], m);
  }

  /** For a coordinate starting with a real token, the compaction walk and
      the lookup walk follow the same path. */
  lemma WalkPathIsLeadRun(c: seq<Token>)
    requires c != [] && c[0] != 0
    ensures WalkPath(c) == LeadRun(c)
  {
  }

  /** All prefixes of a path, the path itself included. */
  function Prefixes(p: Path): (r: set<Path>)
    ensures forall i :: 0 <= i <= |p| ==> p[..i] in r
    ensures forall q :: q in r ==> |q| <= |p| && q == p[..|q|]
  {
    set i | 0 <= i <= |p| :: p[..i]
  }

  /** Extending the first i elements of c by c[i] gives the first i + 1. */
  lemma SnocSlice(c: seq<Token>, i: nat)
    requires i < |c|
    ensures c[..i] + [c[i]] == c[..i + 1]
  {
  }

  lemma PrefixesSnoc(p: Path, x: Token)
    ensures Prefixes(p + [x]) == Prefixes(p) + {p + [x]}
  {
    var q := p + [x];
    forall r | r in Prefixes(q) ensures r in Prefixes(p) + {q} {
      if |r| <= |p| {
        assert r == q[..|r|] == p[..|r|];
      } else {
        assert r == q[..|q|] == q;
      }
    }
    forall r | r in Prefixes(p) + {q} ensures r in Prefixes(q) {
      if r == q {
        assert q[..|q|] == q;
      } else {
        assert r == p[..|r|] == q[..|r|];
      }
    }
  }

  /** The value under the -1 key of node `p`, 0 when the key is absent. */
  function Slot(m: map<Path, int>, p: Path): int
  {
    if p in m then m[p] else 0
  }

  /** The effect of one cell on the tree (main.py:104-125): the nodes along
      the cell's walk path are created where missing, and the cell's count
      is added to exactly one terminal slot, which is created if absent. */
  function Insert(t: Trie, cell: Cell): Trie
  {
    if cell.coord == [] then t
    else
      var p := WalkPath(cell.coord);
      Trie(t.nodes + Prefixes(p), t.terminal[p := Slot(t.terminal, p) + cell.count])
  }

  /** What one cell does to the tree: no node is removed, the nodes along
      its walk path exist afterwards and no other node is created; exactly
      one terminal slot, at the end of the walk, gains the cell's count
      (created if absent), and every other slot keeps its value. A cell with
      an empty coordinate changes nothing. */
  lemma InsertEffect(t: Trie, cell: Cell)
    ensures t.nodes <= Insert(t, cell).nodes
    ensures cell.coord == [] ==> Insert(t, cell) == t
    ensures cell.coord != [] ==>
      var r, p := Insert(t, cell), WalkPath(cell.coord);
      && Prefixes(p) <= r.nodes
      && r.nodes - t.nodes <= Prefixes(p)
      && r.terminal.Keys == t.terminal.Keys + {p}
      && r.terminal[p] == Slot(t.terminal, p) + cell.count
      && forall q :: q in t.terminal && q != p ==> r.terminal[q] == t.terminal[q]
  {
  }

  /** Where the walk stops after position i, Insert adds the prefixes of
      the coordinate's first i + 1 tokens and updates that slot. */
  lemma InsertAt(t: Trie, cell: Cell, i: nat, nodes: set<Path>, terminal: map<Path, int>)
    requires i < |cell.coord| && i + 1 == WalkLength(cell.coord)
    requires nodes == t.nodes + Prefixes(cell.coord[..i + 1])
    requires terminal == t.terminal[cell.coord[..i + 1] := Slot(t.terminal, cell.coord[..i + 1]) + cell.count]
    ensures Trie(nodes, terminal) == Insert(t, cell)
  {
  }


  /** The empty dict `tree = {}`. */
  function EmptyTrie(): Trie
  {
    Trie({[]}, map[])
  }

  /** The compaction fold over the cells, in order. */
  function Fold(cells: seq<Cell>): Trie
  {
    if cells == [] then EmptyTrie() else Insert(Fold(cells[..|cells| - 1]), cells[|cells| - 1])
  }

  /** A path starting with the sentinel lies under root key 0. */
  predicate UnderRootZero(p: Path)
  {
    p != [] && p[0] == 0
  }

  /** `tree[0] = total_tokens` (main.py:127): whatever the cells built under
      root key 0 is replaced by the total; nothing else changes. */
  function SetTotal(t: Trie, total: int): (r: NgramTree)
    ensures r.total == total
    ensures forall p :: p in r.trie.nodes <==> p in t.nodes && !UnderRootZero(p)
    ensures forall p :: p in r.trie.terminal <==> p in t.terminal && !UnderRootZero(p)
    ensures forall p :: p in r.trie.terminal ==> r.trie.terminal[p] == t.terminal[p]
  {
    NgramTree(
      Trie(set p | p in t.nodes && !UnderRootZero(p),
           map p | p in t.terminal && !UnderRootZero(p) :: t.terminal[p]),
      total)
  }

  /** The tree main.py:101-127 produces from the cells and the token total. */
  function BuildSpec(cells: seq<Cell>, total: int): NgramTree
  {
    SetTotal(Fold(cells), total)
  }

  /** Does the cell feed the terminal slot of node `p`? */
  predicate Lands(cell: Cell, p: Path)
  {
    cell.coord != [] && WalkPath(cell.coord) == p
  }

  /** Sum of the counts of the cells that feed node `p`. */
  function SumAt(cells: seq<Cell>, p: Path): int
  {
    if cells == [] then 0
    else SumAt(cells[..|cells| - 1], p) + (if Lands(cells[|cells| - 1], p) then cells[|cells| - 1].count else 0)
  }

  /** Inserting a cell keeps the tree a tree. */
  lemma InsertValid(t: Trie, cell: Cell)
    requires Valid(t)
    ensures Valid(Insert(t, cell))
  {
    if cell.coord != [] {
      var p := WalkPath(cell.coord);
      var r := Insert(t, cell);
      assert p[..|p|] == p;
      forall q, i | q in r.nodes && 0 <= i <= |q| ensures q[..i] in r.nodes {
        if q !in t.nodes {
          assert q == p[..|q|];
          assert q[..i] == p[..i];
        }
      }
    }
  }

  /** The fold only ever builds trees: every prefix of a node's path is a
      node, and every terminal slot hangs on a node (main.py:112-116). */
  lemma {:induction false} FoldValid(cells: seq<Cell>)
    ensures Valid(Fold(cells))
  {
    if cells != [] {
      FoldValid(cells[..|cells| - 1]);
      InsertValid(Fold(cells[..|cells| - 1]), cells[|cells| - 1]);
    }
  }

  /** Inserting a cell touches the slot of p only when the cell lands there. */
  lemma InsertSlot(t: Trie, cell: Cell, p: Path)
    ensures p in Insert(t, cell).terminal <==> p in t.terminal || Lands(cell, p)
    ensures Slot(Insert(t, cell).terminal, p) == Slot(t.terminal, p) + (if Lands(cell, p) then cell.count else 0)
  {
  }

  /** Some cell's walk ends at p. */
  predicate LandsIn(cells: seq<Cell>, p: Path)
  {
    exists i :: 0 <= i < |cells| && Lands(cells[i], p)
  }

  lemma LandsInSnoc(cells: seq<Cell>, p: Path)
    requires cells != []
    ensures LandsIn(cells, p) <==> LandsIn(cells[..|cells| - 1], p) || Lands(cells[|cells| - 1], p)
  {
    var init := cells[..|cells| - 1];
    if LandsIn(cells, p) {
      var i :| 0 <= i < |cells| && Lands(cells[i], p);
      if i < |init| {
        assert init[i] == cells[i];
      }
    }
    if LandsIn(init, p) {
      var i :| 0 <= i < |init| && Lands(init[i], p);
      assert cells[i] == init[i];
    }
  }

  /** After the fold, node p has a terminal slot exactly when some cell's
      walk ends at p (main.py:118-124). */
  lemma {:induction false} FoldKeys(cells: seq<Cell>, p: Path)
    ensures p in Fold(cells).terminal <==> LandsIn(cells, p)
  {
    if cells != [] {
      var init := cells[..|cells| - 1];
      FoldKeys(init, p);
      InsertSlot(Fold(init), cells[|cells| - 1], p);
      LandsInSnoc(cells, p);
    }
  }

  /** After the fold, the slot of node p holds the sum of the counts of the
      cells whose walk ends at p (main.py:118-124). */
  lemma {:induction false} FoldSlot(cells: seq<Cell>, p: Path)
    ensures Slot(Fold(cells).terminal, p) == SumAt(cells, p)
  {
    if cells != [] {
      var init := cells[..|cells| - 1];
      FoldSlot(init, p);
      InsertSlot(Fold(init), cells[|cells| - 1], p);
    }
  }

  /** After the fold, node p has a terminal slot exactly when some cell's
      walk ends at p, and the slot holds the sum of those cells' counts
      (main.py:118-124). */
  lemma FoldTerminal(cells: seq<Cell>, p: Path)
    ensures p in Fold(cells).terminal <==> exists i :: 0 <= i < |cells| && Lands(cells[i], p)
    ensures Slot(Fold(cells).terminal, p) == SumAt(cells, p)
  {
    FoldKeys(cells, p);
    FoldSlot(cells, p);
  }

  /** The root never gets a terminal slot: every walk consumes at least one element. */
  lemma FoldRootHasNoTerminal(cells: seq<Cell>)
    ensures [] !in Fold(cells).terminal
  {
    FoldTerminal(cells, []);
  }

  /** Cell counts that are non-negative give terminal counts that are non-negative. */
  lemma {:induction false} FoldNonNegative(cells: seq<Cell>)
    requires forall i :: 0 <= i < |cells| ==> cells[i].count >= 0
    ensures forall p :: p in Fold(cells).terminal ==> Fold(cells).terminal[p] >= 0
  {
    if cells != [] {
      var init := cells[..|cells| - 1];
      assert forall i :: 0 <= i < |init| ==> init[i] == cells[i];
      FoldNonNegative(init);
    }
  }

  /** Two cells at the same coordinate have the effect of one cell holding
      the sum of their counts, so a matrix whose repeats are merged builds
      the same tree. */
  lemma InsertMerge(t: Trie, c: seq<Token>, a: int, b: int)
    ensures Insert(Insert(t, Cell(c, a)), Cell(c, b)) == Insert(t, Cell(c, a + b))
  {
    if c != [] {
      var p := WalkPath(c);
      var once := t.terminal[p := Slot(t.terminal, p) + a];
      assert once[p := Slot(once, p) + b] == t.terminal[p := Slot(t.terminal, p) + (a + b)];
    }
  }

  /** Inserting two cells gives the same tree in either order. */
  lemma InsertCommutes(t: Trie, a: Cell, b: Cell)
    ensures Insert(Insert(t, a), b) == Insert(Insert(t, b), a)
  {
    if a.coord != [] && b.coord != [] {
      var pa, pb := WalkPath(a.coord), WalkPath(b.coord);
      var ab, ba := Insert(Insert(t, a), b), Insert(Insert(t, b), a);
      assert ab.nodes == ba.nodes;
      assert ab.terminal.Keys == ba.terminal.Keys;
      forall q | q in ab.terminal ensures ab.terminal[q] == ba.terminal[q] {
      }
      assert ab.terminal == ba.terminal;
    }
  }

  /** Folding one more cell is inserting it into the fold so far. */
  lemma FoldSnoc(a: seq<Cell>, y: Cell)
    ensures Fold(a + [y]) == Insert(Fold(a), y)
  {
    assert (a + [y])[..|a|] == a;
  }

  /** Folding s + [x] + u is inserting x into the fold of s + u. */
  lemma {:induction false} FoldMoveLast(s: seq<Cell>, x: Cell, u: seq<Cell>)
    ensures Fold(s + [x] + u) == Insert(Fold(s + u), x)
    decreases |u|
  {
    if u == [] {
      assert s + [x] + u == s + [x];
      assert s + u == s;
      FoldSnoc(s, x);
    } else {
      var u' := u[..|u| - 1];
      var y := u[|u| - 1];
      assert u == u' + [y];
      AppendAssoc(s + [x], u', [y]);
      AppendAssoc(s, u', [y]);
      FoldSnoc(s + [x] + u', y);
      FoldSnoc(s + u', y);
      FoldMoveLast(s, x, u');
      InsertCommutes(Fold(s + u'), x, y);
    }
  }

  /** Taking out element j leaves the multiset minus that element. */
  lemma MultisetRemove(b: seq<Cell>, j: nat)
    requires j < |b|
    ensures b == b[..j] + [b[j]] + b[j + 1..]
    ensures multiset(b[..j] + b[j + 1..]) == multiset(b) - multiset{b[j]}
  {
    assert b == b[..j] + [b[j]] + b[j + 1..];
    assert multiset(b) == multiset(b[..j]) + multiset{b[j]} + multiset(b[j + 1..]);
  }

  /** The finished tree depends only on the multiset of cells, not on the
      order in which they are folded. */
  lemma {:induction false} FoldPermutation(a: seq<Cell>, b: seq<Cell>)
    requires multiset(a) == multiset(b)
    ensures Fold(a) == Fold(b)
    decreases |a|
  {
    if a != [] {
      var a' := a[..|a| - 1];
      var x := a[|a| - 1];
      assert a == a' + [x];
      assert multiset(a') == multiset(a) - multiset{x};
      assert x in multiset(b);
      var j :| 0 <= j < |b| && b[j] == x;
      MultisetRemove(b, j);
      FoldPermutation(a', b[..j] + b[j + 1..]);
      FoldMoveLast(b[..j], x, b[j + 1..]);
    } else {
      assert |b| == |multiset(b)| == 0;
    }
  }

  /** Setting the total keeps the tree a tree. */
  lemma SetTotalValid(t: Trie, total: int)
    requires Valid(t)
    ensures Valid(SetTotal(t, total).trie)
  {
    var r := SetTotal(t, total).trie;
    forall q, i | q in r.nodes && 0 <= i <= |q| ensures q[..i] in r.nodes {
      assert q[..i] in t.nodes;
      if i > 0 {
        assert q[..i][0] == q[0];
      }
    }
  }

  /** What util.get_ngram_count returns: the terminal count of the node
      reached by following the tokens before the first sentinel, or 0. */
  function NgramCount(t: NgramTree, c: seq<Token>): int
  {
    Slot(t.trie.terminal, LeadRun(c))
  }

  /** util.get_ngram_count (util.py:80-95). */
  method GetNgramCount(indices: seq<Token>, t: NgramTree) returns (r: int)
    requires Valid(t.trie)
    ensures r == NgramCount(t, indices)
  {
    var m: Path := [];
    var j := 0;
    while j < |indices|
      invariant 0 <= j <= |indices|
      invariant forall q :: 0 <= q < j ==> indices[q] != 0
      invariant m == indices[..j] && m in t.trie.nodes
    {
      var i := indices[j];
      if i == 0 {
        break;
      } else if m + [i] !in t.trie.nodes {
        assert m + [i] == indices[..j + 1];
        var lead := LeadRun(indices);
        assert LeadingNonZero(indices) >= j + 1;
        assert lead[..j + 1] == m + [i];
        assert lead !in t.trie.nodes;
        return 0;
      } else {
        m := m + [i];
        j := j + 1;
        assert m == indices[..j];
      }
    }
    assert m == LeadRun(indices);
    if m in t.trie.terminal {
      r := t.trie.terminal[m];
    } else {
      r := 0;
    }
  }

  /** Round trip: on the tree built from the cells, looking up a coordinate
      whose first token is real gives the sum of the counts of all cells
      whose walk follows the same tokens (cells that agree up to their first
      following sentinel, such as [5, 0, 0] and [5], share one slot);
      a coordinate starting with the sentinel gives 0. */
  lemma RoundTrip(cells: seq<Cell>, total: int, c: seq<Token>)
    ensures c != [] && c[0] != 0 ==> NgramCount(BuildSpec(cells, total), c) == SumAt(cells, LeadRun(c))
    ensures c == [] || c[0] == 0 ==> NgramCount(BuildSpec(cells, total), c) == 0
  {
    var t := Fold(cells);
    var lead := LeadRun(c);
    FoldTerminal(cells, lead);
    if c != [] && c[0] != 0 {
      assert !UnderRootZero(lead);
    } else {
      assert lead == [];
      FoldRootHasNoTerminal(cells);
    }
  }
}
