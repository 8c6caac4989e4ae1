/** The Huffman tree builder (internal/huff/huff.go): the priority queue of
    nodes ordered by `Less`, the greedy merge that builds the tree, the
    prefix table derived from root-to-leaf paths, and the pre-order listing
    of the nodes. */
module Huff {
  import opened Types
  import opened Bits

  /** A node of the Huffman tree. In the source a node whose two children
      are both nil is a leaf; every node the builder or the decoder creates
      otherwise has both children, so the datatype has exactly these two
      shapes. An internal node's Char is 0. The Code field the source also
      fills in is not modelled: nothing reads it. */
  datatype Node = Leaf(ch: Rune, count: int) | Internal(count: int, left: Node, right: Node)

  /** The node's Char field: the symbol of a leaf, 0 for an internal node. */
  function Char(t: Node): Rune {
    if t.Leaf? then t.ch else 0
  }

  /** The order `priorityQueue.Less` compares two nodes by: Count first,
      then Char. It is not total on nodes: internal nodes of equal count
      are mutually unordered. */
  predicate Precedes(a: Node, b: Node) {
    if a.count == b.count then Char(a) < Char(b) else a.count < b.count
  }

  lemma PrecedesIrreflexive(a: Node)
    ensures !Precedes(a, a)
  {
  }

  lemma PrecedesTransitive(a: Node, b: Node, c: Node)
    requires Precedes(a, b) && Precedes(b, c)
    ensures Precedes(a, c)
  {
  }

  /** Two nodes are unordered exactly when Count and Char agree; in
      particular two internal nodes of equal count tie. */
  lemma PrecedesTies(a: Node, b: Node)
    ensures !Precedes(a, b) && !Precedes(b, a) <==> a.count == b.count && Char(a) == Char(b)
    ensures a.Internal? && b.Internal? && a.count == b.count ==> !Precedes(a, b) && !Precedes(b, a)
  {
  }

  /** A merged parent (Char 0) comes before any leaf of the same count
      whose symbol is not U+0000. */
  lemma ParentBeforeLeaf(p: Node, c: Rune)
    requires p.Internal? && c > 0
    ensures Precedes(p, Leaf(c, p.count)) && !Precedes(Leaf(c, p.count), p)
  {
  }

  // ---------------------------------------------------------------------
  // Tree measures

  function LeafChars(t: Node): (r: set<Rune>)
    ensures r != {}
  {
    match t
    case Leaf(c, _) => {c}
    case Internal(_, l, r) => LeafChars(l) + LeafChars(r)
  }

  function LeafCount(t: Node): (r: nat)
    ensures r >= 1
  {
    match t
    case Leaf(_, _) => 1
    case Internal(_, l, r) => LeafCount(l) + LeafCount(r)
  }

  /** The leaves as a map from symbol to count (a later leaf overrides an
      earlier one with the same symbol). */
  function LeafMap(t: Node): (m: map<Rune, int>)
    ensures m.Keys == LeafChars(t)
  {
    match t
    case Leaf(c, n) => map[c := n]
    case Internal(_, l, r) => LeafMap(l) + LeafMap(r)
  }

  /** No symbol labels two leaves. */
  predicate DistinctLeaves(t: Node) {
    match t
    case Leaf(_, _) => true
    case Internal(_, l, r) => LeafChars(l) !! LeafChars(r) && DistinctLeaves(l) && DistinctLeaves(r)
  }

  /** Every internal node's Count is the sum of its children's. */
  predicate Weighted(t: Node) {
    match t
    case Leaf(_, _) => true
    case Internal(n, l, r) => n == l.count + r.count && Weighted(l) && Weighted(r)
  }

  /** Every internal node's left child was popped first: the right child
      does not precede it. */
  predicate MergeOrdered(t: Node) {
    match t
    case Leaf(_, _) => true
    case Internal(_, l, r) => !Precedes(r, l) && MergeOrdered(l) && MergeOrdered(r)
  }

  /** Sum of the values of a map. */
  ghost function MapSum(m: map<Rune, int>): int
    decreases |m|
  {
    if m == map[] then 0
    else
      Inhabited(m.Keys);
      var k :| k in m;
      m[k] + MapSum(m - {k})
  }

  lemma {:induction false} MapSumRemove(m: map<Rune, int>, k: Rune)
    requires k in m
    ensures MapSum(m) == m[k] + MapSum(m - {k})
    decreases |m|
  {
    var j :| j in m && MapSum(m) == m[j] + MapSum(m - {j});
    if j != k {
      var mj, mk := m - {j}, m - {k};
      assert |mj| < |m| && |mk| < |m|;
      MapSumRemove(mj, k);
      MapSumRemove(mk, j);
      assert mj - {k} == mk - {j};
    }
  }

  lemma {:induction false} MapSumDisjointUnion(a: map<Rune, int>, b: map<Rune, int>)
    requires a.Keys !! b.Keys
    ensures MapSum(a + b) == MapSum(a) + MapSum(b)
    decreases |a|
  {
    if a == map[] {
      assert a + b == b;
    } else {
      Inhabited(a.Keys);
      var k :| k in a;
      var a', ab := a - {k}, a + b;
      MapSumRemove(a, k);
      MapSumDisjointUnion(a', b);
      MapSumRemove(ab, k);
      RemoveFromUnion(a, b, k);
    }
  }

  lemma RemoveFromUnion(a: map<Rune, int>, b: map<Rune, int>, k: Rune)
    requires k in a && k !in b
    ensures (a + b)[k] == a[k] && (a + b) - {k} == (a - {k}) + b
  {
  }

  /** A weighted tree with distinct symbols counts the sum of its leaves. */
  lemma {:induction false} CountIsLeafSum(t: Node)
    requires Weighted(t) && DistinctLeaves(t)
    ensures t.count == MapSum(LeafMap(t))
  {
    match t
    case Leaf(c, n) =>
      MapSumRemove(map[c := n], c);
      assert map[c := n] - {c} == map[];
    case Internal(_, l, r) =>
      CountIsLeafSum(l);
      CountIsLeafSum(r);
      MapSumDisjointUnion(LeafMap(l), LeafMap(r));
  }

  // ---------------------------------------------------------------------
  // The merge, as a relation on queue contents

  function Merge(l: Node, r: Node): Node {
    Internal(l.count + r.count, l, r)
  }

  /** `x` is a possible result of heap.Pop on a queue holding `q`. */
  ghost predicate Minimal(x: Node, q: multiset<Node>) {
    x in q && forall y :: y in q ==> !Precedes(y, x)
  }

  /** One iteration of buildTree's loop: pop a minimal `l`, pop a minimal
      `r` of what is left, push their parent. Which of several tied
      elements comes out is left open. */
  ghost predicate MergeStep(q: multiset<Node>, q': multiset<Node>) {
    exists l, r ::
      Minimal(l, q) && Minimal(r, q - multiset{l}) &&
      q' == q - multiset{l} - multiset{r} + multiset{Merge(l, r)}
  }

  /** Each state of `trace` is one merge step from the one before. */
  ghost predicate MergeSteps(trace: seq<multiset<Node>>) {
    forall i :: 0 <= i < |trace| - 1 ==> MergeStep(trace[i], trace[i + 1])
  }

  lemma MergeStepOf(q: multiset<Node>, l: Node, r: Node)
    requires Minimal(l, q) && Minimal(r, q - multiset{l})
    ensures MergeStep(q, q - multiset{l} - multiset{r} + multiset{Merge(l, r)})
  {
  }

  lemma StepsExtend(trace: seq<multiset<Node>>, q: multiset<Node>)
    requires |trace| >= 1 && MergeSteps(trace) && MergeStep(trace[|trace| - 1], q)
    ensures MergeSteps(trace + [q])
  {
    var t := trace + [q];
    forall i | 0 <= i < |t| - 1 ensures MergeStep(t[i], t[i + 1]) {
      if i < |trace| - 1 {
        assert t[i] == trace[i] && t[i + 1] == trace[i + 1];
      }
    }
  }

  /** A node that precedes every other queued node is the only one
      heap.Pop can return. */
  lemma OnlyMinimal(l: Node, q: multiset<Node>)
    requires l in q && forall y :: y in q && y != l ==> Precedes(l, y)
    ensures Minimal(l, q) && forall x :: Minimal(x, q) ==> x == l
  {
    PrecedesIrreflexive(l);
  }

  /** The merge step out of `q` can happen and can only lead to `q'`. */
  ghost predicate Forced(q: multiset<Node>, q': multiset<Node>) {
    MergeStep(q, q') && forall q'' :: MergeStep(q, q'') ==> q'' == q'
  }

  /** When each of the two pops has a single candidate, the merge step
      happens and has a single outcome. */
  lemma ForcedStep(q: multiset<Node>, l: Node, r: Node, q': multiset<Node>)
    requires l in q && forall y :: y in q && y != l ==> Precedes(l, y)
    requires r in q - multiset{l} && forall y :: y in q - multiset{l} && y != r ==> Precedes(r, y)
    requires q' == q - multiset{l} - multiset{r} + multiset{Merge(l, r)}
    ensures Forced(q, q')
  {
    OnlyMinimal(l, q);
    OnlyMinimal(r, q - multiset{l});
    MergeStepOf(q, l, r);
    forall q'' | MergeStep(q, q'')
      ensures q'' == q'
    {
      var l', r' :| Minimal(l', q) && Minimal(r', q - multiset{l'}) &&
        q'' == q - multiset{l'} - multiset{r'} + multiset{Merge(l', r')};
    }
  }

  /** The same for a queue listed as `l`, `r` and the rest, where `l`
      precedes `r` and `r` precedes every other node. */
  lemma ForcedPop(l: Node, r: Node, rest: seq<Node>)
    requires Precedes(l, r) && forall i :: 0 <= i < |rest| ==> Precedes(r, rest[i])
    ensures Forced(multiset([l, r] + rest), multiset(rest + [Merge(l, r)]))
  {
    var q := multiset([l, r] + rest);
    assert q == multiset{l} + multiset{r} + multiset(rest);
    assert q - multiset{l} == multiset{r} + multiset(rest);
    forall y | y in multiset(rest)
      ensures Precedes(l, y) && Precedes(r, y)
    {
      var i :| 0 <= i < |rest| && rest[i] == y;
      PrecedesTransitive(l, r, y);
    }
    PrecedesIrreflexive(l);
    PrecedesIrreflexive(r);
    ForcedStep(q, l, r, multiset(rest + [Merge(l, r)]));
  }

  /** A run of the merge loop from `q` that ends with the single tree `t`. */
  ghost predicate RunFrom(trace: seq<multiset<Node>>, q: multiset<Node>, t: Node) {
    |trace| >= 1 && trace[0] == q && MergeSteps(trace) && trace[|trace| - 1] == multiset{t}
  }

  /** Some run of the merge loop from `q` ends with `t`, and every run from
      `q` ends with `t`. */
  ghost predicate OnlyRoot(q: multiset<Node>, t: Node) {
    (exists trace :: RunFrom(trace, q, t)) &&
    forall trace, root :: RunFrom(trace, q, root) ==> root == t
  }

  /** A queue holding one tree: the loop stops at once. */
  lemma OnlyRootEnd(t: Node)
    ensures OnlyRoot(multiset{t}, t)
  {
    assert RunFrom([multiset{t}], multiset{t}, t);
    forall trace, root | RunFrom(trace, multiset{t}, root)
      ensures root == t
    {
      SingleStops(trace, t);
      assert root in multiset{t};
    }
  }

  /** No merge step leaves a queue that holds one tree. */
  lemma SingleStops(trace: seq<multiset<Node>>, t: Node)
    requires |trace| >= 1 && trace[0] == multiset{t} && MergeSteps(trace)
    ensures |trace| == 1
  {
    FirstStep(trace);
    StepNeedsTwo(trace[0]);
  }

  lemma FirstStep(trace: seq<multiset<Node>>)
    requires MergeSteps(trace)
    ensures |trace| > 1 ==> MergeStep(trace[0], trace[1])
  {
  }

  /** A merge step pops two trees. */
  lemma StepNeedsTwo(q: multiset<Node>)
    ensures forall q' :: MergeStep(q, q') ==> |q| >= 2
  {
    forall q' | MergeStep(q, q')
      ensures |q| >= 2
    {
      var l, r :| Minimal(l, q) && Minimal(r, q - multiset{l}) &&
        q' == q - multiset{l} - multiset{r} + multiset{Merge(l, r)};
      assert |q - multiset{l}| >= 1;
    }
  }

  /** A forced step from a queue of several trees to `q'` leaves the same
      single outcome as `q'`. */
  lemma OnlyRootBack(q: multiset<Node>, q': multiset<Node>, t: Node)
    requires Forced(q, q') && |q| != 1 && OnlyRoot(q', t)
    ensures OnlyRoot(q, t)
  {
    var tr' :| RunFrom(tr', q', t);
    var tr := [q] + tr';
    forall i | 0 <= i < |tr| - 1
      ensures MergeStep(tr[i], tr[i + 1])
    {
      if i > 0 {
        assert tr[i] == tr'[i - 1] && tr[i + 1] == tr'[i];
      }
    }
    assert RunFrom(tr, q, t);
    forall trace, root | RunFrom(trace, q, root)
      ensures root == t
    {
      assert |trace| > 1;
      assert MergeStep(trace[0], trace[1]);
      var rest := trace[1..];
      forall i | 0 <= i < |rest| - 1
        ensures MergeStep(rest[i], rest[i + 1])
      {
        assert rest[i] == trace[i + 1] && rest[i + 1] == trace[i + 2];
      }
      assert RunFrom(rest, q', root);
    }
  }

  /** One forced step back from a queue listed as `l`, `r` and the rest,
      to a queue of the same contents as `next`. */
  lemma OnlyRootPop(l: Node, r: Node, rest: seq<Node>, next: seq<Node>, t: Node)
    requires Precedes(l, r) && forall i :: 0 <= i < |rest| ==> Precedes(r, rest[i])
    requires multiset(next) == multiset(rest + [Merge(l, r)])
    requires OnlyRoot(multiset(next), t)
    ensures OnlyRoot(multiset([l, r] + rest), t)
  {
    ForcedPop(l, r, rest);
    OnlyRootBack(multiset([l, r] + rest), multiset(next), t);
  }

  /** When the initial queue has a single outcome `t`, `t` is the only tree
      buildTree can build. */
  lemma OnlyHuffmanTree(freq: map<Rune, int>, t: Node, root: Node)
    requires OnlyRoot(InitialQueue(freq), t)
    ensures IsHuffmanTree(freq, root) <==> root == t
  {
    if root == t {
      var trace :| RunFrom(trace, InitialQueue(freq), t);
      assert HuffmanTrace(freq, trace, t);
    }
    if IsHuffmanTree(freq, root) {
      var trace :| HuffmanTrace(freq, trace, root);
      assert RunFrom(trace, InitialQueue(freq), root);
    }
  }

  /** The queue buildTree starts from: one leaf per map entry. */
  ghost function InitialQueue(freq: map<Rune, int>): multiset<Node> {
    multiset(set c | c in freq :: Leaf(c, freq[c]))
  }

  /** A run of the merge loop from the initial queue down to `root`. */
  ghost predicate HuffmanTrace(freq: map<Rune, int>, trace: seq<multiset<Node>>, root: Node) {
    && |trace| >= 1
    && trace[0] == InitialQueue(freq)
    && MergeSteps(trace)
    && trace[|trace| - 1] == multiset{root}
  }

  /** `root` is a tree buildTree can return for `freq`. */
  ghost predicate IsHuffmanTree(freq: map<Rune, int>, root: Node) {
    exists trace :: HuffmanTrace(freq, trace, root)
  }

  /** A tree on the queue: weighted, merge-ordered, with distinct symbols,
      each leaf carrying its symbol's frequency. */
  predicate TreeOk(t: Node, freq: map<Rune, int>) {
    && Weighted(t) && MergeOrdered(t) && DistinctLeaves(t)
    && forall c :: c in LeafChars(t) ==> c in freq && LeafMap(t)[c] == freq[c]
  }

  ghost predicate Single(q: multiset<Node>) {
    forall t :: t in q ==> q[t] == 1
  }

  ghost predicate Disjoint(q: multiset<Node>) {
    forall t, u :: t in q && u in q && t != u ==> LeafChars(t) !! LeafChars(u)
  }

  ghost predicate Covers(q: multiset<Node>, freq: map<Rune, int>) {
    forall c :: c in freq ==> exists t :: t in q && c in LeafChars(t)
  }

  /** What holds of every queue the merge loop passes through: each tree
      occurs once and is well formed, the trees have pairwise disjoint
      symbols and together cover the map. */
  ghost predicate ForestInv(q: multiset<Node>, freq: map<Rune, int>) {
    && Single(q)
    && (forall t :: t in q ==> TreeOk(t, freq))
    && Disjoint(q)
    && Covers(q, freq)
  }

  lemma InitialForestInv(freq: map<Rune, int>)
    ensures ForestInv(InitialQueue(freq), freq)
  {
    var s := set c | c in freq :: Leaf(c, freq[c]);
    var q := InitialQueue(freq);
    forall c | c in freq
      ensures exists t :: t in q && c in LeafChars(t)
    {
      assert Leaf(c, freq[c]) in s;
      assert Leaf(c, freq[c]) in q && c in LeafChars(Leaf(c, freq[c]));
    }
  }

  lemma SubtreeNotEqual(l: Node, r: Node)
    ensures Merge(l, r) != l && Merge(l, r) != r
  {
    assert LeafCount(Merge(l, r)) == LeafCount(l) + LeafCount(r);
  }

  /** One merge step keeps the forest invariant. */
  lemma MergeStepInv(q: multiset<Node>, freq: map<Rune, int>, l: Node, r: Node)
    requires ForestInv(q, freq)
    requires Minimal(l, q) && Minimal(r, q - multiset{l})
    ensures ForestInv(q - multiset{l} - multiset{r} + multiset{Merge(l, r)}, freq)
  {
    var p := Merge(l, r);
    var q' := q - multiset{l} - multiset{r} + multiset{p};
    assert q[l] == 1;
    assert l != r && r in q;
    assert LeafChars(l) !! LeafChars(r);
    ParentIsNew(q, l, r);
    MergeMembers(q, l, r, p);
    MergeParentOk(freq, l, r);
    MergeDisjoint(q, l, r);
    MergeCover(q, freq, l, r);
  }

  /** A parent is never already on the queue: it would share its left
      child's symbols. */
  lemma ParentIsNew(q: multiset<Node>, l: Node, r: Node)
    requires Disjoint(q) && l in q
    ensures Merge(l, r) !in q
  {
    SubtreeNotEqual(l, r);
  }

  /** After a merge the queue holds the parent and the untouched trees, each once. */
  lemma MergeMembers(q: multiset<Node>, l: Node, r: Node, p: Node)
    requires Single(q)
    requires l in q && r in q && l != r && p !in q
    ensures var q' := q - multiset{l} - multiset{r} + multiset{p};
      && (forall t :: t in q' <==> t == p || (t in q && t != l && t != r))
      && Single(q')
  {
  }

  lemma MergeParentOk(freq: map<Rune, int>, l: Node, r: Node)
    requires TreeOk(l, freq) && TreeOk(r, freq)
    requires LeafChars(l) !! LeafChars(r) && !Precedes(r, l)
    ensures TreeOk(Merge(l, r), freq)
  {
    var p := Merge(l, r);
    forall c | c in LeafChars(p) ensures c in freq && LeafMap(p)[c] == freq[c] {
      if c in LeafChars(r) {
        assert LeafMap(p)[c] == LeafMap(r)[c];
      } else {
        assert LeafMap(p)[c] == LeafMap(l)[c];
      }
    }
  }

  lemma MergeDisjoint(q: multiset<Node>, l: Node, r: Node)
    requires Disjoint(q) && l in q && r in q
    requires var q' := q - multiset{l} - multiset{r} + multiset{Merge(l, r)};
      forall t :: t in q' <==> t == Merge(l, r) || (t in q && t != l && t != r)
    ensures Disjoint(q - multiset{l} - multiset{r} + multiset{Merge(l, r)})
  {
    var p := Merge(l, r);
    var q' := q - multiset{l} - multiset{r} + multiset{p};
    forall t, u | t in q' && u in q' && t != u ensures LeafChars(t) !! LeafChars(u) {
      if t == p {
        assert LeafChars(u) !! LeafChars(l) && LeafChars(u) !! LeafChars(r);
      } else if u == p {
        assert LeafChars(t) !! LeafChars(l) && LeafChars(t) !! LeafChars(r);
      }
    }
  }

  lemma MergeCover(q: multiset<Node>, freq: map<Rune, int>, l: Node, r: Node)
    requires Covers(q, freq) && l in q && r in q
    ensures Covers(q - multiset{l} - multiset{r} + multiset{Merge(l, r)}, freq)
  {
    var p := Merge(l, r);
    var q' := q - multiset{l} - multiset{r} + multiset{p};
    forall c | c in freq
      ensures exists t :: t in q' && c in LeafChars(t)
    {
      var t :| t in q && c in LeafChars(t);
      if t == l || t == r {
        assert p in q' && c in LeafChars(p);
      } else {
        assert t in q';
      }
    }
  }

  /** Every state of a run satisfies the forest invariant. */
  lemma {:induction false} TraceInv(freq: map<Rune, int>, trace: seq<multiset<Node>>, i: nat)
    requires |trace| >= 1 && trace[0] == InitialQueue(freq)
    requires MergeSteps(trace)
    requires i < |trace|
    ensures ForestInv(trace[i], freq)
  {
    if i == 0 {
      InitialForestInv(freq);
    } else {
      TraceInv(freq, trace, i - 1);
      assert MergeStep(trace[i - 1], trace[i]);
      var l, r :| Minimal(l, trace[i - 1]) && Minimal(r, trace[i - 1] - multiset{l}) &&
        trace[i] == trace[i - 1] - multiset{l} - multiset{r} + multiset{Merge(l, r)};
      MergeStepInv(trace[i - 1], freq, l, r);
    }
  }

  /** The root of every run: a full binary tree whose leaves are exactly
      the map's symbols, each with its frequency, whose Count is the sum of
      all frequencies, and whose left children were always popped first. */
  lemma HuffmanTreeShape(freq: map<Rune, int>, root: Node)
    requires IsHuffmanTree(freq, root)
    ensures LeafMap(root) == freq
    ensures DistinctLeaves(root) && Weighted(root) && MergeOrdered(root)
    ensures LeafCount(root) == |freq|
    ensures root.count == MapSum(freq)
    ensures |freq| >= 2 ==> root.Internal?
  {
    var trace :| HuffmanTrace(freq, trace, root);
    TraceInv(freq, trace, |trace| - 1);
    var q := trace[|trace| - 1];
    assert root in q;
    forall c | c in freq ensures c in LeafChars(root) {
      var t :| t in q && c in LeafChars(t);
    }
    forall c | c in LeafChars(root) ensures c in freq && LeafMap(root)[c] == freq[c] {
    }
    assert LeafMap(root).Keys == freq.Keys;
    assert LeafMap(root) == freq;
    LeafCountDistinct(root);
    CountIsLeafSum(root);
  }

  /** With distinct symbols the number of leaves is the number of symbols. */
  lemma {:induction false} LeafCountDistinct(t: Node)
    requires DistinctLeaves(t)
    ensures LeafCount(t) == |LeafChars(t)|
  {
    match t
    case Leaf(_, _) =>
    case Internal(_, l, r) =>
      LeafCountDistinct(l);
      LeafCountDistinct(r);
  }

  /** Each merge shrinks the queue by exactly one, so every run from a map
      of n > 0 symbols has n states and ends after n - 1 merges. */
  lemma {:induction false} TraceLength(freq: map<Rune, int>, trace: seq<multiset<Node>>, root: Node)
    requires HuffmanTrace(freq, trace, root)
    ensures |trace| == |freq|
  {
    InitialSize(freq);
    forall j | 0 <= j < |trace| - 1 ensures |trace[j + 1]| == |trace[j]| - 1 {
      var l, r :| Minimal(l, trace[j]) && Minimal(r, trace[j] - multiset{l}) &&
        trace[j + 1] == trace[j] - multiset{l} - multiset{r} + multiset{Merge(l, r)};
    }
    SizesAlongTrace(trace, |trace| - 1);
  }

  lemma {:induction false} SizesAlongTrace(trace: seq<multiset<Node>>, i: nat)
    requires i < |trace|
    requires forall j :: 0 <= j < |trace| - 1 ==> |trace[j + 1]| == |trace[j]| - 1
    ensures |trace[i]| == |trace[0]| - i
  {
    if i > 0 {
      SizesAlongTrace(trace, i - 1);
    }
  }

  lemma InitialSize(freq: map<Rune, int>)
    ensures |InitialQueue(freq)| == |freq|
  {
    var s := set c | c in freq :: Leaf(c, freq[c]);
    LeafSetSize(freq, freq.Keys);
  }

  lemma {:induction false} LeafSetSize(freq: map<Rune, int>, ks: set<Rune>)
    requires ks <= freq.Keys
    ensures |set c | c in ks :: Leaf(c, freq[c])| == |ks|
    decreases |ks|
  {
    if ks != {} {
      Inhabited(ks);
      var k :| k in ks;
      var s := set c | c in ks :: Leaf(c, freq[c]);
      var s' := set c | c in ks - {k} :: Leaf(c, freq[c]);
      assert s == s' + {Leaf(k, freq[k])};
      assert Leaf(k, freq[k]) !in s';
      LeafSetSize(freq, ks - {k});
    }
  }

  // ---------------------------------------------------------------------
  // The priority queue (priorityQueue with container/heap)

  /** The slice of nodes behind `priorityQueue`. The heap discipline of
      container/heap (sift-up and sift-down) is not modelled: HeapPop
      returns some minimal element under `Less`, which is all buildTree
      relies on. */
  class PriorityQueue {
    var items: seq<Node>

    constructor ()
      ensures items == []
    {
      items := [];
    }

    /** priorityQueue.Len: the number of queued nodes. */
    function Len(): (n: nat)
      reads this
      ensures n == |multiset(items)|
    {
      |items|
    }

    /** priorityQueue.Less */
    predicate Less(i: nat, j: nat)
      reads this
      requires i < |items| && j < |items|
      ensures Less(i, j) ==> !Precedes(items[j], items[i]) && items[i] != items[j]
    {
      Precedes(items[i], items[j])
    }

    /** priorityQueue.Swap */
    method Swap(i: nat, j: nat)
      requires i < |items| && j < |items|
      modifies this
      ensures items == old(items)[i := old(items)[j]][j := old(items)[i]]
    {
      items := items[i := items[j]][j := items[i]];
    }

    /** priorityQueue.Push: appends (heap.Push calls it). */
    method Push(x: Node)
      modifies this
      ensures items == old(items) + [x]
    {
      items := items + [x];
    }

    /** priorityQueue.Pop: removes and returns the last element. */
    method Pop() returns (x: Node)
      requires |items| > 0
      modifies this
      ensures x == old(items)[|old(items)| - 1]
      ensures items == old(items)[..|old(items)| - 1]
    {
      x := items[|items| - 1];
      items := items[..|items| - 1];
    }

    /** heap.Pop: moves a minimal element to the end and pops it. */
    method HeapPop() returns (x: Node)
      requires |items| > 0
      modifies this
      ensures Minimal(x, multiset(old(items)))
      ensures multiset(items) == multiset(old(items)) - multiset{x}
      ensures |items| == |old(items)| - 1
    {
      var m := MinIndex();
      ghost var before := items;
      Swap(m, |items| - 1);
      x := Pop();
      SwapPop(before, m);
      MinimalAt(before, m);
    }

    /** The index of an element no other element precedes. */
    method MinIndex() returns (m: nat)
      requires |items| > 0
      ensures m < |items|
      ensures forall k :: 0 <= k < |items| ==> !Precedes(items[k], items[m])
    {
      var i := 1;
      m := 0;
      while i < |items|
        invariant 1 <= i <= |items| && m < i
        invariant forall k :: 0 <= k < i ==> !Precedes(items[k], items[m])
      {
        if Less(i, m) {
          forall k | 0 <= k < i ensures !Precedes(items[k], items[i]) {
            if Precedes(items[k], items[i]) {
              PrecedesTransitive(items[k], items[i], items[m]);
            }
          }
          m := i;
        }
        i := i + 1;
      }
    }
  }

  /** Swapping element `m` to the end and dropping it removes exactly it. */
  lemma SwapPop(s: seq<Node>, m: nat)
    requires m < |s|
    ensures var n := |s| - 1;
      var t := s[m := s[n]][n := s[m]];
      t[n] == s[m] && t[..n] == t[..|t| - 1] && multiset(t[..n]) == multiset(s) - multiset{s[m]}
  {
    var n := |s| - 1;
    var t := s[m := s[n]][n := s[m]];
    assert s == s[..n] + [s[n]];
    if m != n {
      assert t[..n] == s[..n][m := s[n]];
    }
  }

  /** An element that no other precedes is minimal in the contents. */
  lemma MinimalAt(s: seq<Node>, m: nat)
    requires m < |s|
    requires forall k :: 0 <= k < |s| ==> !Precedes(s[k], s[m])
    ensures Minimal(s[m], multiset(s))
  {
    forall y | y in multiset(s) ensures !Precedes(y, s[m]) {
      var k :| 0 <= k < |s| && s[k] == y;
    }
  }

  // ---------------------------------------------------------------------
  // buildTree

  /** The first loop of buildTree: one leaf per map entry, in whatever
      order the map is ranged over, stopping at the first count <= 0. */
  method LoadLeaves(freqMap: map<Rune, int>, pq: PriorityQueue) returns (ok: bool)
    requires pq.items == []
    modifies pq
    ensures ok <==> forall c :: c in freqMap ==> freqMap[c] > 0
    ensures ok ==> multiset(pq.items) == InitialQueue(freqMap) && |pq.items| == |freqMap|
  {
    var rest := freqMap.Keys;
    while rest != {}
      invariant rest <= freqMap.Keys
      invariant forall c :: c in freqMap && c !in rest ==> freqMap[c] > 0
      invariant multiset(pq.items) == multiset(set c | c in freqMap && c !in rest :: Leaf(c, freqMap[c]))
      invariant |pq.items| + |rest| == |freqMap|
      decreases rest
    {
      Inhabited(rest);
      var c :| c in rest;
      if freqMap[c] <= 0 {
        return false;
      }
      ghost var done := set k | k in freqMap && k !in rest :: Leaf(k, freqMap[k]);
      pq.Push(Leaf(c, freqMap[c]));
      rest := rest - {c};
      assert (set k | k in freqMap && k !in rest :: Leaf(k, freqMap[k])) == done + {Leaf(c, freqMap[c])};
      assert Leaf(c, freqMap[c]) !in done;
    }
    assert (set c | c in freqMap && c !in rest :: Leaf(c, freqMap[c])) == set c | c in freqMap :: Leaf(c, freqMap[c]);
    return true;
  }

  /** buildTree: rejects an empty map, then any count <= 0, then a single
      symbol; otherwise merges the two minimal nodes until one remains and
      derives the prefix table from the root. */
  method BuildTree(freqMap: map<Rune, int>) returns (r: Result<(Node, map<Rune, string>)>)
    ensures |freqMap| == 0 ==> r == Err(EmptyFrequencyMap)
    ensures |freqMap| > 0 && (exists c :: c in freqMap && freqMap[c] <= 0) ==> r == Err(NonPositiveFrequency)
    ensures |freqMap| == 1 && (forall c :: c in freqMap ==> freqMap[c] > 0) ==> r == Err(InsufficientSymbols)
    ensures |freqMap| >= 2 && (forall c :: c in freqMap ==> freqMap[c] > 0) ==>
      r.Ok? && IsHuffmanTree(freqMap, r.value.0) && r.value.1 == Codes(r.value.0, "")
  {
    if |freqMap| == 0 {
      return Err(EmptyFrequencyMap);
    }
    var pq := new PriorityQueue();
    var ok := LoadLeaves(freqMap, pq);
    if !ok {
      return Err(NonPositiveFrequency);
    }
    if pq.Len() < 2 {
      return Err(InsufficientSymbols);
    }
    var head := MergeAll(freqMap, pq);
    var prefix := new PrefixTable();
    EncodeTree(head, "", prefix);
    return Ok((head, prefix.codes));
  }

  /** The merge loop of buildTree and its final pop: the root it leaves is
      one buildTree can return, and the queue ends empty. */
  method MergeAll(ghost freqMap: map<Rune, int>, pq: PriorityQueue) returns (head: Node)
    requires multiset(pq.items) == InitialQueue(freqMap) && |pq.items| >= 1
    modifies pq
    ensures IsHuffmanTree(freqMap, head) && pq.items == []
  {
    ghost var trace := [multiset(pq.items)];
    while pq.Len() > 1
      invariant |trace| >= 1 && trace[0] == InitialQueue(freqMap)
      invariant MergeSteps(trace)
      invariant trace[|trace| - 1] == multiset(pq.items)
      invariant |pq.items| >= 1
      decreases |pq.items|
    {
      ghost var q := multiset(pq.items);
      var left := pq.HeapPop();
      var right := pq.HeapPop();
      var parent := Internal(left.count + right.count, left, right);
      pq.Push(parent);
      assert multiset(pq.items) == q - multiset{left} - multiset{right} + multiset{Merge(left, right)};
      MergeStepOf(q, left, right);
      StepsExtend(trace, multiset(pq.items));
      trace := trace + [multiset(pq.items)];
    }
    head := pq.HeapPop();
    assert multiset(pq.items) == multiset{};
    assert HuffmanTrace(freqMap, trace, head);
  }

  // ---------------------------------------------------------------------
  // encodeTree and the prefix table

  /** The `prefixTable` map that encodeTree fills in. */
  class PrefixTable {
    var codes: map<Rune, string>

    constructor ()
      ensures codes == map[]
    {
      codes := map[];
    }
  }

  /** The codes encodeTree writes for the subtree `t` reached by `code`:
      every leaf gets the path to it, '0' for Left and '1' for Right, a
      later leaf overriding an earlier one with the same symbol. */
  function Codes(t: Node, code: string): map<Rune, string> {
    match t
    case Leaf(c, _) => map[c := code]
    case Internal(_, l, r) => Codes(l, code + "0") + Codes(r, code + "1")
  }

  /** The codes of a parent: those of its Left child under `code + "0"`,
      overridden by those of its Right child under `code + "1"`. */
  lemma CodesJoin(n: int, l: Node, r: Node, code: string, ml: map<Rune, string>, mr: map<Rune, string>)
    requires Codes(l, code + "0") == ml && Codes(r, code + "1") == mr
    ensures Codes(Internal(n, l, r), code) == ml + mr
  {
  }

  /** A union whose right operand is an update is the update of the union. */
  lemma UnionUpdate(m: map<Rune, string>, n: map<Rune, string>, k: Rune, v: string)
    ensures m + n[k := v] == (m + n)[k := v]
  {
  }

  lemma UnionEmpty(m: map<Rune, string>)
    ensures m + map[] == m
  {
  }

  /** encodeTree: records the code of every leaf below `node`. */
  method EncodeTree(node: Node, code: string, preTab: PrefixTable)
    modifies preTab
    ensures preTab.codes == old(preTab.codes) + Codes(node, code)
    decreases node
  {
    if node.Leaf? {
      preTab.codes := preTab.codes[node.ch := code];
    } else {
      EncodeTree(node.left, code + "0", preTab);
      EncodeTree(node.right, code + "1", preTab);
    }
  }

  /** The symbol at the end of the path `p` from `t`, if the path ends
      exactly at a leaf. */
  function PathLeaf(t: Node, p: string): Option<Rune> {
    if p == [] then (if t.Leaf? then Some(t.ch) else None)
    else if t.Leaf? then None
    else if p[0] == '0' then PathLeaf(t.left, p[1..])
    else if p[0] == '1' then PathLeaf(t.right, p[1..])
    else None
  }

  /** The prefix table has an entry exactly for each leaf symbol, and each
      entry starts with the code of the subtree and continues with a path
      that ends at a leaf carrying that symbol. */
  lemma {:induction false} CodesArePaths(t: Node, code: string)
    ensures Codes(t, code).Keys == LeafChars(t)
    ensures forall c :: c in Codes(t, code) ==>
      && code <= Codes(t, code)[c]
      && IsBitString(Codes(t, code)[c][|code|..])
      && PathLeaf(t, Codes(t, code)[c][|code|..]) == Some(c)
  {
    match t
    case Leaf(c, _) =>
      assert Codes(t, code)[c][|code|..] == [];
    case Internal(_, l, r) =>
      var cl, cr := code + "0", code + "1";
      CodesArePaths(l, cl);
      CodesArePaths(r, cr);
      forall c | c in Codes(t, code)
        ensures code <= Codes(t, code)[c]
        ensures IsBitString(Codes(t, code)[c][|code|..])
        ensures PathLeaf(t, Codes(t, code)[c][|code|..]) == Some(c)
      {
        var s := Codes(t, code)[c];
        if c in Codes(r, cr) {
          assert s == Codes(r, cr)[c];
          ExtendPath(t, code, '1', s);
        } else {
          assert s == Codes(l, cl)[c];
          ExtendPath(t, code, '0', s);
        }
      }
  }

  /** A path below a child of `t`, seen from `t`: one more step first. */
  lemma ExtendPath(t: Node, code: string, b: char, s: string)
    requires t.Internal? && (b == '0' || b == '1')
    requires code + [b] <= s && IsBitString(s[|code| + 1..])
    ensures code <= s && IsBitString(s[|code|..])
    ensures PathLeaf(t, s[|code|..]) == PathLeaf(if b == '0' then t.left else t.right, s[|code| + 1..])
  {
    var p := s[|code|..];
    assert p == [b] + s[|code| + 1..];
    assert p[1..] == s[|code| + 1..];
  }

  /** A path that ends at a leaf is never a proper prefix of another such
      path, and two equal paths end at the same leaf. */
  lemma {:induction false} PathLeafPrefix(t: Node, p: string, q: string)
    requires PathLeaf(t, p).Some? && PathLeaf(t, q).Some? && p <= q
    ensures p == q
  {
    if p != [] {
      PathLeafPrefix(if p[0] == '0' then t.left else t.right, p[1..], q[1..]);
    }
  }

  /** The prefix table of a tree is prefix-free: no code is a prefix of
      the code of another symbol (so, in particular, codes are distinct). */
  lemma PrefixFree(t: Node)
    ensures forall a, b :: a in Codes(t, "") && b in Codes(t, "") && a != b ==>
      !(Codes(t, "")[a] <= Codes(t, "")[b])
  {
    var m := Codes(t, "");
    CodesArePaths(t, "");
    forall a, b | a in m && b in m && a != b ensures !(m[a] <= m[b]) {
      assert m[a][0..] == m[a] && m[b][0..] == m[b];
      if m[a] <= m[b] {
        PathLeafPrefix(t, m[a], m[b]);
      }
    }
  }

  /** The codes of a tree with at least two leaves are non-empty bit
      strings. */
  lemma NonEmptyCodes(t: Node)
    ensures forall c :: c in Codes(t, "") ==> IsBitString(Codes(t, "")[c])
    ensures t.Internal? ==> forall c :: c in Codes(t, "") ==> Codes(t, "")[c] != []
  {
    CodesArePaths(t, "");
    forall c | c in Codes(t, "") ensures Codes(t, "")[c][0..] == Codes(t, "")[c] {
    }
  }

  /** With distinct symbols the table has one entry per leaf, and a
      symbol's code is exactly the path from the root to its leaf. */
  lemma CodeIsPath(t: Node, c: Rune, p: string)
    requires DistinctLeaves(t)
    ensures |Codes(t, "")| == LeafCount(t)
    ensures c in Codes(t, "") && Codes(t, "")[c] == p <==> PathLeaf(t, p) == Some(c)
  {
    LeafCountDistinct(t);
    CodesArePaths(t, "");
    var m := Codes(t, "");
    assert m.Keys == LeafChars(t);
    if PathLeaf(t, p) == Some(c) {
      PathLeafIn(t, p);
      assert m[c][0..] == m[c];
      PathUnique(t, p, m[c]);
    }
    if c in m && m[c] == p {
      assert m[c][0..] == m[c];
    }
  }

  lemma {:induction false} PathLeafIn(t: Node, p: string)
    requires PathLeaf(t, p).Some?
    ensures PathLeaf(t, p).value in LeafChars(t)
  {
    if p != [] {
      PathLeafIn(if p[0] == '0' then t.left else t.right, p[1..]);
    }
  }

  /** In a tree with distinct symbols, a symbol ends exactly one path. */
  lemma {:induction false} PathUnique(t: Node, p: string, q: string)
    requires DistinctLeaves(t)
    requires PathLeaf(t, p).Some? && PathLeaf(t, p) == PathLeaf(t, q)
    ensures p == q
  {
    if p != [] && q != [] {
      var tp := if p[0] == '0' then t.left else t.right;
      var tq := if q[0] == '0' then t.left else t.right;
      PathLeafIn(tp, p[1..]);
      PathLeafIn(tq, q[1..]);
      if p[0] == q[0] {
        PathUnique(tp, p[1..], q[1..]);
      }
    }
  }

  // ---------------------------------------------------------------------
  // getTreeFrequency / traverseTree

  /** The nodes of `t` in pre-order: node, Left subtree, Right subtree. */
  function PreOrder(t: Node): seq<Node> {
    match t
    case Leaf(_, _) => [t]
    case Internal(_, l, r) => [t] + PreOrder(l) + PreOrder(r)
  }

  /** A full binary tree with n leaves has 2n - 1 nodes. */
  lemma {:induction false} PreOrderLength(t: Node)
    ensures |PreOrder(t)| == 2 * LeafCount(t) - 1
  {
    match t
    case Leaf(_, _) =>
    case Internal(_, l, r) =>
      PreOrderLength(l);
      PreOrderLength(r);
  }

  /** The slice traverseTree appends to through a `*[]*Node`. */
  class NodeList {
    var nodes: seq<Node>

    constructor ()
      ensures nodes == []
    {
      nodes := [];
    }
  }

  /** traverseTree */
  method TraverseTree(node: Node, out: NodeList)
    modifies out
    ensures out.nodes == old(out.nodes) + PreOrder(node)
    decreases node
  {
    out.nodes := out.nodes + [node];
    if node.Internal? {
      TraverseTree(node.left, out);
      TraverseTree(node.right, out);
      Assoc4(old(out.nodes), [node], PreOrder(node.left), PreOrder(node.right));
    }
  }

  /** getTreeFrequency: the nodes of the tree in pre-order, 2n - 1 of them
      for n leaves, the root first. */
  method GetTreeFrequency(root: Node) returns (nodes: seq<Node>)
    ensures |nodes| == 2 * LeafCount(root) - 1 && nodes[0] == root
    ensures nodes == PreOrder(root)
  {
    var out := new NodeList();
    TraverseTree(root, out);
    nodes := out.nodes;
    PreOrderLength(root);
  }
}
