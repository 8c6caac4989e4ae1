/** The passing cases of the test files: buildTree on the two frequency
    maps of huff_test.go, the sample "aaaa bbb cc d" through
    getRunesFrequency, encData, Compress and Decompress, and the single
    steps of encode_test.go and decode_test.go (encodeTree, the tree bytes,
    the payload, getEncLookup, decode, rebuildEncTree), with the error
    cases of those tests. */
module Samples {
  import opened Types
  import opened Utf8
  import opened Bits
  import opened Huff
  import opened Encode
  import opened Decode
  import opened RoundTrip

  // ---------------------------------------------------------------------
  // buildTree, case 2: ' ' 3, 'a' 4, 'b' 3, 'c' 2, 'd' 1

  const Freq2: map<Rune, int> := map[32 := 3, 97 := 4, 98 := 3, 99 := 2, 100 := 1]

  const Sp2 := Leaf(32, 3)
  const A2 := Leaf(97, 4)
  const B2 := Leaf(98, 3)
  const C2 := Leaf(99, 2)
  const D2 := Leaf(100, 1)
  const N3 := Internal(3, D2, C2)
  const N6 := Internal(6, N3, Sp2)
  const N7 := Internal(7, B2, A2)
  /** 'd' and 'c' merge first; the parent (Char 0) then comes before ' '
      and 'b' of the same count. */
  const Tree2 := Internal(13, N6, N7)

  /** The queue before each iteration of buildTree's loop, the two
      minimal nodes first, and the root left at the end. */
  const S2a := [D2, C2] + [Sp2, B2, A2]
  const S2b := [N3, Sp2] + [B2, A2]
  const S2c := [B2, A2] + [N6]
  const S2d := [N6, N7] + []
  const S2e := [Tree2]

  lemma Queue2()
    ensures InitialQueue(Freq2) == multiset(S2a)
  {
    var leaves := set c | c in Freq2 :: Leaf(c, Freq2[c]);
    assert Sp2 in leaves by { assert 32 in Freq2; }
    assert A2 in leaves by { assert 97 in Freq2; }
    assert B2 in leaves by { assert 98 in Freq2; }
    assert C2 in leaves by { assert 99 in Freq2; }
    assert D2 in leaves by { assert 100 in Freq2; }
    assert leaves == {Sp2, A2, B2, C2, D2};
  }

  /** From each queue on, `Tree2` is the only outcome of the loop. */
  lemma Only2d()
    ensures OnlyRoot(multiset(S2d), Tree2)
  {
    OnlyRootEnd(Tree2);
    assert multiset(S2e) == multiset{Tree2};
    OnlyRootPop(N6, N7, [], S2e, Tree2);
  }

  lemma Only2c()
    ensures OnlyRoot(multiset(S2c), Tree2)
  {
    Only2d();
    OnlyRootPop(B2, A2, [N6], S2d, Tree2);
  }

  lemma Only2b()
    ensures OnlyRoot(multiset(S2b), Tree2)
  {
    Only2c();
    OnlyRootPop(N3, Sp2, [B2, A2], S2c, Tree2);
  }

  lemma Only2a()
    ensures OnlyRoot(multiset(S2a), Tree2)
  {
    Only2b();
    OnlyRootPop(D2, C2, [Sp2, B2, A2], S2b, Tree2);
  }

  /** Every pop has a single candidate, so `Tree2` is the only tree
      buildTree can build for case 2. */
  lemma OnlyTree2(root: Node)
    ensures IsHuffmanTree(Freq2, root) <==> root == Tree2
  {
    Queue2();
    Only2a();
    OnlyHuffmanTree(Freq2, Tree2, root);
  }

  /** The prefix table of case 2. */
  const Table2: map<Rune, string> := map[100 := "000", 99 := "001", 32 := "01", 98 := "10", 97 := "11"]

  lemma CodesTree2()
    ensures Codes(Tree2, "") == Table2
  {
    CodesShape2(100, 99, 32, 98, 97, 1, 2, 3, 3, 4, 3, 6, 7, 13);
  }

  /** The codes of every tree of case 2's shape, whatever its symbols and
      counts. */
  lemma CodesShape2(d: Rune, c: Rune, sp: Rune, b: Rune, a: Rune,
                    nd: int, nc: int, nsp: int, nb: int, na: int, n3: int, n6: int, n7: int, n13: int)
    ensures Codes(Internal(n13, Internal(n6, Internal(n3, Leaf(d, nd), Leaf(c, nc)), Leaf(sp, nsp)),
                           Internal(n7, Leaf(b, nb), Leaf(a, na))), "") ==
      map[d := "000", c := "001", sp := "01", b := "10", a := "11"]
  {
    var t3 := Internal(n3, Leaf(d, nd), Leaf(c, nc));
    var t6 := Internal(n6, t3, Leaf(sp, nsp));
    var t7 := Internal(n7, Leaf(b, nb), Leaf(a, na));
    assert "00" + "0" == "000" && "00" + "1" == "001";
    CodesJoin(n3, Leaf(d, nd), Leaf(c, nc), "00", map[d := "000"], map[c := "001"]);
    Append1(map[d := "000"], c, "001");
    assert "0" + "0" == "00" && "0" + "1" == "01";
    CodesJoin(n6, t3, Leaf(sp, nsp), "0", map[d := "000", c := "001"], map[sp := "01"]);
    Append1(map[d := "000", c := "001"], sp, "01");
    assert "1" + "0" == "10" && "1" + "1" == "11";
    CodesJoin(n7, Leaf(b, nb), Leaf(a, na), "1", map[b := "10"], map[a := "11"]);
    Append1(map[b := "10"], a, "11");
    assert "" + "0" == "0" && "" + "1" == "1";
    CodesJoin(n13, t6, t7, "", map[d := "000", c := "001", sp := "01"], map[b := "10", a := "11"]);
    Append2(map[d := "000", c := "001", sp := "01"], b, "10", a, "11");
  }

  /** The counts of a node list, in order. */
  function Counts(nodes: seq<Node>): (r: seq<int>)
    ensures |r| == |nodes| && forall i :: 0 <= i < |nodes| ==> r[i] == nodes[i].count
  {
    if nodes == [] then [] else [nodes[0].count] + Counts(nodes[1..])
  }

  lemma Freq2Ok()
    ensures |Freq2| >= 2 && forall c :: c in Freq2 ==> Freq2[c] > 0
  {
    assert 32 in Freq2 && 97 in Freq2;
    assert {32, 97} <= Freq2.Keys;
  }

  lemma PreOrderTree2()
    ensures Counts(PreOrder(Tree2)) == [13, 6, 3, 1, 2, 3, 7, 3, 4]
  {
  }

  /** buildTree on case 2, then getTreeFrequency on its root: the counts in
      pre-order and the prefix table the test expects. */
  method BuildTreeCase2() returns (counts: seq<int>, table: map<Rune, string>)
    ensures counts == [13, 6, 3, 1, 2, 3, 7, 3, 4]
    ensures table == Table2
  {
    Freq2Ok();
    var r := BuildTree(Freq2);
    var root := r.value.0;
    OnlyTree2(root);
    CodesTree2();
    PreOrderTree2();
    var nodes := GetTreeFrequency(root);
    counts := Counts(nodes);
    table := r.value.1;
  }

  // ---------------------------------------------------------------------
  // buildTree, case 1: 'c' 32, 'd' 42, 'e' 120, 'k' 7, 'l' 42, 'm' 24,
  // 'u' 37, 'z' 2

  const Freq1: map<Rune, int> :=
    map[99 := 32, 100 := 42, 101 := 120, 107 := 7, 108 := 42, 109 := 24, 117 := 37, 122 := 2]

  const C1 := Leaf(99, 32)
  const D1 := Leaf(100, 42)
  const E1 := Leaf(101, 120)
  const K1 := Leaf(107, 7)
  const L1 := Leaf(108, 42)
  const M1 := Leaf(109, 24)
  const U1 := Leaf(117, 37)
  const Z1 := Leaf(122, 2)
  const I9 := Internal(9, Z1, K1)
  const I33 := Internal(33, I9, M1)
  const I65 := Internal(65, C1, I33)
  /** 'd' and 'l' tie at 42; 'd' has the smaller code point. */
  const I79 := Internal(79, U1, D1)
  const I107 := Internal(107, L1, I65)
  const I186 := Internal(186, I79, I107)
  const Tree1 := Internal(306, E1, I186)

  /** The queue before each iteration, the two minimal nodes first. */
  const S1a := [Z1, K1] + [C1, D1, E1, L1, M1, U1]
  const S1b := [I9, M1] + [C1, D1, E1, L1, U1]
  const S1c := [C1, I33] + [D1, E1, L1, U1]
  const S1d := [U1, D1] + [E1, L1, I65]
  const S1e := [L1, I65] + [E1, I79]
  const S1f := [I79, I107] + [E1]
  const S1g := [E1, I186] + []
  const S1h := [Tree1]

  lemma Queue1()
    ensures InitialQueue(Freq1) == multiset(S1a)
  {
    var leaves := set c | c in Freq1 :: Leaf(c, Freq1[c]);
    assert C1 in leaves by { assert 99 in Freq1; }
    assert D1 in leaves by { assert 100 in Freq1; }
    assert E1 in leaves by { assert 101 in Freq1; }
    assert K1 in leaves by { assert 107 in Freq1; }
    assert L1 in leaves by { assert 108 in Freq1; }
    assert M1 in leaves by { assert 109 in Freq1; }
    assert U1 in leaves by { assert 117 in Freq1; }
    assert Z1 in leaves by { assert 122 in Freq1; }
    assert leaves == {Z1, K1, C1, D1, E1, L1, M1, U1};
    Leaves1();
  }

  lemma Leaves1()
    ensures multiset({Z1, K1, C1, D1, E1, L1, M1, U1}) == multiset(S1a)
  {
  }

  lemma Only1g()
    ensures OnlyRoot(multiset(S1g), Tree1)
  {
    OnlyRootEnd(Tree1);
    assert multiset(S1h) == multiset{Tree1};
    OnlyRootPop(E1, I186, [], S1h, Tree1);
  }

  lemma Only1f()
    ensures OnlyRoot(multiset(S1f), Tree1)
  {
    Only1g();
    OnlyRootPop(I79, I107, [E1], S1g, Tree1);
  }

  lemma Only1e()
    ensures OnlyRoot(multiset(S1e), Tree1)
  {
    Only1f();
    OnlyRootPop(L1, I65, [E1, I79], S1f, Tree1);
  }

  lemma Only1d()
    ensures OnlyRoot(multiset(S1d), Tree1)
  {
    Only1e();
    OnlyRootPop(U1, D1, [E1, L1, I65], S1e, Tree1);
  }

  lemma Only1c()
    ensures OnlyRoot(multiset(S1c), Tree1)
  {
    Only1d();
    OnlyRootPop(C1, I33, [D1, E1, L1, U1], S1d, Tree1);
  }

  lemma Only1b()
    ensures OnlyRoot(multiset(S1b), Tree1)
  {
    Only1c();
    assert Merge(I9, M1) == I33;
    PrecedesFour(M1, D1, E1, L1, U1);
    PopSecond(I9, M1, C1, [D1, E1, L1, U1], Tree1);
    assert [C1] + [D1, E1, L1, U1] == [C1, D1, E1, L1, U1];
  }

  lemma Only1a()
    ensures OnlyRoot(multiset(S1a), Tree1)
  {
    Only1b();
    OnlyRootPop(Z1, K1, [C1, D1, E1, L1, M1, U1], S1b, Tree1);
  }

  /** A pop of `l` and `r` whose merge lands second in the next queue. */
  lemma PopSecond(l: Node, r: Node, a: Node, tail: seq<Node>, t: Node)
    requires Precedes(l, r) && Precedes(r, a)
    requires forall i :: 0 <= i < |tail| ==> Precedes(r, tail[i])
    requires OnlyRoot(multiset([a, Merge(l, r)] + tail), t)
    ensures OnlyRoot(multiset([l, r] + ([a] + tail)), t)
  {
    MoveSecond(a, Merge(l, r), tail);
    OnlyRootPop(l, r, [a] + tail, [a, Merge(l, r)] + tail, t);
  }

  /** Moving the second tree of a queue to its end keeps the multiset. */
  lemma MoveSecond(a: Node, m: Node, tail: seq<Node>)
    ensures multiset([a, m] + tail) == multiset([a] + tail + [m])
  {
    assert [a, m] + tail == [a] + [m] + tail;
  }

  lemma PrecedesFour(r: Node, b: Node, c: Node, d: Node, e: Node)
    requires Precedes(r, b) && Precedes(r, c) && Precedes(r, d) && Precedes(r, e)
    ensures forall i :: 0 <= i < |[b, c, d, e]| ==> Precedes(r, [b, c, d, e][i])
  {
  }

  /** `Tree1` is the only tree buildTree can build for case 1. */
  lemma OnlyTree1(root: Node)
    ensures IsHuffmanTree(Freq1, root) <==> root == Tree1
  {
    Queue1();
    Only1a();
    OnlyHuffmanTree(Freq1, Tree1, root);
  }

  /** The prefix table of case 1, in the order of the leaves. */
  const Table1: map<Rune, string> :=
    map[101 := "0", 117 := "100", 100 := "101", 108 := "110", 99 := "1110",
        122 := "111100", 107 := "111101", 109 := "11111"]

  lemma CodesTree1()
    ensures Codes(Tree1, "") == Table1
  {
    CodesShape1(E1, U1, D1, L1, C1, Z1, K1, M1, 9, 33, 65, 79, 107, 186, 306);
  }

  /** The codes of every tree of case 1's shape, whatever its counts. */
  lemma CodesShape1(e: Node, u: Node, d: Node, l: Node, c: Node, z: Node, k: Node, m: Node,
                    n0: int, n1: int, n2: int, n3: int, n4: int, n5: int, n6: int)
    requires e.Leaf? && e.ch == 101 && u.Leaf? && u.ch == 117 && d.Leaf? && d.ch == 100
    requires l.Leaf? && l.ch == 108 && c.Leaf? && c.ch == 99 && z.Leaf? && z.ch == 122
    requires k.Leaf? && k.ch == 107 && m.Leaf? && m.ch == 109
    ensures Codes(Internal(n6, e, Internal(n5, Internal(n3, u, d),
              Internal(n4, l, Internal(n2, c, Internal(n1, Internal(n0, z, k), m))))), "") == Table1
  {
    var t0 := Internal(n0, z, k);
    var t1 := Internal(n1, t0, m);
    var t2 := Internal(n2, c, t1);
    var t3 := Internal(n3, u, d);
    var t4 := Internal(n4, l, t2);
    var t5 := Internal(n5, t3, t4);
    var m0 := map[122 := "111100", 107 := "111101"];
    var m1 := map[122 := "111100", 107 := "111101", 109 := "11111"];
    var m2 := map[99 := "1110", 122 := "111100", 107 := "111101", 109 := "11111"];
    var m3 := map[117 := "100", 100 := "101"];
    var m4 := map[108 := "110", 99 := "1110", 122 := "111100", 107 := "111101", 109 := "11111"];
    var m5 := map[117 := "100", 100 := "101", 108 := "110", 99 := "1110",
                  122 := "111100", 107 := "111101", 109 := "11111"];
    assert "11110" + "0" == "111100" && "11110" + "1" == "111101";
    CodesJoin(n0, z, k, "11110", map[122 := "111100"], map[107 := "111101"]);
    Append1(map[122 := "111100"], 107, "111101");
    assert "1111" + "0" == "11110" && "1111" + "1" == "11111";
    CodesJoin(n1, t0, m, "1111", m0, map[109 := "11111"]);
    Append1(m0, 109, "11111");
    assert "111" + "0" == "1110" && "111" + "1" == "1111";
    CodesJoin(n2, c, t1, "111", map[99 := "1110"], m1);
    Append3(map[99 := "1110"], 122, "111100", 107, "111101", 109, "11111");
    assert "10" + "0" == "100" && "10" + "1" == "101";
    CodesJoin(n3, u, d, "10", map[117 := "100"], map[100 := "101"]);
    Append1(map[117 := "100"], 100, "101");
    assert "11" + "0" == "110" && "11" + "1" == "111";
    CodesJoin(n4, l, t2, "11", map[108 := "110"], m2);
    Append4(map[108 := "110"], 99, "1110", 122, "111100", 107, "111101", 109, "11111");
    assert "1" + "0" == "10" && "1" + "1" == "11";
    CodesJoin(n5, t3, t4, "1", m3, m4);
    Append5(m3, 108, "110", 99, "1110", 122, "111100", 107, "111101", 109, "11111");
    assert "" + "0" == "0" && "" + "1" == "1";
    CodesJoin(n6, e, t5, "", map[101 := "0"], m5);
    Append7(map[101 := "0"], 117, "100", 100, "101", 108, "110", 99, "1110",
            122, "111100", 107, "111101", 109, "11111");
  }

  // Adding the entries of a map display to `m`, one update at a time.

  lemma Append1(m: map<Rune, string>, k1: Rune, v1: string)
    ensures m + map[k1 := v1] == m[k1 := v1]
  {
    UnionUpdate(m, map[], k1, v1);
    UnionEmpty(m);
  }

  lemma Append2(m: map<Rune, string>, k1: Rune, v1: string, k2: Rune, v2: string)
    ensures m + map[k1 := v1, k2 := v2] == m[k1 := v1][k2 := v2]
  {
    UnionUpdate(m, map[k1 := v1], k2, v2);
    Append1(m, k1, v1);
  }

  lemma Append3(m: map<Rune, string>, k1: Rune, v1: string, k2: Rune, v2: string, k3: Rune, v3: string)
    ensures m + map[k1 := v1, k2 := v2, k3 := v3] == m[k1 := v1][k2 := v2][k3 := v3]
  {
    UnionUpdate(m, map[k1 := v1, k2 := v2], k3, v3);
    Append2(m, k1, v1, k2, v2);
  }

  lemma Append4(m: map<Rune, string>, k1: Rune, v1: string, k2: Rune, v2: string, k3: Rune, v3: string, k4: Rune, v4: string)
    ensures m + map[k1 := v1, k2 := v2, k3 := v3, k4 := v4] == m[k1 := v1][k2 := v2][k3 := v3][k4 := v4]
  {
    UnionUpdate(m, map[k1 := v1, k2 := v2, k3 := v3], k4, v4);
    Append3(m, k1, v1, k2, v2, k3, v3);
  }

  lemma Append5(m: map<Rune, string>, k1: Rune, v1: string, k2: Rune, v2: string, k3: Rune, v3: string, k4: Rune, v4: string, k5: Rune, v5: string)
    ensures m + map[k1 := v1, k2 := v2, k3 := v3, k4 := v4, k5 := v5] == m[k1 := v1][k2 := v2][k3 := v3][k4 := v4][k5 := v5]
  {
    UnionUpdate(m, map[k1 := v1, k2 := v2, k3 := v3, k4 := v4], k5, v5);
    Append4(m, k1, v1, k2, v2, k3, v3, k4, v4);
  }

  lemma Append6(m: map<Rune, string>, k1: Rune, v1: string, k2: Rune, v2: string, k3: Rune, v3: string, k4: Rune, v4: string, k5: Rune, v5: string, k6: Rune, v6: string)
    ensures m + map[k1 := v1, k2 := v2, k3 := v3, k4 := v4, k5 := v5, k6 := v6] == m[k1 := v1][k2 := v2][k3 := v3][k4 := v4][k5 := v5][k6 := v6]
  {
    UnionUpdate(m, map[k1 := v1, k2 := v2, k3 := v3, k4 := v4, k5 := v5], k6, v6);
    Append5(m, k1, v1, k2, v2, k3, v3, k4, v4, k5, v5);
  }

  lemma Append7(m: map<Rune, string>, k1: Rune, v1: string, k2: Rune, v2: string, k3: Rune, v3: string, k4: Rune, v4: string, k5: Rune, v5: string, k6: Rune, v6: string, k7: Rune, v7: string)
    ensures m + map[k1 := v1, k2 := v2, k3 := v3, k4 := v4, k5 := v5, k6 := v6, k7 := v7] == m[k1 := v1][k2 := v2][k3 := v3][k4 := v4][k5 := v5][k6 := v6][k7 := v7]
  {
    UnionUpdate(m, map[k1 := v1, k2 := v2, k3 := v3, k4 := v4, k5 := v5, k6 := v6], k7, v7);
    Append6(m, k1, v1, k2, v2, k3, v3, k4, v4, k5, v5, k6, v6);
  }

  lemma Freq1Ok()
    ensures |Freq1| >= 2 && forall c :: c in Freq1 ==> Freq1[c] > 0
  {
    assert 99 in Freq1 && 100 in Freq1;
    assert {99, 100} <= Freq1.Keys;
  }

  lemma PreOrderTree1()
    ensures Counts(PreOrder(Tree1)) == [306, 120, 186, 79, 37, 42, 107, 42, 65, 32, 33, 9, 2, 7, 24]
  {
  }

  /** buildTree on case 1, then getTreeFrequency on its root. */
  method BuildTreeCase1() returns (counts: seq<int>, table: map<Rune, string>)
    ensures counts == [306, 120, 186, 79, 37, 42, 107, 42, 65, 32, 33, 9, 2, 7, 24]
    ensures table == Table1
  {
    Freq1Ok();
    var r := BuildTree(Freq1);
    var root := r.value.0;
    OnlyTree1(root);
    CodesTree1();
    PreOrderTree1();
    var nodes := GetTreeFrequency(root);
    counts := Counts(nodes);
    table := r.value.1;
  }

  // ---------------------------------------------------------------------
  // The sample "aaaa bbb cc d": its frequencies are those of case 2

  const Sample: seq<byte> := [97, 97, 97, 97, 32, 98, 98, 98, 32, 99, 99, 32, 100]
  const SampleRunes: seq<Rune> := [97, 97, 97, 97, 32, 98, 98, 98, 32, 99, 99, 32, 100]

  /** Bytes below 0x80 decode one to one into code points. */
  lemma {:induction false} AsciiRunes(bs: seq<byte>, rs: seq<Rune>)
    requires |bs| == |rs| && forall i :: 0 <= i < |bs| ==> bs[i] < 0x80 && rs[i] == bs[i] as Rune
    ensures Runes(bs) == Ok(rs)
  {
    if bs != [] {
      AsciiRunes(bs[1..], rs[1..]);
      assert [rs[0]] + rs[1..] == rs;
    }
  }

  lemma SampleDecodes()
    ensures Runes(Sample) == Ok(SampleRunes)
  {
    AsciiRunes(Sample, SampleRunes);
  }

  lemma HistogramSnoc(rs: seq<Rune>, c: Rune)
    ensures Histogram(rs + [c]) == Bump(Histogram(rs), c)
  {
    assert (rs + [c])[..|rs|] == rs;
  }

  lemma SampleHistogram()
    ensures Histogram(SampleRunes) == Freq2
  {
    HistogramShape(97, 32, 98, 99, 100);
  }

  /** The histogram of every text of the sample's shape, whatever its five
      distinct symbols: getRunesFrequency one step at a time. */
  lemma HistogramShape(a: Rune, sp: Rune, b: Rune, c: Rune, d: Rune)
    requires a != sp && a != b && a != c && a != d && sp != b && sp != c && sp != d
    requires b != c && b != d && c != d
    ensures Histogram([a, a, a, a, sp, b, b, b, sp, c, c, sp, d]) ==
      map[a := 4, sp := 3, b := 3, c := 2, d := 1]
  {
    HistogramFront(a, sp, b);
    HistogramSnoc([a, a, a, a, sp, b, b, b], sp);
    assert [a, a, a, a, sp, b, b, b] + [sp] == [a, a, a, a, sp, b, b, b, sp];
    assert Bump(map[a := 4, sp := 1, b := 3], sp) == map[a := 4, sp := 2, b := 3];
    HistogramSnoc([a, a, a, a, sp, b, b, b, sp], c);
    assert [a, a, a, a, sp, b, b, b, sp] + [c] == [a, a, a, a, sp, b, b, b, sp, c];
    assert Bump(map[a := 4, sp := 2, b := 3], c) == map[a := 4, sp := 2, b := 3, c := 1];
    HistogramSnoc([a, a, a, a, sp, b, b, b, sp, c], c);
    assert [a, a, a, a, sp, b, b, b, sp, c] + [c] == [a, a, a, a, sp, b, b, b, sp, c, c];
    assert Bump(map[a := 4, sp := 2, b := 3, c := 1], c) == map[a := 4, sp := 2, b := 3, c := 2];
    HistogramSnoc([a, a, a, a, sp, b, b, b, sp, c, c], sp);
    assert [a, a, a, a, sp, b, b, b, sp, c, c] + [sp] == [a, a, a, a, sp, b, b, b, sp, c, c, sp];
    assert Bump(map[a := 4, sp := 2, b := 3, c := 2], sp) == map[a := 4, sp := 3, b := 3, c := 2];
    HistogramSnoc([a, a, a, a, sp, b, b, b, sp, c, c, sp], d);
    assert [a, a, a, a, sp, b, b, b, sp, c, c, sp] + [d] == [a, a, a, a, sp, b, b, b, sp, c, c, sp, d];
    assert Bump(map[a := 4, sp := 3, b := 3, c := 2], d) == map[a := 4, sp := 3, b := 3, c := 2, d := 1];
  }

  lemma HistogramFront(a: Rune, sp: Rune, b: Rune)
    requires a != sp && a != b && sp != b
    ensures Histogram([a, a, a, a, sp, b, b, b]) == map[a := 4, sp := 1, b := 3]
  {
    HistogramFour(a);
    HistogramSnoc([a, a, a, a], sp);
    assert [a, a, a, a] + [sp] == [a, a, a, a, sp];
    assert Bump(map[a := 4], sp) == map[a := 4, sp := 1];
    HistogramSnoc([a, a, a, a, sp], b);
    assert [a, a, a, a, sp] + [b] == [a, a, a, a, sp, b];
    assert Bump(map[a := 4, sp := 1], b) == map[a := 4, sp := 1, b := 1];
    HistogramSnoc([a, a, a, a, sp, b], b);
    assert [a, a, a, a, sp, b] + [b] == [a, a, a, a, sp, b, b];
    assert Bump(map[a := 4, sp := 1, b := 1], b) == map[a := 4, sp := 1, b := 2];
    HistogramSnoc([a, a, a, a, sp, b, b], b);
    assert [a, a, a, a, sp, b, b] + [b] == [a, a, a, a, sp, b, b, b];
    assert Bump(map[a := 4, sp := 1, b := 2], b) == map[a := 4, sp := 1, b := 3];
  }

  lemma HistogramFour(a: Rune)
    ensures Histogram([a, a, a, a]) == map[a := 4]
  {
    assert Histogram([]) == map[];
    HistogramSnoc([], a);
    assert [] + [a] == [a];
    assert Bump(map[], a) == map[a := 1];
    HistogramSnoc([a], a);
    assert [a] + [a] == [a, a];
    assert Bump(map[a := 1], a) == map[a := 2];
    HistogramSnoc([a, a], a);
    assert [a, a] + [a] == [a, a, a];
    assert Bump(map[a := 2], a) == map[a := 3];
    HistogramSnoc([a, a, a], a);
    assert [a, a, a] + [a] == [a, a, a, a];
    assert Bump(map[a := 3], a) == map[a := 4];
  }

  lemma {:induction false} CodeStringAppend(a: seq<Rune>, b: seq<Rune>, table: map<Rune, string>)
    requires InTable(a, table) && InTable(b, table)
    ensures InTable(a + b, table)
    ensures CodeString(a + b, table) == CodeString(a, table) + CodeString(b, table)
  {
    if a != [] {
      assert (a + b)[1..] == a[1..] + b;
      CodeStringAppend(a[1..], b, table);
    } else {
      assert a + b == b;
    }
  }

  /** The payload bits of the sample under case 2's table. */
  const SampleBits := "11111111" + ("01101010" + ("01001001" + "01000"))

  lemma SampleCodes()
    ensures CodeString(SampleRunes, Table2) == SampleBits
  {
    CodesOfShape(Table2, 100);
  }

  /** The codes of the sample's text under any table giving case 2's codes
      to 'a', ' ', 'b' and 'c', and "000" to its last symbol `d`. */
  lemma CodesOfShape(table: map<Rune, string>, d: Rune)
    requires 97 in table && 32 in table && 98 in table && 99 in table && d in table
    requires table[97] == "11" && table[32] == "01" && table[98] == "10"
    requires table[99] == "001" && table[d] == "000"
    ensures InTable([97, 97, 97, 97, 32, 98, 98, 98, 32, 99, 99, 32, d], table)
    ensures CodeString([97, 97, 97, 97, 32, 98, 98, 98, 32, 99, 99, 32, d], table) == SampleBits
  {
    var x, y, z, w := [97, 97, 97, 97], [32, 98, 98, 98], [32, 99, 99], [32, d];
    assert [97, 97, 97, 97, 32, 98, 98, 98, 32, 99, 99, 32, d] == x + (y + (z + w));
    ChunkCodes(table, d);
    CodeStringAppend(z, w, table);
    CodeStringAppend(y, z + w, table);
    CodeStringAppend(x, y + (z + w), table);
  }

  /** The codes of the sample's text, in chunks of whole bytes. */
  lemma ChunkCodes(table: map<Rune, string>, d: Rune)
    requires 97 in table && 32 in table && 98 in table && 99 in table && d in table
    requires table[97] == "11" && table[32] == "01" && table[98] == "10"
    requires table[99] == "001" && table[d] == "000"
    ensures InTable([97, 97, 97, 97], table) && CodeString([97, 97, 97, 97], table) == "11111111"
    ensures InTable([32, 98, 98, 98], table) && CodeString([32, 98, 98, 98], table) == "01101010"
    ensures InTable([32, 99, 99], table) && CodeString([32, 99, 99], table) == "01001001"
    ensures InTable([32, d], table) && CodeString([32, d], table) == "01000"
  {
    assert CodeString([97], table) == "11";
    assert CodeString([97, 97], table) == "1111";
    assert CodeString([97, 97, 97], table) == "111111";
    assert CodeString([98], table) == "10";
    assert CodeString([98, 98], table) == "1010";
    assert CodeString([98, 98, 98], table) == "101010";
    assert CodeString([99], table) == "001";
    assert CodeString([99, 99], table) == "001001";
    assert CodeString([d], table) == "000";
  }

  /** Packing takes the first eight bits into one byte. */
  lemma PackFront(b8: string, rest: string)
    requires |b8| == 8 && |rest| > 0
    ensures Pack(b8 + rest) == [ByteOf(b8)] + Pack(rest)
  {
    assert (b8 + rest)[..8] == b8 && (b8 + rest)[8..] == rest;
  }

  lemma SamplePacked()
    ensures Pack(SampleBits) == [255, 106, 73, 64]
  {
    PackFront("11111111", "01101010" + ("01001001" + "01000"));
    PackFront("01101010", "01001001" + "01000");
    PackFront("01001001", "01000");
    SampleBytes();
  }

  lemma SampleBytes()
    ensures ByteOf("11111111") == 255 && ByteOf("01101010") == 106
    ensures ByteOf("01001001") == 73 && ByteOf("01000") == 64
  {
    ByteOf8("11111111");
    ByteOf8("01101010");
    ByteOf8("01001001");
    assert "01000" + Zeros(3) == "01000000";
    Val8("01000000");
  }

  lemma ByteOf8(s: string)
    requires |s| == 8
    ensures ByteOf(s) as int == Val(s) == 128 * BitValue(s[0]) + 64 * BitValue(s[1]) + 32 * BitValue(s[2]) +
      16 * BitValue(s[3]) + 8 * BitValue(s[4]) + 4 * BitValue(s[5]) + 2 * BitValue(s[6]) + BitValue(s[7])
  {
    assert s + Zeros(0) == s;
    Val8(s);
  }

  function BitValue(ch: char): nat {
    if ch == '1' then 1 else 0
  }

  /** A byte's eight bits, most significant first, read as a numeral. */
  lemma Val8(s: string)
    requires |s| == 8
    ensures Val(s) == 128 * BitValue(s[0]) + 64 * BitValue(s[1]) + 32 * BitValue(s[2]) +
      16 * BitValue(s[3]) + 8 * BitValue(s[4]) + 4 * BitValue(s[5]) + 2 * BitValue(s[6]) + BitValue(s[7])
  {
    assert s[..8] == s;
    assert s[..1][..0] == [];
    assert Val(s[..1]) == BitValue(s[0]);
    assert s[..2][..1] == s[..1];
    assert Val(s[..2]) == 2 * Val(s[..1]) + BitValue(s[1]);
    assert s[..3][..2] == s[..2];
    assert Val(s[..3]) == 2 * Val(s[..2]) + BitValue(s[2]);
    assert s[..4][..3] == s[..3];
    assert Val(s[..4]) == 2 * Val(s[..3]) + BitValue(s[3]);
    assert s[..5][..4] == s[..4];
    assert Val(s[..5]) == 2 * Val(s[..4]) + BitValue(s[4]);
    assert s[..6][..5] == s[..5];
    assert Val(s[..6]) == 2 * Val(s[..5]) + BitValue(s[5]);
    assert s[..7][..6] == s[..6];
    assert Val(s[..7]) == 2 * Val(s[..6]) + BitValue(s[6]);
    assert s[..8][..7] == s[..7];
    assert Val(s[..8]) == 2 * Val(s[..7]) + BitValue(s[7]);
  }

  /** The container of TestCompress and TestDecompress. */
  const SampleOut: seq<byte> :=
    [5, 31, 0, 0, 0, 1, 100, 1, 99, 1, 32, 0, 1, 98, 1, 97, 37, 37, 255, 106, 73, 64]

  lemma SerializeTree2()
    ensures Serialize(Tree2) == [0, 0, 0, 1, 100, 1, 99, 1, 32, 0, 1, 98, 1, 97]
  {
  }

  lemma SampleContainer()
    ensures Container(Tree2, SampleBits) == SampleOut
  {
    SerializeTree2();
    SamplePacked();
    assert |SampleBits| == 29 && ValidBits(29) == 5;
    assert [5, 0x1F] + [0, 0, 0, 1, 100, 1, 99, 1, 32, 0, 1, 98, 1, 97] + [37, 37] + [255, 106, 73, 64] == SampleOut;
  }

  /** TestCompress: "aaaa bbb cc d" compresses to SampleOut; the tree is
      forced because buildTree meets no ties on these counts. */
  method CompressExample() returns (r: Result<seq<byte>>)
    ensures r == Ok(SampleOut)
  {
    r := Compress(Sample);
    SampleDecodes();
    SampleHistogram();
    Freq2Ok();
    assert Runes(Sample) == Ok(SampleRunes) && Histogram(SampleRunes) == Freq2;
    ghost var root :| && IsHuffmanTree(Freq2, root) && InTable(SampleRunes, Codes(root, ""))
      && r == Ok(Container(root, CodeString(SampleRunes, Codes(root, ""))));
    OnlyTree2(root);
    CodesTree2();
    SampleCodes();
    SampleContainer();
  }

  /** TestDecompress: SampleOut decompresses to "aaaa bbb cc d". */
  method DecompressExample() returns (r: Result<seq<byte>>)
    ensures r == Ok(Sample)
  {
    r := Decompress(SampleOut);
    SampleDecodes();
    SampleHistogram();
    Freq2Ok();
    OnlyTree2(Tree2);
    RoundTrip.RoundTrip(Sample, Tree2);
    CodesTree2();
    SampleCodes();
    SampleContainer();
  }

  // ---------------------------------------------------------------------
  // The sample with '-' for 'd': getRunesFrequency and encData

  const Dashed: seq<byte> := [97, 97, 97, 97, 32, 98, 98, 98, 32, 99, 99, 32, 45]

  /** The prefix table of TestEncodeData. */
  const Table3: map<Rune, string> := map[32 := "01", 97 := "11", 98 := "10", 99 := "001", 45 := "000"]

  const DashedRunes: seq<Rune> := [97, 97, 97, 97, 32, 98, 98, 98, 32, 99, 99, 32, 45]

  lemma DashedDecodes()
    ensures Runes(Dashed) == Ok(DashedRunes)
  {
    AsciiRunes(Dashed, DashedRunes);
  }

  /** TestGetRunesFrequency: ' ' 3, '-' 1, 'a' 4, 'b' 3, 'c' 2. */
  method GetRunesFrequencyExample() returns (r: Result<map<Rune, int>>)
    ensures r == Ok(map[97 := 4, 32 := 3, 98 := 3, 99 := 2, 45 := 1])
  {
    r := GetRunesFrequency(Dashed);
    DashedDecodes();
    HistogramShape(97, 32, 98, 99, 45);
  }

  lemma DashedCodes()
    ensures InTable(DashedRunes, Table3)
    ensures CodeString(DashedRunes, Table3) == SampleBits
  {
    CodesOfShape(Table3, 45);
  }

  /** TestEncodeData: 29 bits packed into 255, 106, 73, 64. */
  method EncDataExample() returns (r: Result<(seq<byte>, nat)>)
    ensures r == Ok(([255, 106, 73, 64], 29))
  {
    r := EncData(Dashed, Table3);
    DashedDecodes();
    DashedCodes();
    BitstreamRunes(Dashed, Table3);
    SamplePacked();
  }

  // ---------------------------------------------------------------------
  // The other passing cases and the error cases

  /** TestEncodeTree: encodeTree on case 1's tree with 120 for the count of
      the root's Right child gives case 1's table. */
  method EncodeTreeExample() returns (table: map<Rune, string>)
    ensures table == Table1
  {
    var root := Internal(306, E1, Internal(120, I79, I107));
    var preTab := new PrefixTable();
    EncodeTree(root, "", preTab);
    CodesShape1(E1, U1, D1, L1, C1, Z1, K1, M1, 9, 33, 65, 79, 107, 120, 306);
    UnionEmpty(Codes(root, ""));
    assert map[] + Codes(root, "") == Codes(root, "");
    table := preTab.codes;
  }

  /** The first "%%" of `t` is at `k` when no '%' comes before it. */
  lemma DelimAfter(t: seq<byte>, k: nat)
    requires DelimAt(t, k) && 37 !in t[..k]
    ensures IndexDelim(t) == k
  {
    forall j | 0 <= j < k
      ensures !DelimAt(t, j)
    {
      assert t[j] == t[..k][j];
    }
    FirstDelim(t, k);
  }

  /** TestGetTreeBytes: getTreeBytes runs on the whole container of the
      sample, header byte included. */
  lemma SampleTreeBytes()
    ensures GetTreeBytes(SampleOut) == Ok([0, 0, 0, 1, 100, 1, 99, 1, 32, 0, 1, 98, 1, 97])
  {
    var tree: seq<byte> := [0, 0, 0, 1, 100, 1, 99, 1, 32, 0, 1, 98, 1, 97];
    assert SampleOut == [5, 31] + tree + [37, 37] + [255, 106, 73, 64];
    TreeBytesAfter(5, tree, [255, 106, 73, 64]);
  }

  /** getTreeBytes after a header byte other than 0x1F, on a tree with no '%'. */
  lemma TreeBytesAfter(h: byte, tree: seq<byte>, rest: seq<byte>)
    requires h != 31 && 37 !in tree
    ensures GetTreeBytes([h, 31] + tree + [37, 37] + rest) == Ok(tree)
  {
    var b := [h, 31] + tree + [37, 37] + rest;
    assert b[1..][0] == 31;
    assert IndexByte(b, 31) == 1;
    var t := b[2..];
    assert t == tree + [37, 37] + rest;
    assert t[..|tree|] == tree;
    DelimAfter(t, |tree|);
    assert b[2..2 + |tree|] == tree;
  }

  /** TestGetEncData: everything after the first "%%". */
  lemma SampleEncData()
    ensures GetEncData(SampleOut) == Ok([255, 106, 73, 64])
  {
    var tree: seq<byte> := [0, 0, 0, 1, 100, 1, 99, 1, 32, 0, 1, 98, 1, 97];
    assert SampleOut == [5, 31] + tree + [37, 37] + [255, 106, 73, 64];
    EncDataAfter(5, tree, [255, 106, 73, 64]);
  }

  /** getEncData after a header byte other than '%' and a tree with no '%'. */
  lemma EncDataAfter(h: byte, tree: seq<byte>, rest: seq<byte>)
    requires h != 37 && 37 !in tree && rest != []
    ensures GetEncData([h, 31] + tree + [37, 37] + rest) == Ok(rest)
  {
    var b := [h, 31] + tree + [37, 37] + rest;
    assert b[..2 + |tree|] == [h, 31] + tree;
    DelimAfter(b, 2 + |tree|);
    assert b[4 + |tree|..] == rest;
  }

  /** TestCompressInvalidUTF8. */
  method CompressInvalidExample() returns (r: Result<seq<byte>>)
    ensures r == Err(InvalidUtf8)
  {
    r := Compress([255, 254, 253]);
  }

  /** TestSerializTreeNilNode. */
  method SerializeNilExample() returns (r: Result<seq<byte>>)
    ensures r == Err(NodeIsNil)
  {
    r := SerializeTree(None);
  }

  /** TestEndDataMissingCharInPrefixTable: 'c' has no code. */
  method EncDataMissingExample() returns (r: Result<(seq<byte>, nat)>)
    ensures r == Err(CharNotInTable)
  {
    r := EncData([97, 98, 99], map[97 := "00", 98 := "01"]);
    AsciiRunes([97, 98, 99], [97, 98, 99]);
    BitstreamRunes([97, 98, 99], map[97 := "00", 98 := "01"]);
  }

  /** TestInvalidBuildTree. */
  method BuildTreeErrorExamples() returns (empty: Result<(Node, map<Rune, string>)>,
                                               zero: Result<(Node, map<Rune, string>)>,
                                               single: Result<(Node, map<Rune, string>)>)
    ensures empty == Err(EmptyFrequencyMap)
    ensures zero == Err(NonPositiveFrequency)
    ensures single == Err(InsufficientSymbols)
  {
    empty := BuildTree(map[]);
    zero := BuildTree(map[97 := 0]);
    single := BuildTree(map[97 := 1]);
  }

  // ---------------------------------------------------------------------
  // The sample with '…' for 'd': getEncLookup and decode

  /** U+2026 HORIZONTAL ELLIPSIS, three bytes in UTF-8. */
  const Ellipsis: Rune := 0x2026

  const Table4: map<Rune, string> := map[Ellipsis := "000", 99 := "001", 32 := "01", 98 := "10", 97 := "11"]

  /** The lookup of TestDecode, in the order the test lists it. */
  const Lookup4: seq<Entry> :=
    [Entry("000", Ellipsis), Entry("001", 99), Entry("01", 32), Entry("10", 98), Entry("11", 97)]

  /** A tree whose codes are Table4: case 2's shape with '…' for 'd'. */
  const Tree4 := Internal(0, Internal(0, Internal(0, Leaf(Ellipsis, 0), Leaf(99, 0)), Leaf(32, 0)),
                          Internal(0, Leaf(98, 0), Leaf(97, 0)))

  lemma CodesTree4()
    ensures Codes(Tree4, "") == Table4
  {
    CodesShape2(Ellipsis, 99, 32, 98, 97, 0, 0, 0, 0, 0, 0, 0, 0, 0);
  }

  lemma LookupTable4()
    ensures Enumerates(Lookup4, Table4)
  {
    assert |Table4.Keys| == 5;
    forall e ensures e in Lookup4 <==> e.ch in Table4 && e.code == Table4[e.ch] {
    }
  }

  /** TestGetEncLookup: getEncLookup lists the five entries of the table,
      in some order. */
  method GetEncLookupExample() returns (lookup: seq<Entry>)
    ensures |lookup| == 5 && forall e :: e in lookup <==> e in Lookup4
  {
    lookup := GetEncLookup(Table4);
    LookupTable4();
  }

  const EllipsisRunes: seq<Rune> := [97, 97, 97, 97, 32, 98, 98, 98, 32, 99, 99, 32, Ellipsis]

  lemma EllipsisBytes()
    ensures EncodeAll(EllipsisRunes) == [97, 97, 97, 97, 32, 98, 98, 98, 32, 99, 99, 32, 226, 128, 166]
  {
    var hb: seq<byte> := [97, 97, 97, 97, 32, 98, 98, 98, 32, 99, 99, 32];
    var hr: seq<Rune> := [97, 97, 97, 97, 32, 98, 98, 98, 32, 99, 99, 32];
    AsciiThen(hb, hr, Ellipsis);
    EllipsisUtf8();
    assert EllipsisRunes == hr + [Ellipsis];
    assert hb + [226, 128, 166] == [97, 97, 97, 97, 32, 98, 98, 98, 32, 99, 99, 32, 226, 128, 166];
  }

  /** The encoding of ASCII code points followed by one more. */
  lemma AsciiThen(hb: seq<byte>, hr: seq<Rune>, c: Rune)
    requires |hb| == |hr| && forall i :: 0 <= i < |hb| ==> hb[i] < 0x80 && hr[i] == hb[i] as Rune
    ensures EncodeAll(hr + [c]) == hb + EncodeRune(c)
  {
    AsciiRunes(hb, hr);
    RunesEncodeAll(hb);
    EncodeAllAppend(hr, [c]);
    assert EncodeAll([c]) == EncodeRune(c) + EncodeAll([]);
  }

  lemma EllipsisUtf8()
    ensures EncodeRune(Ellipsis) == [226, 128, 166]
  {
    assert Ellipsis / 4096 == 2 && (Ellipsis / 64) % 64 == 0 && Ellipsis % 64 == 38;
  }

  /** TestDecode: the 29 bits of the sample read with Lookup4 give the
      sample with '…' in UTF-8 for its last symbol. */
  method DecodeExample() returns (decompressed: seq<byte>)
    ensures decompressed == [97, 97, 97, 97, 32, 98, 98, 98, 32, 99, 99, 32, 226, 128, 166]
  {
    decompressed := Decode.Decode([255, 106, 73, 64], Lookup4, 5);
    DecodeSample();
  }

  lemma DecodeSample()
    ensures Scan(Lookup4, [], Unpack([255, 106, 73, 64])[..BitsToRead(4, 5)]) ==
      [97, 97, 97, 97, 32, 98, 98, 98, 32, 99, 99, 32, 226, 128, 166]
  {
    UnpackSample();
    CodesTree4();
    LookupTable4();
    CodesInjective(Tree4);
    ScanTable(Lookup4, Table4, [], SampleBits);
    DecodeWithTable4();
  }

  /** The first 29 bits of the packed sample are the sample's bits. */
  lemma UnpackSample()
    ensures Unpack([255, 106, 73, 64])[..BitsToRead(4, 5)] == SampleBits
  {
    assert BitsToRead(4, 5) == 29;
    SamplePacked();
    assert IsBitString("11111111") && IsBitString("01101010");
    assert IsBitString("01001001") && IsBitString("01000");
    BitStringConcat("01001001", "01000");
    BitStringConcat("01101010", "01001001" + "01000");
    BitStringConcat("11111111", "01101010" + ("01001001" + "01000"));
    UnpackPrefix(SampleBits);
  }

  lemma BitStringConcat(a: string, b: string)
    requires IsBitString(a) && IsBitString(b)
    ensures IsBitString(a + b)
  {
    forall i | 0 <= i < |a + b| ensures (a + b)[i] == '0' || (a + b)[i] == '1' {
      if i >= |a| {
        assert (a + b)[i] == b[i - |a|];
      }
    }
  }

  lemma DecodeWithTable4()
    ensures DecodeWith(Table4, [], SampleBits) == [97, 97, 97, 97, 32, 98, 98, 98, 32, 99, 99, 32, 226, 128, 166]
  {
    CodesTree4();
    CodesOfShape(Table4, Ellipsis);
    DecodeTree(Tree4, EllipsisRunes);
    EllipsisBytes();
  }

  /** The codes of a tree with two leaves or more decode back what they
      encode. */
  lemma DecodeTree(t: Node, rs: seq<Rune>)
    requires t.Internal? && InTable(rs, Codes(t, ""))
    ensures DecodeWith(Codes(t, ""), [], CodeString(rs, Codes(t, ""))) == EncodeAll(rs)
  {
    PrefixFree(t);
    NonEmptyCodes(t);
    DecodeCodes(Codes(t, ""), rs);
  }

  // ---------------------------------------------------------------------
  // rebuildEncTree on eight symbols, one of them two bytes long

  /** The tree bytes of TestRebuildEncTree. */
  const TreeBytes5: seq<byte> :=
    [0, 0, 0, 0, 1, 100, 1, 99, 1, 32, 1, 98, 0, 1, 97, 0, 1, 195, 170, 0, 1, 102, 1, 103]

  /** The tree those bytes describe; rebuilt trees carry no counts. */
  const Tree5 := Internal(0, Internal(0, Internal(0, Internal(0, Leaf(100, 0), Leaf(99, 0)), Leaf(32, 0)), Leaf(98, 0)),
                          Internal(0, Leaf(97, 0), Internal(0, Leaf(0xEA, 0), Internal(0, Leaf(102, 0), Leaf(103, 0)))))

  const Table5: map<Rune, string> :=
    map[100 := "0000", 99 := "0001", 32 := "001", 98 := "01", 97 := "10", 0xEA := "110", 102 := "1110", 103 := "1111"]

  lemma SerializeTree5()
    ensures Serialize(Tree5) == TreeBytes5
  {
    assert EncodeRune(0xEA) == [195, 170];
  }

  lemma RebuildTree5()
    ensures TreeOf(TreeBytes5) == Ok(Tree5)
  {
    assert forall c :: c in LeafChars(Tree5) ==> IsScalar(c) && c != RuneError;
    LeavesDecodableOf(Tree5);
    TreeOfSerialize(Tree5);
    SerializeTree5();
    assert Strip(Tree5) == Tree5;
  }

  /** The codes of every tree of Tree5's shape, whatever its symbols. */
  lemma CodesShape5(d: Rune, c: Rune, sp: Rune, b: Rune, a: Rune, e: Rune, f: Rune, g: Rune)
    ensures Codes(Internal(0, Internal(0, Internal(0, Internal(0, Leaf(d, 0), Leaf(c, 0)), Leaf(sp, 0)), Leaf(b, 0)),
                           Internal(0, Leaf(a, 0), Internal(0, Leaf(e, 0), Internal(0, Leaf(f, 0), Leaf(g, 0))))), "") ==
      map[d := "0000", c := "0001", sp := "001", b := "01", a := "10", e := "110", f := "1110", g := "1111"]
  {
    var t0 := Internal(0, Leaf(d, 0), Leaf(c, 0));
    var t1 := Internal(0, t0, Leaf(sp, 0));
    var t2 := Internal(0, t1, Leaf(b, 0));
    var u0 := Internal(0, Leaf(f, 0), Leaf(g, 0));
    var u1 := Internal(0, Leaf(e, 0), u0);
    var u2 := Internal(0, Leaf(a, 0), u1);
    assert "000" + "0" == "0000" && "000" + "1" == "0001";
    CodesJoin(0, Leaf(d, 0), Leaf(c, 0), "000", map[d := "0000"], map[c := "0001"]);
    Append1(map[d := "0000"], c, "0001");
    assert "00" + "0" == "000" && "00" + "1" == "001";
    CodesJoin(0, t0, Leaf(sp, 0), "00", map[d := "0000", c := "0001"], map[sp := "001"]);
    Append1(map[d := "0000", c := "0001"], sp, "001");
    assert "0" + "0" == "00" && "0" + "1" == "01";
    CodesJoin(0, t1, Leaf(b, 0), "0", map[d := "0000", c := "0001", sp := "001"], map[b := "01"]);
    Append1(map[d := "0000", c := "0001", sp := "001"], b, "01");
    assert "111" + "0" == "1110" && "111" + "1" == "1111";
    CodesJoin(0, Leaf(f, 0), Leaf(g, 0), "111", map[f := "1110"], map[g := "1111"]);
    Append1(map[f := "1110"], g, "1111");
    assert "11" + "0" == "110" && "11" + "1" == "111";
    CodesJoin(0, Leaf(e, 0), u0, "11", map[e := "110"], map[f := "1110", g := "1111"]);
    Append2(map[e := "110"], f, "1110", g, "1111");
    assert "1" + "0" == "10" && "1" + "1" == "11";
    CodesJoin(0, Leaf(a, 0), u1, "1", map[a := "10"], map[e := "110", f := "1110", g := "1111"]);
    Append3(map[a := "10"], e, "110", f, "1110", g, "1111");
    assert "" + "0" == "0" && "" + "1" == "1";
    CodesJoin(0, t2, u2, "", map[d := "0000", c := "0001", sp := "001", b := "01"],
              map[a := "10", e := "110", f := "1110", g := "1111"]);
    Append4(map[d := "0000", c := "0001", sp := "001", b := "01"], a, "10", e, "110", f, "1110", g, "1111");
  }

  /** TestRebuildEncTree: the rebuilt tree's prefix table. */
  method RebuildEncTreeExample() returns (table: map<Rune, string>)
    ensures table == Table5
  {
    var r := RebuildEncTree(TreeBytes5);
    RebuildTree5();
    var preTab := new PrefixTable();
    EncodeTree(r.value, "", preTab);
    CodesShape5(100, 99, 32, 98, 97, 0xEA, 102, 103);
    UnionEmpty(Codes(Tree5, ""));
    assert map[] + Codes(Tree5, "") == Codes(Tree5, "");
    table := preTab.codes;
  }
}
