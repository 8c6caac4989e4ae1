/** Concrete failing cases: the error vectors of decode_test.go, and the
    input "a%%", whose container Decompress cannot read back. */
module Vectors {
  import opened Types
  import opened Utf8
  import opened Bits
  import opened Huff
  import opened Encode
  import opened Decode
  import opened RoundTrip

  // ---------------------------------------------------------------------
  // Decompress on malformed containers

  /** "Short input": fewer than two bytes. */
  lemma ShortInput()
    ensures DecompressSpec([0]) == Err(DataTooShort)
  {
  }

  /** "Invalid bit length": a header byte outside 1..8. */
  lemma BadBitLength()
    ensures DecompressSpec([0, 31, 37, 37, 0]) == Err(InvalidBitLength)
  {
  }

  /** "No tree start": no 0x1F. */
  lemma NoTreeStart()
    ensures DecompressSpec([8, 1, 2, 3, 4]) == Err(TreeStartNotFound)
  {
    var data: seq<byte> := [8, 1, 2, 3, 4];
    assert 31 !in data[1..];
  }

  /** "No tree end": no "%%" after the 0x1F. */
  lemma NoTreeEnd()
    ensures DecompressSpec([8, 31, 1, 2, 3, 4]) == Err(TreeEndNotFound)
  {
    var data: seq<byte> := [8, 31, 1, 2, 3, 4];
    var b := data[1..];
    assert IndexByte(b, 31) == 0;
    assert forall j :: 0 < j < |b| ==> !DelimAt(b, j);
  }

  /** "No encoded data start": nothing after the first "%%". */
  lemma NoEncData()
    ensures DecompressSpec([8, 31, 1, 2, 37, 37]) == Err(EncDataNotFound)
  {
    var data: seq<byte> := [8, 31, 1, 2, 37, 37];
    var b := data[1..];
    assert b == [31, 1, 2, 37, 37];
    TreeBytesUpTo(b, 3);
    FirstDelim(b, 3);
  }

  /** "Empty tree bytes": the "%%" right after 0x1F; the tree and payload
      searches succeed first, so the empty tree is what is reported. */
  lemma EmptyTreeBytes()
    ensures DecompressSpec([8, 31, 37, 37, 37, 37]) == Err(TreeBytesEmpty)
  {
    var data: seq<byte> := [8, 31, 37, 37, 37, 37];
    var b := data[1..];
    assert b == [31, 37, 37, 37, 37];
    assert IndexByte(b, 31) == 0;
    assert IndexDelim(b[1..]) == 0;
    assert GetTreeBytes(b) == Ok([]);
    assert DelimAt(b, 1) && !DelimAt(b, 0);
    assert IndexDelim(b) == 1;
  }

  /** "Invalid UTF-8 in tree": a leaf marker followed by 0xFF. */
  lemma BadUtf8InTree()
    ensures DecompressSpec([8, 31, 1, 0xFF, 37, 37, 37, 37]) == Err(InvalidUtf8InTree)
  {
    var data: seq<byte> := [8, 31, 1, 0xFF, 37, 37, 37, 37];
    var b := data[1..];
    assert b == [31, 1, 0xFF, 37, 37, 37, 37];
    TreeBytesUpTo(b, 3);
    EncDataFrom(b, 3);
    var tree: seq<byte> := [1, 0xFF];
    assert b[1..3] == tree;
    assert DecodeRune(tree[1..]).0 == RuneError;
  }

  /** "Empty encoded data": the container ends with the "%%". */
  lemma EmptyEncData()
    ensures DecompressSpec([8, 31, 1, 97, 37, 37]) == Err(EncDataNotFound)
  {
    var data: seq<byte> := [8, 31, 1, 97, 37, 37];
    var b := data[1..];
    assert b == [31, 1, 97, 37, 37];
    TreeBytesUpTo(b, 3);
    FirstDelim(b, 3);
  }

  // ---------------------------------------------------------------------
  // "a%%": the rightmost leaf is '%'

  /** The input "a%%" decodes to three code points. */
  lemma PercentRunes()
    ensures Runes([97, 37, 37]) == Ok([97, 37, 37])
  {
    var s: seq<byte> := [97, 37, 37];
    assert s[2..][1..] == [] && s[1..][1..] == s[2..];
    AsciiRune(s[2..], []);
    assert [s[2..][0] as Rune] + [] == [37];
    AsciiRune(s[1..], [37]);
    assert [s[1..][0] as Rune] + [37] == [37, 37];
    AsciiRune(s, [37, 37]);
    assert [s[0] as Rune] + [37, 37] == [97, 37, 37];
  }

  /** Runes on an input starting with an ASCII byte. */
  lemma AsciiRune(s: seq<byte>, tail: seq<Rune>)
    requires s != [] && s[0] < 0x80 && Runes(s[1..]) == Ok(tail)
    ensures Runes(s) == Ok([s[0] as Rune] + tail)
  {
    assert DecodeRune(s) == (s[0] as Rune, 1);
    RunesStep(s);
  }

  /** Its frequencies: 'a' once, '%' twice. */
  lemma PercentHistogram()
    ensures Histogram([97, 37, 37]) == map[97 := 1, 37 := 2]
  {
    var rs: seq<Rune> := [97, 37, 37];
    assert rs[..2] == [97, 37] && rs[..2][..1] == [97] && rs[..2][..1][..0] == [];
    assert Histogram([97]) == map[97 := 1];
    assert Histogram([97, 37]) == map[97 := 1, 37 := 1];
  }

  /** The one merge pops 'a' (count 1) first, so '%' is the right child. */
  lemma PercentTree()
    ensures IsHuffmanTree(map[97 := 1, 37 := 2], Internal(3, Leaf(97, 1), Leaf(37, 2)))
  {
    var h := map[97 := 1, 37 := 2];
    var a, p := Leaf(97, 1), Leaf(37, 2);
    var q0 := multiset{a, p};
    PercentQueue();
    PercentStep();
    var trace := [q0, multiset{Internal(3, a, p)}];
    assert HuffmanTrace(h, trace, Internal(3, a, p));
  }

  lemma PercentQueue()
    ensures InitialQueue(map[97 := 1, 37 := 2]) == multiset{Leaf(97, 1), Leaf(37, 2)}
  {
    var h := map[97 := 1, 37 := 2];
    var a, p := Leaf(97, 1), Leaf(37, 2);
    var leaves := set c | c in h :: Leaf(c, h[c]);
    assert a in leaves by { assert 97 in h; }
    assert p in leaves by { assert 37 in h; }
    assert leaves == {a, p};
  }

  lemma PercentStep()
    ensures MergeStep(multiset{Leaf(97, 1), Leaf(37, 2)}, multiset{Internal(3, Leaf(97, 1), Leaf(37, 2))})
  {
    var a, p := Leaf(97, 1), Leaf(37, 2);
    var q0 := multiset{a, p};
    assert q0 - multiset{a} == multiset{p};
    MergeStepOf(q0, a, p);
    assert q0 - multiset{a} - multiset{p} + multiset{Merge(a, p)} == multiset{Internal(3, a, p)};
  }

  /** The codes "0", "1", "1" fill the top three bits of one byte. */
  lemma PercentPayload()
    ensures Pack("011") == [96]
  {
    assert Val("0") == 0;
    assert Val("01") == 1 by { assert "01"[..1] == "0"; }
    assert Val("011") == 3 by { assert "011"[..2] == "01"; }
    ByteOfVal("011", 5);
    ValZeros("011", 5);
    Pow2Table();
  }

  lemma PercentCodes()
    ensures var table := Codes(Internal(3, Leaf(97, 1), Leaf(37, 2)), "");
      && table == map[97 := "0", 37 := "1"]
      && InTable([97, 37, 37], table) && CodeString([97, 37, 37], table) == "011"
  {
    var rs: seq<Rune> := [97, 37, 37];
    var table := Codes(Internal(3, Leaf(97, 1), Leaf(37, 2)), "");
    assert "" + "0" == "0" && "" + "1" == "1";
    assert table == map[97 := "0", 37 := "1"];
    assert InTable(rs, table);
    assert CodeString(rs[2..], table) == "1";
    assert CodeString(rs[1..], table) == "11";
  }

  lemma PercentContainer()
    ensures Container(Internal(3, Leaf(97, 1), Leaf(37, 2)), "011") == [3, 31, 0, 1, 97, 1, 37, 37, 37, 96]
  {
    var root := Internal(3, Leaf(97, 1), Leaf(37, 2));
    assert Serialize(root) == [0, 1, 97, 1, 37] by {
      assert EncodeRune(97) == [97] && EncodeRune(37) == [37];
    }
    PercentPayload();
    assert ValidBits(3) == 3;
  }

  /** Compress may return [3, 0x1F, 0, 1, 'a', 1, '%', "%%", 0x60]. */
  lemma PercentCompress()
    ensures CompressSpec([97, 37, 37], Ok([3, 31, 0, 1, 97, 1, 37, 37, 37, 96]))
  {
    var root := Internal(3, Leaf(97, 1), Leaf(37, 2));
    PercentRunes();
    PercentHistogram();
    PercentTree();
    PercentCodes();
    PercentContainer();
  }

  lemma PercentTreeBytes(b: seq<byte>)
    requires b == [31, 0, 1, 97, 1, 37, 37, 37, 96]
    ensures GetTreeBytes(b) == Ok([0, 1, 97, 1])
  {
    assert IndexByte(b, 31) == 0;
    var t := b[1..];
    assert DelimAt(t, 4) && !DelimAt(t, 0) && !DelimAt(t, 1) && !DelimAt(t, 2) && !DelimAt(t, 3);
    assert IndexDelim(t) == 4;
    assert b[1..5] == [0, 1, 97, 1];
  }

  lemma PercentEncData(b: seq<byte>)
    requires b == [31, 0, 1, 97, 1, 37, 37, 37, 96]
    ensures GetEncData(b) == Ok([37, 96])
  {
    assert DelimAt(b, 5) && !DelimAt(b, 0) && !DelimAt(b, 1) && !DelimAt(b, 2) && !DelimAt(b, 3) && !DelimAt(b, 4);
    assert IndexDelim(b) == 5;
    assert b[7..] == [37, 96];
  }

  /** The tree cut at the first "%%" ends on a leaf marker with nothing after it. */
  lemma PercentTreeOf()
    ensures TreeOf([0, 1, 97, 1]) == Err(LeafIndexOutOfRange)
  {
    var tree: seq<byte> := [0, 1, 97, 1];
    assert tree[2..] == [97, 1];
    assert DecodeRune(tree[2..]) == (97, 1);
    assert Parse(tree, 1) == Ok((Leaf(97, 0), 3));
    assert Parse(tree, 3) == Err(LeafIndexOutOfRange);
  }

  /** Decompress cannot read that container back. */
  lemma PercentDecompress()
    ensures DecompressSpec([3, 31, 0, 1, 97, 1, 37, 37, 37, 96]) == Err(LeafIndexOutOfRange)
  {
    var data: seq<byte> := [3, 31, 0, 1, 97, 1, 37, 37, 37, 96];
    PercentTreeBytes(data[1..]);
    PercentEncData(data[1..]);
    PercentTreeOf();
  }

  /** The round trip fails for "a%%": Compress may return this container,
      and Decompress rejects it. */
  lemma PercentCounterexample()
    ensures CompressSpec([97, 37, 37], Ok([3, 31, 0, 1, 97, 1, 37, 37, 37, 96]))
    ensures DecompressSpec([3, 31, 0, 1, 97, 1, 37, 37, 37, 96]) == Err(LeafIndexOutOfRange)
  {
    PercentCompress();
    PercentDecompress();
  }
}
