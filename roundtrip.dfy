/** Decompress undoes Compress: the container Compress builds is taken
    apart by Decompress into the original input, provided the rightmost
    leaf of the tree is not '%'. When it is, the serialized tree ends in
    byte 37 and the search for the first "%%" cuts the tree one byte short;
    PercentCounterexample shows this for the input "a%%". */
module RoundTrip {
  import opened Types
  import opened Utf8
  import opened Bits
  import opened Huff
  import opened Encode
  import opened Decode

  /** The symbol of the rightmost leaf, whose bytes end the serialized tree. */
  function RightmostLeaf(t: Node): (c: Rune)
    ensures c in LeafChars(t)
  {
    match t
    case Leaf(c, _) => c
    case Internal(_, _, r) => RightmostLeaf(r)
  }

  // ---------------------------------------------------------------------
  // Finding the parts of the container

  /** In a serialized tree every byte 37 is the last byte or is followed by
      a node marker, so "%%" never occurs inside it; it ends in 37 only
      when its rightmost leaf is '%'. */
  lemma {:induction false} SerializeDelims(t: Node)
    ensures Serialize(t)[0] <= 1
    ensures forall j :: 0 <= j < |Serialize(t)| - 1 && Serialize(t)[j] == 37 ==> Serialize(t)[j + 1] <= 1
    ensures Serialize(t)[|Serialize(t)| - 1] == 37 ==> RightmostLeaf(t) == 37
  {
    match t
    case Leaf(c, _) =>
      EncodeRuneBytes(c);
    case Internal(_, l, r) =>
      SerializeDelims(l);
      SerializeDelims(r);
      var s, sl, sr := Serialize(t), Serialize(l), Serialize(r);
      assert s == [0] + sl + sr;
      forall j | 0 <= j < |s| - 1 && s[j] == 37
        ensures s[j + 1] <= 1
      {
        if j <= |sl| {
          assert s[j] == sl[j - 1];
          if j < |sl| {
            assert s[j + 1] == sl[j];
          } else {
            assert s[j + 1] == sr[0];
          }
        } else {
          assert s[j] == sr[j - 1 - |sl|] && s[j + 1] == sr[j - |sl|];
        }
      }
      assert s[|s| - 1] == sr[|sr| - 1];
  }

  /** The bytes Decompress searches once the header byte is dropped: the
      tree start marker, the tree bytes `s`, "%%" and the payload `p`. */
  function Body(s: seq<byte>, p: seq<byte>): seq<byte> {
    [0x1F] + s + [37, 37] + p
  }

  /** The first "%%" of the body is the one after the tree bytes, when these
      start with a node marker, have a marker after every 37 but the last
      byte, and do not end in 37. */
  lemma BodyDelims(s: seq<byte>, p: seq<byte>)
    requires s != [] && s[0] <= 1 && s[|s| - 1] != 37
    requires forall j :: 0 <= j < |s| - 1 && s[j] == 37 ==> s[j + 1] <= 1
    ensures forall j :: 0 <= j <= |s| ==> !DelimAt(Body(s, p), j)
    ensures DelimAt(Body(s, p), |s| + 1)
  {
    var b := Body(s, p);
    forall j | 0 <= j <= |s|
      ensures !DelimAt(b, j)
    {
      if 1 <= j {
        assert b[j] == s[j - 1];
        if j < |s| {
          assert b[j + 1] == s[j];
        }
      }
    }
    assert b[|s| + 1] == 37 && b[|s| + 2] == 37;
  }

  /** getTreeBytes finds the tree bytes and getEncData the payload. */
  lemma LocateBytes(s: seq<byte>, p: seq<byte>)
    requires s != [] && s[0] <= 1 && s[|s| - 1] != 37
    requires forall j :: 0 <= j < |s| - 1 && s[j] == 37 ==> s[j + 1] <= 1
    requires p != []
    ensures GetTreeBytes(Body(s, p)) == Ok(s)
    ensures GetEncData(Body(s, p)) == Ok(p)
  {
    var b := Body(s, p);
    BodyDelims(s, p);
    assert b[0] == 31;
    TreeBytesUpTo(b, |s| + 1);
    assert b[1..|s| + 1] == s;
    EncDataFrom(b, |s| + 1);
    assert b[|s| + 3..] == p;
  }

  /** In a container whose rightmost leaf is not '%', getTreeBytes finds the
      serialized tree and getEncData the packed bits. */
  lemma LocateParts(root: Node, bits: string)
    requires RightmostLeaf(root) != 37 && bits != []
    ensures GetTreeBytes(Body(Serialize(root), Pack(bits))) == Ok(Serialize(root))
    ensures GetEncData(Body(Serialize(root), Pack(bits))) == Ok(Pack(bits))
  {
    SerializeDelims(root);
    LocateBytes(Serialize(root), Pack(bits));
  }

  // ---------------------------------------------------------------------
  // Rebuilding the tree

  /** Every leaf symbol survives the UTF-8 round trip of the tree bytes. */
  predicate LeavesDecodable(t: Node) {
    match t
    case Leaf(c, _) => IsScalar(c) && c != RuneError
    case Internal(_, l, r) => LeavesDecodable(l) && LeavesDecodable(r)
  }

  lemma {:induction false} LeavesDecodableOf(t: Node)
    requires forall c :: c in LeafChars(t) ==> IsScalar(c) && c != RuneError
    ensures LeavesDecodable(t)
  {
    match t
    case Leaf(_, _) =>
    case Internal(_, l, r) =>
      LeavesDecodableOf(l);
      LeavesDecodableOf(r);
  }

  /** The tree with its counts dropped, as the tree bytes store it. */
  function Strip(t: Node): Node {
    match t
    case Leaf(c, _) => Leaf(c, 0)
    case Internal(_, l, r) => Internal(0, Strip(l), Strip(r))
  }

  /** The number of bytes serializeNode writes for `t`. */
  function Size(t: Node): nat {
    match t
    case Leaf(c, _) => 1 + RuneLen(c)
    case Internal(_, l, r) => 1 + Size(l) + Size(r)
  }

  lemma {:induction false} SizeSerialize(t: Node)
    ensures Size(t) == |Serialize(t)|
  {
    match t
    case Leaf(c, _) =>
    case Internal(_, l, r) =>
      SizeSerialize(l);
      SizeSerialize(r);
  }

  /** The bytes of `b` from `i` on hold `t` in the form rebuildEncSubTrees
      reads: 0 before the two subtrees of an internal node, 1 before the
      decodable character of a leaf. */
  ghost predicate SerializedAt(b: seq<byte>, i: nat, t: Node)
    decreases t
  {
    match t
    case Leaf(c, _) =>
      i + 1 < |b| && b[i] == 1 && c != RuneError && DecodeRune(b[i + 1..]) == (c, RuneLen(c))
    case Internal(_, l, r) =>
      i < |b| && b[i] == 0 && SerializedAt(b, i + 1, l) && SerializedAt(b, i + 1 + Size(l), r)
  }

  lemma {:induction false} SerializedAtSlice(b: seq<byte>, i: nat, t: Node, post: seq<byte>)
    requires LeavesDecodable(t) && i <= |b| && b[i..] == Serialize(t) + post
    ensures SerializedAt(b, i, t)
    decreases t
  {
    match t
    case Leaf(c, _) =>
      SerializedAtLeaf(b, i, c, post);
    case Internal(k, l, r) =>
      var j := i + 1 + Size(l);
      SizeSerialize(l);
      SplitInternal(b, i, Serialize(l), j, Serialize(r), post);
      SerializedAtSlice(b, i + 1, l, Serialize(r) + post);
      SerializedAtSlice(b, j, r, post);
      SerializedAtNode(b, i, k, l, r, j);
  }


  lemma SerializedAtNode(b: seq<byte>, i: nat, k: int, l: Node, r: Node, j: nat)
    requires i < |b| && b[i] == 0 && j == i + 1 + Size(l)
    requires SerializedAt(b, i + 1, l) && SerializedAt(b, j, r)
    ensures SerializedAt(b, i, Internal(k, l, r))
  {
  }

  lemma SerializedAtLeaf(b: seq<byte>, i: nat, c: Rune, post: seq<byte>)
    requires IsScalar(c) && c != RuneError
    requires i <= |b| && b[i..] == [1] + EncodeRune(c) + post
    ensures i + 1 < |b| && b[i] == 1 && DecodeRune(b[i + 1..]) == (c, RuneLen(c))
  {
    SplitLeaf(b, i, EncodeRune(c), post);
    DecodeEncode(c, post);
  }

  lemma SplitLeaf(b: seq<byte>, i: nat, e: seq<byte>, post: seq<byte>)
    requires i <= |b| && b[i..] == [1] + e + post
    ensures i < |b| && b[i] == 1 && b[i + 1..] == e + post
  {
    assert b[i + 1..] == b[i..][1..];
  }

  lemma SplitInternal(b: seq<byte>, i: nat, x: seq<byte>, j: nat, y: seq<byte>, post: seq<byte>)
    requires i <= |b| && b[i..] == [0] + x + y + post && j == i + 1 + |x|
    ensures i < |b| && b[i] == 0 && b[i + 1..] == x + (y + post) && b[j..] == y + post
  {
    assert b[i..] == [0] + (x + (y + post));
    assert b[i + 1..] == b[i..][1..];
    assert b[i + 1 + |x|..] == b[i + 1..][|x|..];
  }

  /** rebuildEncSubTrees reads back exactly the tree whose bytes start at
      `i`, and stops right after them. */
  /** Parsing at `i` gives back `t` without its counts and stops right after it. */
  ghost predicate ParsesTo(b: seq<byte>, i: nat, t: Node) {
    Parse(b, i) == Ok((Strip(t), i + Size(t)))
  }

  lemma {:induction false} ParseSerialized(b: seq<byte>, i: nat, t: Node)
    requires SerializedAt(b, i, t)
    ensures ParsesTo(b, i, t)
    decreases t
  {
    if t.Leaf? {
      ParseSerializedLeaf(b, i, t);
    } else {
      var j := i + 1 + Size(t.left);
      SerializedAtParts(b, i, t, j);
      ParseSerialized(b, i + 1, t.left);
      ParseSerialized(b, j, t.right);
      ParseInternal(b, i, t, j);
    }
  }

  lemma ParseSerializedLeaf(b: seq<byte>, i: nat, t: Node)
    requires t.Leaf? && SerializedAt(b, i, t)
    ensures ParsesTo(b, i, t)
  {
  }

  lemma SerializedAtParts(b: seq<byte>, i: nat, t: Node, j: nat)
    requires t.Internal? && SerializedAt(b, i, t) && j == i + 1 + Size(t.left)
    ensures i < |b| && b[i] == 0 && SerializedAt(b, i + 1, t.left) && SerializedAt(b, j, t.right)
  {
  }

  lemma ParseInternal(b: seq<byte>, i: nat, t: Node, j: nat)
    requires t.Internal? && i < |b| && b[i] == 0 && j == i + 1 + Size(t.left)
    requires ParsesTo(b, i + 1, t.left) && ParsesTo(b, j, t.right)
    ensures ParsesTo(b, i, t)
  {
    assert Strip(t) == Internal(0, Strip(t.left), Strip(t.right));
    assert i + Size(t) == j + Size(t.right);
  }

  /** Dropping the counts does not change the codes. */
  lemma {:induction false} StripCodes(t: Node, code: string)
    ensures Codes(Strip(t), code) == Codes(t, code)
  {
    match t
    case Leaf(_, _) =>
    case Internal(_, l, r) =>
      StripCodes(l, code + "0");
      StripCodes(r, code + "1");
  }

  /** The tree Decompress rebuilds is the compressed tree without counts. */
  lemma TreeOfSerialize(t: Node)
    requires LeavesDecodable(t)
    ensures TreeOf(Serialize(t)) == Ok(Strip(t))
  {
    var s := Serialize(t);
    assert s[0..] == s + [];
    SerializedAtSlice(s, 0, t, []);
    ParseSerialized(s, 0, t);
    SizeSerialize(t);
  }

  // ---------------------------------------------------------------------
  // Decoding the payload

  /** No code of `table` is a prefix of another one. */
  predicate PrefixFreeTable(table: map<Rune, string>) {
    forall a, b :: a in table && b in table && a != b ==> !(table[a] <= table[b])
  }

  /** Reading the rest `w` of the code of `c`, having read `p`: no shorter
      prefix is a code, so `c` is emitted exactly when its code is complete. */
  lemma {:induction false} ReadCode(table: map<Rune, string>, c: Rune, p: string, w: string, rest: string)
    requires PrefixFreeTable(table) && c in table && p + w == table[c] && w != []
    ensures DecodeWith(table, p, w + rest) == EncodeRune(c) + DecodeWith(table, [], rest)
    decreases |w|
  {
    var bits := w + rest;
    assert bits[0] == w[0] && bits[1..] == w[1..] + rest;
    var cur := p + [w[0]];
    assert cur + w[1..] == table[c];
    if |w| == 1 {
      forall d | d in table && d != c
        ensures table[d] != cur
      {
      }
    } else {
      forall d | d in table
        ensures table[d] != cur
      {
        if d != c {
          assert cur <= table[c];
        }
      }
      ReadCode(table, c, cur, w[1..], rest);
    }
  }

  /** With a prefix-free table of non-empty codes, decoding the codes of a
      sequence of symbols gives back the UTF-8 of those symbols. */
  lemma {:induction false} DecodeCodes(table: map<Rune, string>, rs: seq<Rune>)
    requires PrefixFreeTable(table) && InTable(rs, table)
    requires forall c :: c in table ==> table[c] != []
    ensures DecodeWith(table, [], CodeString(rs, table)) == EncodeAll(rs)
  {
    if rs != [] {
      InTableCons(rs, table);
      assert [] + table[rs[0]] == table[rs[0]];
      ReadCode(table, rs[0], [], table[rs[0]], CodeString(rs[1..], table));
      DecodeCodes(table, rs[1..]);
    }
  }

  /** The header byte makes decode read exactly the bits encData wrote. */
  lemma ReadAllBits(n: nat)
    requires n >= 1
    ensures BitsToRead((n + 7) / 8, ValidBits(n) as int) == n
  {
    var q, rm := n / 8, n % 8;
    assert n == 8 * q + rm;
    if rm == 0 {
      assert (n + 7) / 8 == q;
    } else {
      assert (n + 7) / 8 == q + 1;
    }
  }

  lemma UnpackPrefix(bits: string)
    requires IsBitString(bits)
    ensures |bits| <= |Unpack(Pack(bits))| && Unpack(Pack(bits))[..|bits|] == bits
  {
    PackedBits(bits);
  }

  lemma {:induction false} CodeStringBits(rs: seq<Rune>, table: map<Rune, string>)
    requires InTable(rs, table) && forall c :: c in table ==> IsBitString(table[c])
    ensures IsBitString(CodeString(rs, table))
  {
    if rs != [] {
      InTableCons(rs, table);
      CodeStringBits(rs[1..], table);
    }
  }

  // ---------------------------------------------------------------------
  // The round trip

  /** Decompress finds the tree and the bits in a container and decodes
      exactly those bits with the codes of the tree, when the rightmost leaf
      is not '%'. */
  lemma DecompressContainer(root: Node, bits: string)
    requires LeavesDecodable(root) && RightmostLeaf(root) != 37
    requires IsBitString(bits) && bits != []
    ensures DecompressSpec(Container(root, bits)) == Ok(DecodeWith(Codes(root, ""), [], bits))
  {
    var out, enc := Container(root, bits), Pack(bits);
    ContainerBody(root, bits);
    LocateParts(root, bits);
    TreeOfSerialize(root);
    DecompressParts(out, Serialize(root), enc, Strip(root));
    StripCodes(root, "");
    ReadAllBits(|bits|);
    UnpackPrefix(bits);
  }

  lemma ContainerBody(root: Node, bits: string)
    ensures |Container(root, bits)| >= 2
    ensures Container(root, bits)[0] == ValidBits(|bits|)
    ensures Container(root, bits)[1..] == Body(Serialize(root), Pack(bits))
  {
    DropHeader(ValidBits(|bits|), Serialize(root), Pack(bits));
  }

  lemma DropHeader(v: byte, s: seq<byte>, p: seq<byte>)
    ensures ([v, 0x1F] + s + [37, 37] + p)[1..] == [0x1F] + s + [37, 37] + p
  {
    assert [v, 0x1F] + s + [37, 37] + p == [v] + ([0x1F] + s + [37, 37] + p);
  }

  /** Decompress once the header byte, the tree bytes, the encoded data
      and the rebuilt tree are known. */
  lemma DecompressParts(data: seq<byte>, tree: seq<byte>, enc: seq<byte>, root: Node)
    requires |data| >= 2 && 1 <= data[0] <= 8
    requires GetTreeBytes(data[1..]) == Ok(tree) && GetEncData(data[1..]) == Ok(enc)
    requires TreeOf(tree) == Ok(root)
    ensures DecompressSpec(data) == Ok(DecodeWith(Codes(root, ""), [], Unpack(enc)[..BitsToRead(|enc|, data[0] as int)]))
  {
  }

  /** The facts about a tree buildTree can build that the round trip needs. */
  lemma HuffmanTreeFacts(rs: seq<Rune>, root: Node)
    requires forall i :: 0 <= i < |rs| ==> IsScalar(rs[i]) && rs[i] != RuneError
    requires |Histogram(rs)| >= 2 && IsHuffmanTree(Histogram(rs), root)
    ensures LeavesDecodable(root) && InTable(rs, Codes(root, ""))
    ensures PrefixFreeTable(Codes(root, ""))
    ensures forall c :: c in Codes(root, "") ==> IsBitString(Codes(root, "")[c]) && Codes(root, "")[c] != []
  {
    var h := Histogram(rs);
    HuffmanTreeShape(h, root);
    HistogramCounts(rs);
    forall c | c in LeafChars(root)
      ensures IsScalar(c) && c != RuneError
    {
      assert c in h;
      var i :| 0 <= i < |rs| && rs[i] == c;
    }
    LeavesDecodableOf(root);
    TableCoversInput(rs, root);
    NonEmptyCodes(root);
    PrefixFree(root);
  }

  /** Decompress gives back the input from the container of any tree
      buildTree can build for it, when the rightmost leaf is not '%'. */
  lemma RoundTrip(input: seq<byte>, root: Node)
    requires Runes(input).Ok?
    requires |Histogram(Runes(input).value)| >= 2
    requires IsHuffmanTree(Histogram(Runes(input).value), root)
    requires RightmostLeaf(root) != 37
    ensures InTable(Runes(input).value, Codes(root, ""))
    ensures DecompressSpec(Container(root, CodeString(Runes(input).value, Codes(root, "")))) == Ok(input)
  {
    var rs := Runes(input).value;
    var table := Codes(root, "");
    RunesScalars(input);
    HuffmanTreeFacts(rs, root);
    CodeStringBits(rs, table);
    var bits := CodeString(rs, table);
    CodeStringLength(rs, table);
    DecompressContainer(root, bits);
    DecodeCodes(table, rs);
    RunesEncodeAll(input);
  }

  /** An ASCII code point among the runes is one of the bytes of their
      UTF-8 encoding. */
  lemma {:induction false} AsciiInEncoding(rs: seq<Rune>, c: Rune)
    requires 0 <= c <= 0x7F && c in rs
    ensures c as byte in EncodeAll(rs)
  {
    var e := EncodeAll(rs);
    assert e == EncodeRune(rs[0]) + EncodeAll(rs[1..]);
    if rs[0] == c {
      assert e[0] == c as byte;
    } else {
      assert rs == [rs[0]] + rs[1..];
      AsciiInEncoding(rs[1..], c);
    }
  }

  /** Any container Compress may return for an input without a '%' byte
      decompresses to that input. */
  lemma CompressDecompress(input: seq<byte>, out: seq<byte>)
    requires CompressSpec(input, Ok(out)) && 37 !in input
    ensures DecompressSpec(out) == Ok(input)
  {
    var rs := Runes(input).value;
    var h := Histogram(rs);
    var root :| IsHuffmanTree(h, root) && InTable(rs, Codes(root, ""))
      && out == Container(root, CodeString(rs, Codes(root, "")));
    if RightmostLeaf(root) == 37 {
      HuffmanTreeShape(h, root);
      HistogramCounts(rs);
      RunesEncodeAll(input);
      AsciiInEncoding(rs, 37);
      assert false;
    }
    RoundTrip(input, root);
  }
}
