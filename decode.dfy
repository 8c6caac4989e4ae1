/** The decoder of internal/huff/decode.go: it locates the tree header and
    the payload in the container, rebuilds the tree from its pre-order
    bytes, rebuilds the prefix table from the tree, and decodes the payload
    bit by bit. */
module Decode {
  import opened Types
  import opened Utf8
  import opened Bits
  import opened Huff

  // ---------------------------------------------------------------------
  // Locating the tree and the payload

  /** Go's bytes.IndexByte: the first position of `x` in `b`, or -1. */
  function IndexByte(b: seq<byte>, x: byte): (r: int)
    ensures -1 <= r < |b|
    ensures r >= 0 ==> b[r] == x && x !in b[..r]
    ensures r == -1 <==> x !in b
  {
    if b == [] then -1
    else if b[0] == x then 0
    else
      var k := IndexByte(b[1..], x);
      assert b == [b[0]] + b[1..];
      if k == -1 then -1
      else
        assert b[..k + 1] == [b[0]] + b[1..][..k];
        k + 1
  }

  /** The delimiter "%%" (bytes 37, 37) starts at position `j` of `b`. */
  predicate DelimAt(b: seq<byte>, j: int) {
    0 <= j && j + 1 < |b| && b[j] == 37 && b[j + 1] == 37
  }

  /** Go's bytes.Index(b, []byte{37, 37}): where the first delimiter
      starts, or -1. */
  function IndexDelim(b: seq<byte>): (r: int)
    ensures -1 <= r < |b|
    ensures r >= 0 ==> DelimAt(b, r)
    ensures forall j :: 0 <= j < |b| && (r == -1 || j < r) ==> !DelimAt(b, j)
  {
    if |b| < 2 then -1
    else if b[0] == 37 && b[1] == 37 then 0
    else
      var k := IndexDelim(b[1..]);
      DelimSuffix(b, 1);
      if k == -1 then -1 else k + 1
  }

  lemma DelimSuffix(b: seq<byte>, s: nat)
    requires s <= |b|
    ensures forall j :: s <= j < |b| ==> (DelimAt(b, j) <==> DelimAt(b[s..], j - s))
  {
  }

  /** getTreeBytes: the bytes after the first 0x1F up to the first "%%"
      after it. */
  function GetTreeBytes(b: seq<byte>): (r: Result<seq<byte>>)
    ensures 31 !in b <==> r == Err(TreeStartNotFound)
    ensures r == Err(TreeEndNotFound) <==>
      31 in b && forall j :: IndexByte(b, 31) < j < |b| ==> !DelimAt(b, j)
    ensures r.Err? ==> r.error == TreeStartNotFound || r.error == TreeEndNotFound
    ensures r.Ok? ==>
      var s := IndexByte(b, 31) + 1;
      && s + |r.value| + 2 <= |b|
      && r.value == b[s..s + |r.value|]
      && DelimAt(b, s + |r.value|)
      && forall j :: s <= j < s + |r.value| ==> !DelimAt(b, j)
  {
    var start := IndexByte(b, 31);
    if start == -1 then Err(TreeStartNotFound)
    else
      var s := start + 1;
      var e := IndexDelim(b[s..]);
      DelimSuffix(b, s);
      if e == -1 then Err(TreeEndNotFound)
      else
        var end := e + s;
        if s >= |b| || end > |b| || s > end then Err(SliceBoundsOutOfRange)
        else
          assert DelimAt(b, end);
          Ok(b[s..end])
  }

  /** getEncData: everything after the first "%%" of the whole slice, which
      must not be empty. */
  function GetEncData(b: seq<byte>): (r: Result<seq<byte>>)
    ensures r == Err(DelimiterNotFound) <==> forall j :: 0 <= j < |b| ==> !DelimAt(b, j)
    ensures r == Err(EncDataNotFound) <==> IndexDelim(b) >= 0 && IndexDelim(b) + 2 == |b|
    ensures r.Err? ==> r.error == DelimiterNotFound || r.error == EncDataNotFound
    ensures r.Ok? ==>
      var s := |b| - |r.value|;
      && r.value != []
      && s >= 2 && DelimAt(b, s - 2) && r.value == b[s..]
      && forall j :: 0 <= j < s - 2 ==> !DelimAt(b, j)
  {
    var start := IndexDelim(b);
    if start == -1 then Err(DelimiterNotFound)
    else
      var s := start + 2;
      if s >= |b| then Err(EncDataNotFound)
      else Ok(b[s..])
  }

  // ---------------------------------------------------------------------
  // Locating the parts of a container

  /** The first delimiter of `b` starts at `k`. */
  lemma FirstDelim(b: seq<byte>, k: nat)
    requires DelimAt(b, k) && forall j :: 0 <= j < k ==> !DelimAt(b, j)
    ensures IndexDelim(b) == k
  {
  }

  /** getTreeBytes on a slice that starts with 0x1F and whose first "%%"
      after it starts at `e`. */
  lemma TreeBytesUpTo(b: seq<byte>, e: nat)
    requires |b| > 0 && b[0] == 31 && 1 <= e
    requires DelimAt(b, e) && forall j :: 1 <= j < e ==> !DelimAt(b, j)
    ensures GetTreeBytes(b) == Ok(b[1..e])
  {
    DelimSuffix(b, 1);
    forall j | 0 <= j < e - 1
      ensures !DelimAt(b[1..], j)
    {
      assert !DelimAt(b, j + 1);
    }
    assert DelimAt(b[1..], e - 1) by {
      assert DelimAt(b, e);
    }
    FirstDelim(b[1..], e - 1);
  }

  /** getEncData on a slice whose first "%%" starts at `k`, with bytes after it. */
  lemma EncDataFrom(b: seq<byte>, k: nat)
    requires DelimAt(b, k) && forall j :: 0 <= j < k ==> !DelimAt(b, j)
    requires k + 2 < |b|
    ensures GetEncData(b) == Ok(b[k + 2..])
  {
    FirstDelim(b, k);
  }

  // ---------------------------------------------------------------------
  // Rebuilding the tree

  /** What rebuildEncSubTrees reads at position `i` of the tree bytes: the
      subtree there (counts are not stored, so they are 0) and the position
      after it, or the first error met. */
  function Parse(b: seq<byte>, i: nat): (r: Result<(Node, nat)>)
    ensures r.Ok? ==> i < r.value.1 <= |b|
    decreases |b| - i
  {
    if i >= |b| then Err(TreeIndexOutOfRange)
    else if b[i] == 0 then
      match Parse(b, i + 1)
      case Err(e) => Err(e)
      case Ok((left, j)) =>
        match Parse(b, j)
        case Err(e) => Err(e)
        case Ok((right, k)) => Ok((Internal(0, left, right), k))
    else if b[i] == 1 then ParseLeaf(b, i)
    else Err(UnexpectedTreeValue)
  }

  /** A leaf whose indicator byte 1 sits at `i`: the UTF-8 character that
      follows it, and the index just past that character. */
  function ParseLeaf(b: seq<byte>, i: nat): (r: Result<(Node, nat)>)
    requires i < |b|
    ensures r.Ok? ==> i + 1 < r.value.1 <= |b|
  {
    if i + 1 >= |b| then Err(LeafIndexOutOfRange)
    else
      var d := DecodeRune(b[i + 1..]);
      if d.0 == RuneError then Err(InvalidUtf8InTree)
      else Ok((Leaf(d.0, 0), i + 1 + d.1))
  }

  /** The tree rebuildEncTree returns for `b`; bytes after the tree are
      ignored. */
  function TreeOf(b: seq<byte>): Result<Node> {
    if |b| == 0 then Err(TreeBytesEmpty)
    else
      var p :- Parse(b, 0);
      Ok(p.0)
  }

  /** The index rebuildEncSubTrees advances through the tree bytes (Go: an
      `*int`). */
  class Cursor {
    var idx: nat

    constructor ()
      ensures idx == 0
    {
      idx := 0;
    }
  }

  /** rebuildEncSubTrees: reads one subtree at `cursor.idx` and leaves the
      cursor just after it. */
  method RebuildEncSubTrees(treeBytes: seq<byte>, cursor: Cursor) returns (r: Result<Node>)
    modifies cursor
    ensures Parse(treeBytes, old(cursor.idx)).Err? ==> r == Err(Parse(treeBytes, old(cursor.idx)).error)
    ensures Parse(treeBytes, old(cursor.idx)).Ok? ==>
      r == Ok(Parse(treeBytes, old(cursor.idx)).value.0) && cursor.idx == Parse(treeBytes, old(cursor.idx)).value.1
    decreases |treeBytes| - cursor.idx
  {
    if cursor.idx >= |treeBytes| {
      return Err(TreeIndexOutOfRange);
    }
    if treeBytes[cursor.idx] == 0 {
      cursor.idx := cursor.idx + 1;
      var left :- RebuildEncSubTrees(treeBytes, cursor);
      var right :- RebuildEncSubTrees(treeBytes, cursor);
      return Ok(Internal(0, left, right));
    } else if treeBytes[cursor.idx] == 1 {
      cursor.idx := cursor.idx + 1;
      if cursor.idx >= |treeBytes| {
        return Err(LeafIndexOutOfRange);
      }
      var d := DecodeRune(treeBytes[cursor.idx..]);
      var ch, sz := d.0, d.1;
      if ch == RuneError {
        return Err(InvalidUtf8InTree);
      }
      cursor.idx := cursor.idx + sz;
      return Ok(Leaf(ch, 0));
    }
    return Err(UnexpectedTreeValue);
  }

  /** rebuildEncTree: "tree bytes are empty" or the subtree at position 0. */
  method RebuildEncTree(treeBytes: seq<byte>) returns (r: Result<Node>)
    ensures r == TreeOf(treeBytes)
  {
    if |treeBytes| == 0 {
      return Err(TreeBytesEmpty);
    }
    var cursor := new Cursor();
    r := RebuildEncSubTrees(treeBytes, cursor);
  }

  // ---------------------------------------------------------------------
  // The lookup list

  /** A byteLookup: a code and the symbol it stands for. */
  datatype Entry = Entry(code: string, ch: Rune)

  /** `lookup` holds exactly the entries of `table`, one per key, in some
      order. */
  ghost predicate Enumerates(lookup: seq<Entry>, table: map<Rune, string>) {
    && |lookup| == |table|
    && forall e :: e in lookup <==> e.ch in table && e.code == table[e.ch]
  }

  /** getEncLookup: one entry per key of the prefix table, in Go's map
      iteration order, which is left open here. */
  method GetEncLookup(pt: map<Rune, string>) returns (lookup: seq<Entry>)
    ensures Enumerates(lookup, pt)
  {
    lookup := [];
    var remaining := pt.Keys;
    while remaining != {}
      invariant remaining <= pt.Keys
      invariant |lookup| + |remaining| == |pt|
      invariant forall e :: e in lookup <==> e.ch in pt && e.ch !in remaining && e.code == pt[e.ch]
      decreases |remaining|
    {
      Inhabited(remaining);
      var ch :| ch in remaining;
      lookup := lookup + [Entry(pt[ch], ch)];
      remaining := remaining - {ch};
    }
  }

  /** The symbol of the first entry whose code is `bits`. */
  function Match(lookup: seq<Entry>, bits: string): (r: Option<Rune>)
    ensures r.Some? <==> exists e :: e in lookup && e.code == bits
    ensures r.Some? ==> Entry(bits, r.value) in lookup
  {
    if lookup == [] then None
    else if lookup[0].code == bits then Some(lookup[0].ch)
    else Match(lookup[1..], bits)
  }

  /** decode's search of the lookup list for the bits read so far. */
  method FindEntry(lookup: seq<Entry>, bits: string) returns (found: bool, ch: Rune)
    ensures found <==> Match(lookup, bits).Some?
    ensures found ==> ch == Match(lookup, bits).value
  {
    var j := 0;
    assert lookup[j..] == lookup;
    while j < |lookup|
      invariant 0 <= j <= |lookup|
      invariant Match(lookup, bits) == Match(lookup[j..], bits)
    {
      if lookup[j].code == bits {
        return true, lookup[j].ch;
      }
      assert lookup[j..][1..] == lookup[j + 1..];
      j := j + 1;
    }
    return false, 0;
  }

  // ---------------------------------------------------------------------
  // Decoding the payload

  /** What decode appends for the remaining `bits`, `pending` being the bits
      read since the last symbol: each bit is added to `pending`, and as
      soon as `pending` is the code of an entry, that entry's symbol is
      written as UTF-8 and `pending` starts again empty. Bits still pending
      at the end produce nothing. */
  function Scan(lookup: seq<Entry>, pending: string, bits: string): seq<byte>
    decreases |bits|
  {
    if bits == [] then []
    else
      var cur := pending + [bits[0]];
      match Match(lookup, cur)
      case Some(c) => EncodeRune(c) + Scan(lookup, [], bits[1..])
      case None => Scan(lookup, cur, bits[1..])
  }

  /** `out` is what decode has written after reading `all[..k]`, with
      `pending` read since the last symbol. */
  ghost predicate Decoded(lookup: seq<Entry>, all: string, out: seq<byte>, pending: string, k: nat)
    requires k <= |all|
  {
    Scan(lookup, [], all) == out + Scan(lookup, pending, all[k..])
  }

  /** One bit of decode: the bit at `k` either completes a code, whose
      symbol is then written, or joins the pending bits. */
  lemma ScanBit(lookup: seq<Entry>, all: string, out: seq<byte>, pending: string, k: nat, b: char)
    requires k < |all| && all[k] == b
    requires Decoded(lookup, all, out, pending, k)
    ensures Match(lookup, pending + [b]).Some? ==>
      Decoded(lookup, all, out + EncodeRune(Match(lookup, pending + [b]).value), [], k + 1)
    ensures Match(lookup, pending + [b]).None? ==>
      Decoded(lookup, all, out, pending + [b], k + 1)
  {
    var rest := all[k..];
    assert rest[0] == b && rest[1..] == all[k + 1..];
  }

  /** The number of payload bits decode reads: (len(enc) - 1) * 8 +
      validBits, but no fewer than none and no more than the bytes hold. */
  function BitsToRead(n: nat, validBits: int): (k: nat)
    ensures k <= 8 * n
    ensures 0 <= (n - 1) * 8 + validBits <= 8 * n ==> k == (n - 1) * 8 + validBits
  {
    var t := (n - 1) * 8 + validBits;
    if t < 0 then 0 else if t > 8 * n then 8 * n else t
  }

  function Min(a: int, b: int): int {
    if a < b then a else b
  }

  /** decode: walks the payload MSB first, stopping after totalBits bits,
      and emits a symbol whenever the bits read since the last one form the
      code of an entry of the lookup list. The source's error result is
      always nil and is not modelled. */
  method Decode(enc: seq<byte>, lookup: seq<Entry>, validBits: int) returns (decompressed: seq<byte>)
    ensures decompressed == Scan(lookup, [], Unpack(enc)[..BitsToRead(|enc|, validBits)])
  {
    decompressed := [];
    var currentBits: string := [];
    var totalBits := (|enc| - 1) * 8 + validBits;
    ghost var n := BitsToRead(|enc|, validBits);
    ghost var all := Unpack(enc)[..n];
    var bitIndex := 0;
    var i := 0;
    while i < |enc|
      invariant 0 <= i <= |enc|
      invariant bitIndex == Min(8 * i, n)
      invariant bitIndex <= |all| && Decoded(lookup, all, decompressed, currentBits, bitIndex)
    {
      decompressed, currentBits, bitIndex :=
        DecodeByte(enc, i, lookup, totalBits, n, all, decompressed, currentBits, bitIndex);
      i := i + 1;
    }
    assert all[bitIndex..] == [];
    assert Decoded(lookup, all, decompressed, currentBits, bitIndex);
  }

  /** The inner loop of decode: the bits of byte `i`, most significant
      first, as long as fewer than `totalBits` bits have been read. */
  method DecodeByte(enc: seq<byte>, i: nat, lookup: seq<Entry>, totalBits: int, ghost n: nat, ghost all: string,
                    decompressed0: seq<byte>, currentBits0: string, bitIndex0: nat)
    returns (decompressed: seq<byte>, currentBits: string, bitIndex: nat)
    requires i < |enc| && n == BitsToRead(|enc|, totalBits - (|enc| - 1) * 8) && all == Unpack(enc)[..n]
    requires bitIndex0 == Min(8 * i, n) && Decoded(lookup, all, decompressed0, currentBits0, bitIndex0)
    ensures bitIndex == Min(8 * (i + 1), n) && bitIndex <= |all|
    ensures Decoded(lookup, all, decompressed, currentBits, bitIndex)
  {
    decompressed, currentBits, bitIndex := decompressed0, currentBits0, bitIndex0;
    var bit := 7;
    while bit >= 0
      invariant -1 <= bit <= 7
      invariant bitIndex == Min(8 * i + 7 - bit, n)
      invariant bitIndex <= |all| && Decoded(lookup, all, decompressed, currentBits, bitIndex)
    {
      if bitIndex >= totalBits {
        break;
      }
      var currentBit := BitChar(enc[i], bit);
      UnpackBit(enc, i, bit);
      ScanBit(lookup, all, decompressed, currentBits, bitIndex, currentBit);
      currentBits := currentBits + [currentBit];
      var found, ch := FindEntry(lookup, currentBits);
      if found {
        decompressed := decompressed + EncodeRune(ch);
        currentBits := [];
      }
      bitIndex := bitIndex + 1;
      bit := bit - 1;
    }
  }

  // ---------------------------------------------------------------------
  // Independence from the order of the lookup list

  /** No two symbols of `table` share a code. */
  predicate Injective(table: map<Rune, string>) {
    forall a, b :: a in table && b in table && a != b ==> table[a] != table[b]
  }

  /** The symbol whose code in `table` is `bits`, if there is one. */
  ghost function Lookup(table: map<Rune, string>, bits: string): (r: Option<Rune>)
    ensures r.Some? <==> exists c :: c in table && table[c] == bits
    ensures r.Some? ==> r.value in table && table[r.value] == bits
  {
    if exists c :: c in table && table[c] == bits then
      var c :| c in table && table[c] == bits;
      Some(c)
    else None
  }

  /** Scan, reading the codes from the table itself. */
  ghost function DecodeWith(table: map<Rune, string>, pending: string, bits: string): seq<byte>
    decreases |bits|
  {
    if bits == [] then []
    else
      var cur := pending + [bits[0]];
      match Lookup(table, cur)
      case Some(c) => EncodeRune(c) + DecodeWith(table, [], bits[1..])
      case None => DecodeWith(table, cur, bits[1..])
  }

  /** With distinct codes, the first matching entry is the one symbol
      carrying that code, wherever it sits in the list. */
  lemma MatchLookup(lookup: seq<Entry>, table: map<Rune, string>, bits: string)
    requires Enumerates(lookup, table) && Injective(table)
    ensures Match(lookup, bits) == Lookup(table, bits)
  {
    forall c | c in table && table[c] == bits
      ensures Entry(bits, c) in lookup
    {
    }
    var m := Match(lookup, bits);
    if m.Some? {
      assert Entry(bits, m.value) in lookup;
    }
  }

  lemma {:induction false} ScanTable(lookup: seq<Entry>, table: map<Rune, string>, pending: string, bits: string)
    requires Enumerates(lookup, table) && Injective(table)
    ensures Scan(lookup, pending, bits) == DecodeWith(table, pending, bits)
    decreases |bits|
  {
    if bits != [] {
      var cur := pending + [bits[0]];
      MatchLookup(lookup, table, cur);
      ScanTable(lookup, table, [], bits[1..]);
      ScanTable(lookup, table, cur, bits[1..]);
    }
  }

  /** The decoded output does not depend on Go's map iteration order:
      two lookup lists of the same table decode alike. */
  lemma ScanOrder(l1: seq<Entry>, l2: seq<Entry>, table: map<Rune, string>, pending: string, bits: string)
    requires Enumerates(l1, table) && Enumerates(l2, table) && Injective(table)
    ensures Scan(l1, pending, bits) == Scan(l2, pending, bits)
  {
    ScanTable(l1, table, pending, bits);
    ScanTable(l2, table, pending, bits);
  }

  /** The leaves of a tree have distinct paths, so its prefix table has
      distinct codes. */
  lemma CodesInjective(t: Node)
    ensures Injective(Codes(t, ""))
  {
    PrefixFree(t);
  }

  // ---------------------------------------------------------------------
  // Decompress

  /** What Decompress returns: the length and header errors first, then
      the tree header, the payload and the tree, and otherwise the payload
      decoded with the codes of the rebuilt tree. */
  ghost function DecompressSpec(data: seq<byte>): Result<seq<byte>> {
    if |data| < 2 then Err(DataTooShort)
    else
      var bitLen := data[0] as int;
      if bitLen < 1 || bitLen > 8 then Err(InvalidBitLength)
      else
        var b := data[1..];
        var treeBytes :- GetTreeBytes(b);
        var enc :- GetEncData(b);
        var root :- TreeOf(treeBytes);
        Ok(DecodeWith(Codes(root, ""), [], Unpack(enc)[..BitsToRead(|enc|, bitLen)]))
  }

  /** Decompress */
  method Decompress(data: seq<byte>) returns (r: Result<seq<byte>>)
    ensures r == DecompressSpec(data)
  {
    if |data| < 2 {
      return Err(DataTooShort);
    }
    var bitLen := data[0] as int;
    if bitLen < 1 || bitLen > 8 {
      return Err(InvalidBitLength);
    }
    var b := data[1..];
    var treeBytes :- GetTreeBytes(b);
    var encData :- GetEncData(b);
    var treeRoot :- RebuildEncTree(treeBytes);
    var prefix := new PrefixTable();
    EncodeTree(treeRoot, "", prefix);
    assert prefix.codes == Codes(treeRoot, "");
    var lookup := GetEncLookup(prefix.codes);
    var decompressed := Decode(encData, lookup, bitLen);
    CodesInjective(treeRoot);
    ScanTable(lookup, prefix.codes, [], Unpack(encData)[..BitsToRead(|encData|, bitLen)]);
    return Ok(decompressed);
  }
}
