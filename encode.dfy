/** The encoder (internal/huff/encode.go): code-point frequencies, the
    pre-order serialisation of the tree, MSB-first packing of the payload
    bits, and the container Compress assembles from them. */
module Encode {
  import opened Types
  import opened Utf8
  import opened Bits
  import opened Huff

  // ---------------------------------------------------------------------
  // Reading the input as code points

  /** The code points of `input`, decoded front to back the way
      getRunesFrequency and encData walk it. The first RuneError fails,
      whether it comes from an ill-formed sequence or from a well-formed
      U+FFFD. */
  function Runes(input: seq<byte>): (r: Result<seq<Rune>>)
    ensures r.Err? ==> r.error == InvalidUtf8
    decreases |input|
  {
    if input == [] then Ok([])
    else
      var d := DecodeRune(input);
      if d.0 == RuneError then Err(InvalidUtf8)
      else Prepend([d.0], Runes(input[d.1..]))
  }

  /** Every code point decoded is a scalar value other than U+FFFD. */
  lemma {:induction false} RunesScalars(input: seq<byte>)
    requires Runes(input).Ok?
    ensures forall i :: 0 <= i < |Runes(input).value| ==>
      IsScalar(Runes(input).value[i]) && Runes(input).value[i] != RuneError
    decreases |input|
  {
    if input != [] {
      var d := DecodeRune(input);
      RunesStep(input);
      DecodeCanonical(input);
      RunesScalars(input[d.1..]);
    }
  }

  /** The UTF-8 encoding of a sequence of code points. */
  function EncodeAll(rs: seq<Rune>): seq<byte> {
    if rs == [] then [] else EncodeRune(rs[0]) + EncodeAll(rs[1..])
  }

  lemma {:induction false} EncodeAllAppend(a: seq<Rune>, b: seq<Rune>)
    ensures EncodeAll(a + b) == EncodeAll(a) + EncodeAll(b)
  {
    if a == [] {
      assert a + b == b;
    } else {
      assert (a + b)[1..] == a[1..] + b;
      EncodeAllAppend(a[1..], b);
    }
  }

  /** Whatever input decodes successfully is the encoding of its code points. */
  lemma {:induction false} RunesEncodeAll(input: seq<byte>)
    requires Runes(input).Ok?
    ensures EncodeAll(Runes(input).value) == input
    decreases |input|
  {
    if input != [] {
      var d := DecodeRune(input);
      RunesStep(input);
      DecodeCanonical(input);
      RunesEncodeAll(input[d.1..]);
      JoinRunes(input, d.0, d.1, Runes(input[d.1..]).value);
    }
  }

  lemma JoinRunes(input: seq<byte>, c: Rune, n: nat, tail: seq<Rune>)
    requires n <= |input| && input[..n] == EncodeRune(c) && EncodeAll(tail) == input[n..]
    ensures EncodeAll([c] + tail) == input
  {
    var rs := [c] + tail;
    assert rs[0] == c && rs[1..] == tail;
    assert input == input[..n] + input[n..];
  }

  /** Encoding scalar values other than U+FFFD and decoding the result
      gives the values back. */
  lemma {:induction false} RunesOfEncodeAll(rs: seq<Rune>)
    requires forall i :: 0 <= i < |rs| ==> IsScalar(rs[i]) && rs[i] != RuneError
    ensures Runes(EncodeAll(rs)) == Ok(rs)
  {
    if rs != [] {
      var e, rest := EncodeRune(rs[0]), EncodeAll(rs[1..]);
      DecodeEncode(rs[0], rest);
      var s := e + rest;
      assert s[|e|..] == rest;
      RunesOfEncodeAll(rs[1..]);
      assert [rs[0]] + rs[1..] == rs;
    }
  }

  /** One step of the walk over the input. */
  lemma RunesStep(s: seq<byte>)
    requires s != [] && DecodeRune(s).0 != RuneError
    ensures Runes(s) == Prepend([DecodeRune(s).0], Runes(s[DecodeRune(s).1..]))
  {
  }

  // ---------------------------------------------------------------------
  // getRunesFrequency

  /** `freqMap[char]++` on a map whose missing entries read as 0. */
  function Bump(h: map<Rune, int>, c: Rune): map<Rune, int> {
    h[c := (if c in h then h[c] else 0) + 1]
  }

  /** The frequency map of a sequence of code points, counted in order. */
  function Histogram(rs: seq<Rune>): map<Rune, int> {
    if rs == [] then map[] else Bump(Histogram(rs[..|rs| - 1]), rs[|rs| - 1])
  }

  /** The keys are exactly the distinct code points, and each count is the
      number of occurrences, hence positive. */
  lemma {:induction false} HistogramCounts(rs: seq<Rune>)
    ensures forall c :: c in Histogram(rs) <==> c in rs
    ensures forall c :: c in Histogram(rs) ==> Histogram(rs)[c] == multiset(rs)[c] > 0
  {
    if rs != [] {
      var front, c := rs[..|rs| - 1], rs[|rs| - 1];
      HistogramCounts(front);
      assert rs == front + [c];
      assert multiset(rs) == multiset(front) + multiset{c};
      forall x ensures x in rs <==> x in front || x == c {
        assert x in rs <==> x in multiset(rs);
      }
    }
  }

  /** The counts add up to the number of code points. */
  lemma {:induction false} HistogramSum(rs: seq<Rune>)
    ensures MapSum(Histogram(rs)) == |rs|
  {
    if rs != [] {
      var front, c := rs[..|rs| - 1], rs[|rs| - 1];
      var h := Histogram(front);
      HistogramSum(front);
      var h' := Bump(h, c);
      MapSumRemove(h', c);
      if c in h {
        MapSumRemove(h, c);
        assert h' - {c} == h - {c};
      } else {
        assert h' - {c} == h;
      }
    }
  }

  /** getRunesFrequency: the frequency of every code point of the input, or
      "invalid UTF-8 encoding". */
  method GetRunesFrequency(input: seq<byte>) returns (r: Result<map<Rune, int>>)
    ensures Runes(input).Err? ==> r == Err(InvalidUtf8)
    ensures Runes(input).Ok? ==> r == Ok(Histogram(Runes(input).value))
  {
    var freqMap: map<Rune, int> := map[];
    ghost var done: seq<Rune> := [];
    var i := 0;
    assert input[i..] == input;
    PrependNothing(Runes(input));
    while i < |input|
      invariant 0 <= i <= |input|
      invariant freqMap == Histogram(done)
      invariant RunesFrom(input, i, done)
      decreases |input| - i
    {
      var d := DecodeRune(input[i..]);
      var cp, sz := d.0, d.1;
      if cp == RuneError {
        RunesFail(input, i, done);
        return Err(InvalidUtf8);
      }
      freqMap := Bump(freqMap, cp);
      RunesAdvance(input, i, done, cp, sz);
      HistogramSnoc(done, cp);
      done := done + [cp];
      i := i + sz;
    }
    assert done + [] == done;
    return Ok(freqMap);
  }

  /** getRunesFrequency's loop state: `done` are the code points decoded
      from the first `i` bytes, and the rest of the input decodes after them. */
  ghost predicate RunesFrom(input: seq<byte>, i: nat, done: seq<Rune>)
    requires i <= |input|
  {
    Runes(input) == Prepend(done, Runes(input[i..]))
  }

  /** A RuneError met part-way through the input fails the whole decode. */
  lemma RunesFail(input: seq<byte>, i: nat, done: seq<Rune>)
    requires i < |input| && DecodeRune(input[i..]).0 == RuneError
    requires RunesFrom(input, i, done)
    ensures Runes(input) == Err(InvalidUtf8)
  {
  }

  /** One pass of getRunesFrequency's loop keeps the decoded prefix. */
  lemma RunesAdvance(input: seq<byte>, i: nat, done: seq<Rune>, cp: Rune, sz: nat)
    requires i < |input| && DecodeRune(input[i..]) == (cp, sz) && cp != RuneError
    requires RunesFrom(input, i, done)
    ensures i + sz <= |input| && RunesFrom(input, i + sz, done + [cp])
  {
    RunesStep(input[i..]);
    assert input[i..][sz..] == input[i + sz..];
    PrependPrepend(done, [cp], Runes(input[i + sz..]));
  }

  lemma HistogramSnoc(rs: seq<Rune>, c: Rune)
    ensures Histogram(rs + [c]) == Bump(Histogram(rs), c)
  {
    assert (rs + [c])[..|rs|] == rs;
  }

  // ---------------------------------------------------------------------
  // serializeTree / serializeNode

  /** The pre-order byte form of a tree: 0 for an internal node followed by
      its Left and Right subtrees, 1 for a leaf followed by the UTF-8 bytes
      of its symbol. */
  function Serialize(t: Node): seq<byte> {
    match t
    case Leaf(c, _) => [1] + EncodeRune(c)
    case Internal(_, l, r) => [0] + Serialize(l) + Serialize(r)
  }

  /** The symbols of the leaves, left to right. */
  function Leaves(t: Node): seq<Rune> {
    match t
    case Leaf(c, _) => [c]
    case Internal(_, l, r) => Leaves(l) + Leaves(r)
  }

  /** One marker byte per node plus the UTF-8 bytes of every leaf symbol. */
  lemma {:induction false} SerializeLength(t: Node)
    ensures |Serialize(t)| == |PreOrder(t)| + |EncodeAll(Leaves(t))|
    ensures Serialize(t)[0] == if t.Leaf? then 1 else 0
  {
    match t
    case Leaf(c, _) =>
      assert EncodeAll([c]) == EncodeRune(c) + EncodeAll([]);
    case Internal(_, l, r) =>
      SerializeLength(l);
      SerializeLength(r);
      EncodeAllAppend(Leaves(l), Leaves(r));
  }

  /** The `bytes.Buffer` the serialiser and Compress write into. Its
      writes never fail; WriteRune writes U+FFFD for an integer that is not
      a scalar value. */
  class ByteBuffer {
    var bytes: seq<byte>

    constructor ()
      ensures bytes == []
    {
      bytes := [];
    }

    method WriteByte(b: byte)
      modifies this
      ensures bytes == old(bytes) + [b]
    {
      bytes := bytes + [b];
    }

    method Write(bs: seq<byte>)
      modifies this
      ensures bytes == old(bytes) + bs
    {
      bytes := bytes + bs;
    }

    method WriteRune(c: Rune)
      modifies this
      ensures bytes == old(bytes) + EncodeRune(c)
    {
      bytes := bytes + EncodeRune(c);
    }
  }

  /** serializeNode: appends the pre-order form of `node` to `buff`. */
  method SerializeNode(node: Node, buff: ByteBuffer)
    modifies buff
    ensures buff.bytes == old(buff.bytes) + Serialize(node)
    decreases node
  {
    match node
    case Leaf(c, _) =>
      buff.WriteByte(1);
      buff.WriteRune(c);
      Assoc4(old(buff.bytes), [1], EncodeRune(c), []);
    case Internal(_, l, r) =>
      buff.WriteByte(0);
      SerializeNode(l, buff);
      SerializeNode(r, buff);
      Assoc4(old(buff.bytes), [0], Serialize(l), Serialize(r));
  }

  /** serializeTree: "node is nil" for a missing tree, else its bytes. */
  method SerializeTree(node: Option<Node>) returns (r: Result<seq<byte>>)
    ensures node.None? ==> r == Err(NodeIsNil)
    ensures node.Some? ==> r == Ok(Serialize(node.value))
  {
    if node.None? {
      return Err(NodeIsNil);
    }
    var buff := new ByteBuffer();
    SerializeNode(node.value, buff);
    assert buff.bytes == [] + Serialize(node.value) == Serialize(node.value);
    return Ok(buff.bytes);
  }

  // ---------------------------------------------------------------------
  // encData

  /** The bits encData emits for `data`: the codes of its code points one
      after another; the first code point that does not decode or has no
      code stops it with that error. */
  function Bitstream(data: seq<byte>, table: map<Rune, string>): Result<string>
    decreases |data|
  {
    if data == [] then Ok([])
    else
      var d := DecodeRune(data);
      if d.0 == RuneError then Err(InvalidUtf8)
      else if d.0 !in table then Err(CharNotInTable)
      else Prepend(table[d.0], Bitstream(data[d.1..], table))
  }

  predicate InTable<V>(rs: seq<Rune>, table: map<Rune, V>) {
    forall i :: 0 <= i < |rs| ==> rs[i] in table
  }

  /** The codes of a sequence of symbols, concatenated. */
  function CodeString(rs: seq<Rune>, table: map<Rune, string>): string
    requires InTable(rs, table)
  {
    if rs == [] then [] else table[rs[0]] + CodeString(rs[1..], table)
  }

  /** encData succeeds exactly when the input is valid UTF-8 and every code
      point has a code, and then emits the concatenated codes. */
  lemma {:induction false} BitstreamRunes(data: seq<byte>, table: map<Rune, string>)
    ensures Bitstream(data, table).Ok? <==> Runes(data).Ok? && InTable(Runes(data).value, table)
    ensures Bitstream(data, table).Ok? ==> Bitstream(data, table).value == CodeString(Runes(data).value, table)
    ensures Runes(data).Err? ==> Bitstream(data, table).Err?
    decreases |data|
  {
    if data != [] {
      var d := DecodeRune(data);
      if d.0 != RuneError {
        var rest := data[d.1..];
        BitstreamRunes(rest, table);
        if Runes(rest).Ok? {
          var rs := Runes(data).value;
          assert rs == [d.0] + Runes(rest).value;
          assert rs[1..] == Runes(rest).value;
          InTableCons(rs, table);
        }
      }
    }
  }

  lemma InTableCons(rs: seq<Rune>, table: map<Rune, string>)
    requires rs != []
    ensures InTable(rs, table) <==> rs[0] in table && InTable(rs[1..], table)
  {
    if rs[0] in table && InTable(rs[1..], table) {
      forall i | 0 <= i < |rs| ensures rs[i] in table {
        if i > 0 {
          assert rs[i] == rs[1..][i - 1];
        }
      }
    }
    if InTable(rs, table) {
      forall i | 0 <= i < |rs| - 1 ensures rs[1..][i] in table {
        assert rs[1..][i] == rs[i + 1];
      }
    }
  }

  /** The total number of bits is the sum of the code lengths. */
  lemma {:induction false} CodeStringLength(rs: seq<Rune>, table: map<Rune, string>)
    requires InTable(rs, table)
    ensures |CodeString(rs, table)| == if rs == [] then 0 else |table[rs[0]]| + |CodeString(rs[1..], table)|
  {
  }

  /** One code point through encData's outer loop extends the bits. */
  lemma BitstreamAdvance(data: seq<byte>, i: nat, table: map<Rune, string>, acc: string,
                          cp: Rune, sz: nat, code: string)
    requires i < |data| && DecodeRune(data[i..]) == (cp, sz) && cp != RuneError
    requires cp in table && code == table[cp]
    requires Bitstream(data, table) == Prepend(acc, Bitstream(data[i..], table))
    ensures i + sz <= |data| && Bitstream(data, table) == Prepend(acc + code, Bitstream(data[i + sz..], table))
  {
    assert data[i..][sz..] == data[i + sz..];
    PrependPrepend(acc, code, Bitstream(data[i + sz..], table));
  }

  /** A code point encData cannot encode ends the whole encoding with its error. */
  lemma BitstreamFail(data: seq<byte>, i: nat, table: map<Rune, string>, acc: string, cp: Rune)
    requires i < |data| && DecodeRune(data[i..]).0 == cp
    requires Bitstream(data, table) == Prepend(acc, Bitstream(data[i..], table))
    ensures cp == RuneError ==> Bitstream(data, table) == Err(InvalidUtf8)
    ensures cp != RuneError && cp !in table ==> Bitstream(data, table) == Err(CharNotInTable)
  {
  }

  /** The MSB-first state encData keeps between bits: the bits emitted so
      far are `whole` (a multiple of eight, already written as bytes) followed
      by `pending` (`bitCount` bits, held in the high bits of `currentByte`). */
  ghost predicate PackState(whole: string, pending: string, written: seq<byte>, currentByte: byte, bitCount: nat) {
    && |whole| % 8 == 0 && bitCount == |pending| < 8
    && written == Pack(whole)
    && currentByte == ByteOf(pending)
  }

  lemma ModAdd8(n: nat)
    requires n % 8 == 0
    ensures (n + 8) % 8 == 0
  {
  }

  /** One bit through encData's inner loop keeps the state. */
  lemma PackStep(whole: string, pending: string, ch: char, written: seq<byte>, currentByte: byte, bitCount: nat)
    requires PackState(whole, pending, written, currentByte, bitCount)
    ensures var cur := MarkBit(currentByte, bitCount, ch);
      if bitCount + 1 == 8 then PackState(whole + (pending + [ch]), [], written + [cur], 0, 0)
      else PackState(whole, pending + [ch], written, cur, bitCount + 1)
  {
    var cur := MarkBit(currentByte, bitCount, ch);
    MarkBitAppends(pending, ch);
    if bitCount + 1 == 8 {
      PackFull(whole, pending + [ch], written, cur);
    }
  }

  lemma PackFull(whole: string, p: string, written: seq<byte>, cur: byte)
    requires |whole| % 8 == 0 && |p| == 8 && written == Pack(whole)
    requires cur == ByteOf(p)
    ensures PackState(whole + p, [], written + [cur], 0, 0)
  {
    PackAppend(whole, p);
    assert Pack(p) == [ByteOf(p)];
    ModAdd8(|whole|);
    ByteOfEmpty();
  }

  lemma ByteOfEmpty()
    ensures ByteOf([]) == 0
  {
    ValZeros([], 8);
    assert [] + Zeros(8) == Zeros(8);
  }

  /** After the last bit, flushing a partly filled byte gives the packing. */
  lemma PackFinish(whole: string, pending: string, written: seq<byte>, currentByte: byte, bitCount: nat)
    requires PackState(whole, pending, written, currentByte, bitCount)
    ensures (if bitCount > 0 then written + [currentByte] else written) == Pack(whole + pending)
  {
    PackAppend(whole, pending);
    if bitCount == 0 {
      assert whole + pending == whole;
    }
  }

  /** `currentByte |= 1 << (7 - bitCount)` when the bit is '1'. */
  function MarkBit(currentByte: byte, bitCount: nat, bit: char): (r: byte)
    requires bitCount < 8
    ensures r as int >= currentByte as int
  {
    if bit == '1' then SetBit(currentByte, 7 - bitCount) else currentByte
  }

  /** Marking bit `|p|` from the top of the byte holding `p` gives the
      byte holding `p` followed by that bit. */
  lemma MarkBitAppends(p: string, bit: char)
    requires |p| < 8
    ensures MarkBit(ByteOf(p), |p|, bit) == ByteOf(p + [bit])
  {
    SetNextBit(p, bit, ByteOf(p));
  }

  /** One pass of encData's inner loop: the bit is OR-ed into `currentByte`
      at position `bitCount` from the top, and a full byte goes to the buffer. */
  method WriteBit(bit: char, bitBuff: ByteBuffer, currentByte0: byte, bitCount0: nat,
                  ghost whole0: string, ghost pending0: string)
    returns (currentByte: byte, bitCount: nat, ghost whole: string, ghost pending: string)
    requires PackState(whole0, pending0, bitBuff.bytes, currentByte0, bitCount0)
    modifies bitBuff
    ensures PackState(whole, pending, bitBuff.bytes, currentByte, bitCount)
    ensures whole + pending == whole0 + pending0 + [bit]
  {
    PackStep(whole0, pending0, bit, bitBuff.bytes, currentByte0, bitCount0);
    currentByte := MarkBit(currentByte0, bitCount0, bit);
    bitCount := bitCount0 + 1;
    if bitCount == 8 {
      bitBuff.WriteByte(currentByte);
      currentByte := 0;
      bitCount := 0;
      whole, pending := whole0 + (pending0 + [bit]), [];
      assert whole + pending == whole0 + pending0 + [bit];
    } else {
      whole, pending := whole0, pending0 + [bit];
    }
  }

  /** The inner loop of encData: the bits of one code, in order. */
  method WriteCode(code: string, bitBuff: ByteBuffer, currentByte0: byte, bitCount0: nat, totalBits0: nat,
                   ghost whole0: string, ghost pending0: string)
    returns (currentByte: byte, bitCount: nat, totalBits: nat, ghost whole: string, ghost pending: string)
    requires PackState(whole0, pending0, bitBuff.bytes, currentByte0, bitCount0)
    requires totalBits0 == |whole0 + pending0|
    modifies bitBuff
    ensures PackState(whole, pending, bitBuff.bytes, currentByte, bitCount)
    ensures whole + pending == whole0 + pending0 + code && totalBits == |whole + pending|
  {
    currentByte, bitCount, totalBits := currentByte0, bitCount0, totalBits0;
    whole, pending := whole0, pending0;
    var j := 0;
    while j < |code|
      invariant 0 <= j <= |code|
      invariant whole + pending == whole0 + pending0 + code[..j]
      invariant PackState(whole, pending, bitBuff.bytes, currentByte, bitCount)
      invariant totalBits == |whole + pending|
      decreases |code| - j
    {
      var bit := code[j];
      currentByte, bitCount, whole, pending := WriteBit(bit, bitBuff, currentByte, bitCount, whole, pending);
      totalBits := totalBits + 1;
      assert code[..j + 1] == code[..j] + [bit];
      j := j + 1;
    }
    assert code[..j] == code;
  }

  /** encData: packs the codes of the input MSB-first, eight to a byte,
      and returns them with their total number. */
  method EncData(data: seq<byte>, preTab: map<Rune, string>) returns (r: Result<(seq<byte>, nat)>)
    ensures Bitstream(data, preTab).Err? ==> r == Err(Bitstream(data, preTab).error)
    ensures Bitstream(data, preTab).Ok? ==>
      r == Ok((Pack(Bitstream(data, preTab).value), |Bitstream(data, preTab).value|))
  {
    var bitBuff := new ByteBuffer();
    var currentByte: byte := 0;
    var bitCount := 0;
    var totalBits := 0;
    ghost var whole: string, pending: string := [], [];
    ghost var bits: string := [];
    PrependNothing(Bitstream(data, preTab));
    ByteOfEmpty();
    var i := 0;
    assert data[i..] == data;
    while i < |data|
      invariant 0 <= i <= |data|
      invariant Bitstream(data, preTab) == Prepend(bits, Bitstream(data[i..], preTab))
      invariant bits == whole + pending && totalBits == |bits|
      invariant PackState(whole, pending, bitBuff.bytes, currentByte, bitCount)
      decreases |data| - i
    {
      var d := DecodeRune(data[i..]);
      var cp, sz := d.0, d.1;
      if cp == RuneError {
        BitstreamFail(data, i, preTab, bits, cp);
        return Err(InvalidUtf8);
      }
      if cp !in preTab {
        BitstreamFail(data, i, preTab, bits, cp);
        return Err(CharNotInTable);
      }
      var code := preTab[cp];
      BitstreamAdvance(data, i, preTab, bits, cp, sz, code);
      i := i + sz;
      currentByte, bitCount, totalBits, whole, pending :=
        WriteCode(code, bitBuff, currentByte, bitCount, totalBits, whole, pending);
      bits := bits + code;
    }
    PackFinish(whole, pending, bitBuff.bytes, currentByte, bitCount);
    if bitCount > 0 {
      bitBuff.WriteByte(currentByte);
    }
    assert bits + [] == bits;
    return Ok((bitBuff.bytes, totalBits));
  }

  /** The packed payload holds the codes' bits in order, MSB first, and
      zero bits after them. */
  lemma PackedBits(bits: string)
    requires IsBitString(bits)
    ensures 8 * |Pack(bits)| == |bits| + PadLen(|bits|)
    ensures forall i :: 0 <= i < |bits| ==> Unpack(Pack(bits))[i] == bits[i]
    ensures forall i :: |bits| <= i < 8 * |Pack(bits)| ==> Unpack(Pack(bits))[i] == '0'
  {
    UnpackPack(bits);
  }

  // ---------------------------------------------------------------------
  // Compress

  /** The header byte: the number of valid bits in the last payload byte,
      `totalBits % 8` with 0 read as 8. */
  function ValidBits(totalBits: nat): (b: byte)
    ensures 1 <= b <= 8
    ensures b as int % 8 == totalBits % 8
  {
    if totalBits % 8 == 0 then 8 else (totalBits % 8) as byte
  }

  /** The container: header, unit separator 0x1F, tree, "%%", payload. */
  function Container(root: Node, bits: string): seq<byte> {
    [ValidBits(|bits|), 0x1F] + Serialize(root) + [37, 37] + Pack(bits)
  }

  /** What Compress returns: the frequency error, then the tree-building
      errors in buildTree's order, and otherwise the container of some tree
      buildTree can build for the frequencies, with the input's codes under
      that tree as payload. */
  ghost predicate CompressSpec(input: seq<byte>, r: Result<seq<byte>>) {
    match Runes(input)
    case Err(e) => r == Err(e)
    case Ok(rs) =>
      var h := Histogram(rs);
      if |h| == 0 then r == Err(EmptyFrequencyMap)
      else if |h| == 1 then r == Err(InsufficientSymbols)
      else exists root ::
        && IsHuffmanTree(h, root) && InTable(rs, Codes(root, ""))
        && r == Ok(Container(root, CodeString(rs, Codes(root, ""))))
  }

  /** The prefix table of a tree built for the input's frequencies has a
      code for every code point of the input. */
  lemma TableCoversInput(rs: seq<Rune>, root: Node)
    requires IsHuffmanTree(Histogram(rs), root)
    ensures InTable(rs, Codes(root, ""))
  {
    HuffmanTreeShape(Histogram(rs), root);
    CodesArePaths(root, "");
    assert Codes(root, "").Keys == Histogram(rs).Keys;
    InHistogram(rs);
  }

  lemma InHistogram(rs: seq<Rune>)
    ensures InTable(rs, Histogram(rs))
  {
    HistogramCounts(rs);
    forall i | 0 <= i < |rs| ensures rs[i] in Histogram(rs) {
      assert rs[i] in rs;
    }
  }

  /** The container a successful Compress returns meets its specification. */
  lemma CompressOk(input: seq<byte>, root: Node, out: seq<byte>)
    requires Runes(input).Ok? && |Histogram(Runes(input).value)| >= 2
    requires IsHuffmanTree(Histogram(Runes(input).value), root)
    requires InTable(Runes(input).value, Codes(root, ""))
    requires out == Container(root, CodeString(Runes(input).value, Codes(root, "")))
    ensures CompressSpec(input, Ok(out))
  {
  }

  /** Compress: frequencies, tree, serialized tree and packed payload, put
      together as header, 0x1F, tree, "%%" and payload. */
  method Compress(input: seq<byte>) returns (r: Result<seq<byte>>)
    ensures CompressSpec(input, r)
  {
    var runesFreq :- GetRunesFrequency(input);
    ghost var rs := Runes(input).value;
    HistogramCounts(rs);
    var built :- BuildTree(runesFreq);
    var treeRoot, prefixTable := built.0, built.1;
    TableCoversInput(rs, treeRoot);
    BitstreamRunes(input, prefixTable);
    var treeRes := SerializeTree(Some(treeRoot));
    if treeRes.Err? {
      // serializeTree fails only for a nil node
      assert false;
    }
    var treeBuff := treeRes.value;
    var encRes := EncData(input, prefixTable);
    if encRes.Err? {
      // every code point of the input has a code in the table
      assert false;
    }
    var bitBuff, totalBits := encRes.value.0, encRes.value.1;
    var validBits := (totalBits % 8) as byte;
    if validBits == 0 {
      validBits := 8;
    }
    var outBuff := new ByteBuffer();
    outBuff.WriteByte(validBits);
    outBuff.WriteByte(0x1F);
    assert outBuff.bytes == [validBits, 0x1F];
    outBuff.Write(treeBuff);
    outBuff.Write([37, 37]);
    outBuff.Write(bitBuff);
    ghost var bits := CodeString(rs, Codes(treeRoot, ""));
    assert validBits == ValidBits(|bits|);
    assert treeBuff == Serialize(treeRoot);
    assert bitBuff == Pack(bits);
    assert outBuff.bytes == [validBits, 0x1F] + treeBuff + [37, 37] + bitBuff;
    assert outBuff.bytes == Container(treeRoot, bits);
    CompressOk(input, treeRoot, outBuff.bytes);
    return Ok(outBuff.bytes);
  }
}
