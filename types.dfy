/** Shared value types of the Huffman codec: bytes, runes, the error tags the
    codec reports, and the Option/Result wrappers used for its error returns. */
module Types {

  /** An 8-bit byte, as Go's `byte`. */
  newtype byte = x: int | 0 <= x < 256

  /** A Go `rune`: an integer meant to hold a Unicode code point. */
  type Rune = int

  /** One tag per error message the codec can return. */
  datatype Error =
    // frequency analysis and tree building (encode.go, huff.go)
    | InvalidUtf8              // "invalid UTF-8 encoding"
    | EmptyFrequencyMap        // "frequency map is empty"
    | NonPositiveFrequency     // "frequency must be greater than zero"
    | InsufficientSymbols      // "priority queue must contain at least two nodes"
    | NodeIsNil                // "node is nil"
    | CharNotInTable           // "char not found in prefix table"
    // container parsing (decode.go)
    | DataTooShort             // "data is too short"
    | InvalidBitLength         // "invalid bit length"
    | TreeStartNotFound        // "start of tree header not found"
    | TreeEndNotFound          // "end of tree header not found"
    | SliceBoundsOutOfRange    // "slice bounds out of range"
    | DelimiterNotFound        // "end of tree delimiter not found"
    | EncDataNotFound          // "start of encoded data not found"
    | TreeBytesEmpty           // "tree bytes are empty"
    | TreeIndexOutOfRange      // "index out if range"
    | LeafIndexOutOfRange      // "index out of range after leaf indicator"
    | InvalidUtf8InTree        // "invalid UTF-8 in tree bytes"
    | UnexpectedTreeValue      // "unexpected value in tree bytes"

  /** A non-empty set has an element (lets `:|` pick one). */
  lemma Inhabited(s: set<Rune>)
    requires s != {}
    ensures exists x :: x in s
  {
    if forall x :: x !in s {
      assert false;
    }
  }

  datatype Option<+T> = None | Some(value: T)

  datatype Result<+T> = Ok(value: T) | Err(error: Error) {
    predicate IsFailure() { Err? }
    function PropagateFailure<U>(): Result<U>
      requires Err?
    {
      Err(error)
    }
    function Extract(): T
      requires Ok?
    {
      value
    }
  }

  /** `p` followed by the sequence `r` holds, or the error `r` holds. */
  function Prepend<T>(p: seq<T>, r: Result<seq<T>>): Result<seq<T>> {
    if r.Ok? then Ok(p + r.value) else r
  }

  lemma PrependNothing<T>(r: Result<seq<T>>)
    ensures Prepend([], r) == r
  {
    if r.Ok? {
      assert [] + r.value == r.value;
    }
  }

  /** Regrouping four appended pieces. */
  lemma Assoc4<T>(a: seq<T>, b: seq<T>, c: seq<T>, d: seq<T>)
    ensures a + b + c + d == a + (b + c + d)
  {
  }

  lemma PrependPrepend<T>(p: seq<T>, q: seq<T>, r: Result<seq<T>>)
    ensures Prepend(p, Prepend(q, r)) == Prepend(p + q, r)
  {
    if r.Ok? {
      assert p + (q + r.value) == (p + q) + r.value;
    }
  }
}
