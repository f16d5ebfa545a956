/** A reference decoder for the single-file format, written as functions to
    state what the compressed file means: `decompressFile` itself is not part
    of this model. It reads the header, rebuilds the tree from the stored
    counts exactly as `reconstruirCodigos` does, and walks the tree bit by
    bit (first bit of each byte first) for exactly the stored number of
    symbols, ignoring the padding of the last byte. */
module ReferenceDecoder {
  import opened Bytes
  import opened Tree
  import opened Codes
  import opened FrequencyTable
  import opened Packing
  import opened Codec

  /** `n` symbols read off `bits` by walking `t` from the root each time, or
      None when the bits run out first. */
  function DecodeSymbols(t: TreeNode, bits: seq<bool>, n: nat): Option<seq<byte>>
    decreases n
  {
    if n == 0 then Some([])
    else match Descend(t, bits)
      case None => None
      case Some((b, rest)) =>
        match DecodeSymbols(t, rest, n - 1)
        case None => None
        case Some(tail) => Some([b] + tail)
  }

  /** The decoded file, or None for a header that cannot be read, a
      negative count, or a payload too short for the count. A count of zero
      with an empty table decodes to the empty file. */
  function Decompress(file: seq<byte>): Option<seq<byte>>
  {
    var total := ObtenerCantidadDeCaracteres(Some(file));
    var table := ObtenerTablaDeFrecuencias(Some(file));
    if total < 0 || table.None? then None
    else if total == 0 then Some([])
    else match BuildSpec(ByteOrder(table.value))
      case None => None
      case Some(t) => DecodeSymbols(t, Unpack(file[HeaderSize..]), total)
  }

  /** Under the code table of a tree with distinct symbols, every string of
      its symbols has a code, and decoding the code gives the string back,
      whatever bits follow. */
  lemma {:induction false} DecodeEncoded(t: TreeNode, data: seq<byte>, rest: seq<bool>)
    requires Distinct(t)
    requires forall i :: 0 <= i < |data| ==> data[i] in Symbols(t)
    ensures EncodeBits(data, CodeTableOf(Some(t))).Some?
    ensures DecodeSymbols(t, EncodeBits(data, CodeTableOf(Some(t))).value + rest, |data|) == Some(data)
  {
    var table := CodeTableOf(Some(t));
    if data != [] {
      var b := data[0];
      DecodeEncoded(t, data[1..], rest);
      CodeTableAt(Some(t), b);
      var tail := EncodeBits(data[1..], table).value;
      assert EncodeBits(data, table) == Some(CodeBits(PathTo(t, b)) + tail);
      DescendPath(t, b, tail + rest);
      assert CodeBits(PathTo(t, b)) + tail + rest == CodeBits(PathTo(t, b)) + (tail + rest);
      assert data == [b] + data[1..];
    }
  }

  /** No byte occurs more often than the file is long. */
  lemma {:induction false} HistogramBound(data: seq<byte>, b: byte)
    ensures Histogram(data)[b] <= |data|
  {
    if data != [] {
      var init := data[..|data| - 1];
      assert data == init + [data[|data| - 1]];
      HistogramBound(init, b);
    }
  }

  /** Every count of a file whose length a `long long` holds fits an
      `unsigned long long`. */
  lemma HistogramFits(data: seq<byte>)
    requires |data| < Two63
    ensures forall i :: 0 <= i < 256 ==> Histogram(data)[i] < Two64
  {
    forall i | 0 <= i < 256
      ensures Histogram(data)[i] < Two64
    {
      HistogramBound(data, i as byte);
    }
  }

  /** What the reference decoder makes of a header written for `data`
      followed by any payload. */
  lemma DecompressHeader(data: seq<byte>, payload: seq<byte>)
    requires |data| < Two63
    ensures data == [] ==> Decompress(HeaderBytes(|data|, Histogram(data)) + payload) == Some([])
    ensures data != [] ==>
      var t := BuildSpec(ByteOrder(Histogram(data)));
      && t.Some?
      && Decompress(HeaderBytes(|data|, Histogram(data)) + payload) == DecodeSymbols(t.value, Unpack(payload), |data|)
  {
    var f := Histogram(data);
    var file := HeaderBytes(|data|, f) + payload;
    HistogramFits(data);
    HeaderRoundTrip(|data|, f, payload);
    assert file[HeaderSize..] == payload;
    if data != [] {
      CodeTree(data);
    }
  }

  /** The single-file round trip: the header and payload `compressFile`
      writes for a file decode back to that file, for every file whose
      length a `long long` holds. */
  lemma CompressRoundTrip(data: seq<byte>)
    requires |data| < Two63
    ensures Decompress(CompressedImage(data)) == Some(data)
  {
    var f := Histogram(data);
    EveryByteCoded(data);
    var bits := EncodeBits(data, CodesFromFrequencies(f)).value;
    DecompressHeader(data, Pack(bits));
    if data != [] {
      CodeTree(data);
      var t := BuildSpec(ByteOrder(f)).value;
      PackRoundTrip(bits);
      assert forall i :: 0 <= i < |data| ==> data[i] in multiset(data);
      DecodeEncoded(t, data, Zeros(PadLength(|bits|)));
    }
  }

  /** A file with one distinct byte gets the empty code for it, so its
      payload is empty and only the stored count says how long it is. */
  lemma SingleSymbol(b: byte, n: nat)
    requires n > 0
    ensures var data := seq(n, _ => b);
      && CodesFromFrequencies(Histogram(data))[b] == Some("")
      && EncodeBits(data, CodesFromFrequencies(Histogram(data))) == Some([])
  {
    var data := seq(n, _ => b);
    var letters := ByteOrder(Histogram(data));
    OneLetter(data, b);
    BuildSpecShape(letters);
    CodeTableAt(BuildSpec(letters), b);
    AllEmpty(data, b, CodesFromFrequencies(Histogram(data)));
  }

  /** A nonempty file of one byte value lists a single letter. */
  lemma OneLetter(data: seq<byte>, b: byte)
    requires data != [] && forall i :: 0 <= i < |data| ==> data[i] == b
    ensures ByteOrder(Histogram(data)) == [Letter(b, |data|)]
  {
    var f := Histogram(data);
    var letters := ByteOrder(f);
    ByteOrderFacts(f);
    assert multiset(data)[b] == |data| by {
      assert multiset(data) == multiset{} [b := |data|] by {
        SameMultiset(data, b);
      }
    }
    assert Letter(b, f[b]) in letters;
    forall i | 0 <= i < |letters|
      ensures letters[i] == Letter(b, f[b])
    {
      assert letters[i] in letters;
      assert letters[i].letter in multiset(data);
      var k :| 0 <= k < |data| && data[k] == letters[i].letter;
    }
    ByteOrderAscending(f);
    DistinctLettersCount(letters);
    assert SymbolsOf(letters) == {b};
  }

  lemma {:induction false} SameMultiset(data: seq<byte>, b: byte)
    requires forall i :: 0 <= i < |data| ==> data[i] == b
    ensures multiset(data) == multiset{} [b := |data|]
  {
    if data != [] {
      var init := data[..|data| - 1];
      assert data == init + [b];
      SameMultiset(init, b);
    }
  }

  lemma {:induction false} AllEmpty(data: seq<byte>, b: byte, table: CodeTable)
    requires table[b] == Some("")
    requires forall i :: 0 <= i < |data| ==> data[i] == b
    ensures EncodeBits(data, table) == Some([])
  {
    if data != [] {
      AllEmpty(data[1..], b, table);
      assert data[0] == b;
      assert CodeBits("") + [] == [];
    }
  }
}
