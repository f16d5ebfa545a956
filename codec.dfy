/** Single-file compression of readFile.c: the 2056-byte header (the total
    symbol count, then 256 symbol counts), the header readers, the code table
    the encoder derives from the input and the one the decoder rebuilds from
    the header, and `compressFile` with its bit-packing loop. Files are byte
    sequences; a file that cannot be opened is `None`. */
module Codec {
  import opened Bytes
  import opened Tree
  import opened Codes
  import opened QueueOrder
  import opened FrequencyTable
  import opened Packing

  // ---------------------------------------------------------------------
  // Header layout

  /** `fwrite(frequencies, sizeof(unsigned long long), n, file)`: each count
      as 8 little-endian bytes, in slot order. */
  function TableBytes(f: seq<nat>): (r: seq<byte>)
    ensures |r| == 8 * |f|
  {
    if f == [] then [] else Int64LE(f[0]) + TableBytes(f[1..])
  }

  /** `sizeof(long long) + 256 * sizeof(unsigned long long)`. */
  const HeaderSize: nat := 2056

  /** The header: `total_chars` as a `long long`, then the 256 counts. */
  function HeaderBytes(total: int, f: seq<nat>): (r: seq<byte>)
    requires |f| == 256
    ensures |r| == HeaderSize
  {
    Int64LE(total) + TableBytes(f)
  }

  /** `obtenerCantidadDeCaracteres`: the `long long` at offset 0, or -1 when
      the file cannot be opened or holds fewer than 8 bytes. */
  function ObtenerCantidadDeCaracteres(file: Option<seq<byte>>): (r: int)
    ensures -Two63 <= r < Two63
  {
    if file.None? || |file.value| < 8 then -1 else ReadInt64(file.value[..8])
  }

  /** `obtenerTablaDeFrecuencias`: the 256 `unsigned long long` counts from
      offset 8, or None (`false`) when the file cannot be opened or is too
      short for all of them. */
  function ObtenerTablaDeFrecuencias(file: Option<seq<byte>>): (r: Option<seq<nat>>)
    ensures r.Some? ==> |r.value| == 256 && forall i :: 0 <= i < 256 ==> r.value[i] < Two64
  {
    if file.None? || |file.value| < HeaderSize then None
    else Some(seq(256, i requires 0 <= i < 256 => ReadUInt64(file.value[8 + 8 * i..16 + 8 * i])))
  }

  lemma {:induction false} TableSlice(f: seq<nat>, i: nat)
    requires i < |f|
    ensures TableBytes(f)[8 * i..8 * i + 8] == Int64LE(f[i])
  {
    if i > 0 {
      var t := TableBytes(f);
      assert t[8..] == TableBytes(f[1..]);
      TableSlice(f[1..], i - 1);
      assert t[8 * i..8 * i + 8] == t[8..][8 * (i - 1)..8 * (i - 1) + 8];
    }
  }

  /** Reading back a written header gives the count and the table, whatever
      follows it, for every count a `long long` holds and every table of
      `unsigned long long` values. */
  lemma HeaderRoundTrip(total: int, f: seq<nat>, payload: seq<byte>)
    requires |f| == 256 && -Two63 <= total < Two63
    requires forall i :: 0 <= i < 256 ==> f[i] < Two64
    ensures ObtenerCantidadDeCaracteres(Some(HeaderBytes(total, f) + payload)) == total
    ensures ObtenerTablaDeFrecuencias(Some(HeaderBytes(total, f) + payload)) == Some(f)
  {
    var file := HeaderBytes(total, f) + payload;
    assert file[..8] == Int64LE(total);
    Int64RoundTrip(total);
    var table := ObtenerTablaDeFrecuencias(Some(file)).value;
    forall i | 0 <= i < 256
      ensures table[i] == f[i]
    {
      TableEntry(total, f, payload, i);
    }
    assert table == f;
  }

  lemma TableEntry(total: int, f: seq<nat>, payload: seq<byte>, i: nat)
    requires |f| == 256 && i < 256 && f[i] < Two64
    ensures var file := HeaderBytes(total, f) + payload;
      ReadUInt64(file[8 + 8 * i..16 + 8 * i]) == f[i]
  {
    var file := HeaderBytes(total, f) + payload;
    var t := TableBytes(f);
    TableSlice(f, i);
    assert file == Int64LE(total) + t + payload;
    assert file[8 + 8 * i..16 + 8 * i] == t[8 * i..8 * i + 8];
    UInt64RoundTrip(f[i]);
  }

  /** A file too short for a field makes its reader fail. */
  lemma ShortHeader(file: seq<byte>)
    ensures |file| < 8 ==> ObtenerCantidadDeCaracteres(Some(file)) == -1
    ensures |file| < HeaderSize <==> ObtenerTablaDeFrecuencias(Some(file)).None?
  {
  }

  // ---------------------------------------------------------------------
  // The letter lists handed to `buildHuffmanTree`

  /** The letters `reconstruirCodigos` lists: every slot of nonzero count,
      in ascending byte order. */
  function ByteOrder(f: seq<nat>): (r: seq<Letter>)
    requires |f| <= 256
    ensures |r| == NonZeroCount(f)
  {
    if f == [] then []
    else ByteOrder(f[..|f| - 1]) + if f[|f| - 1] > 0 then [Letter((|f| - 1) as byte, f[|f| - 1])] else []
  }

  /** `ByteOrder` holds exactly the nonzero slots, strictly ascending. */
  lemma {:induction false} ByteOrderFacts(f: seq<nat>)
    requires |f| <= 256
    ensures forall l :: l in ByteOrder(f) <==> l.letter as int < |f| && 0 < l.frequency == f[l.letter]
    ensures forall i, j :: 0 <= i < j < |ByteOrder(f)| ==> ByteOrder(f)[i].letter < ByteOrder(f)[j].letter
  {
    if f != [] {
      var init := f[..|f| - 1];
      ByteOrderFacts(init);
      var r := ByteOrder(f);
      assert forall l :: l in ByteOrder(init) ==> l.letter as int < |init|;
      forall l
        ensures l in r <==> l.letter as int < |f| && 0 < l.frequency == f[l.letter]
      {
        if l.letter as int < |init| { assert init[l.letter] == f[l.letter]; }
      }
    }
  }

  /** The decoder's listing has no symbol twice and lists equal counts (any
      counts) in ascending byte order. */
  lemma ByteOrderAscending(f: seq<nat>)
    requires |f| <= 256
    ensures DistinctLetters(ByteOrder(f)) && TiesAscending(ByteOrder(f))
  {
    ByteOrderFacts(f);
  }

  /** The codes `reconstruirCodigos` derives from a frequency table. */
  function CodesFromFrequencies(f: seq<nat>): CodeTable
    requires |f| == 256
  {
    CodeTableOf(BuildSpec(ByteOrder(f)))
  }

  /** A `terribleSort` listing has the same letters as the byte-order
      listing and also lists equal counts in ascending byte order. */
  lemma TerribleOrderMatches(r: seq<Letter>, f: seq<nat>)
    requires |f| == 256 && TerribleOrder(r, f)
    ensures TiesAscending(r) && DistinctLetters(r)
    ensures forall l :: l in r <==> l in ByteOrder(f)
  {
    ByteOrderFacts(f);
    forall l | l in ByteOrder(f)
      ensures l in r
    {
      var k :| 0 <= k < |r| && r[k].letter == l.letter;
    }
  }

  /** The central agreement: the encoder, which builds its tree from the
      `terribleSort` listing, ends up with exactly the codes the decoder
      rebuilds from the stored counts. */
  lemma EncoderMatchesDecoder(r: seq<Letter>, f: seq<nat>)
    requires |f| == 256 && TerribleOrder(r, f)
    ensures BuildSpec(r) == BuildSpec(ByteOrder(f))
    ensures CodeTableOf(BuildSpec(r)) == CodesFromFrequencies(f)
  {
    TerribleOrderMatches(r, f);
    ByteOrderAscending(f);
    SameInitialQueue(r, ByteOrder(f));
  }

  lemma {:induction false} NonZeroPrefix(f: seq<nat>, i: nat)
    requires i <= |f|
    ensures NonZeroCount(f[..i]) <= NonZeroCount(f)
  {
    if i < |f| {
      assert f[..i] == f[..|f| - 1][..i];
      NonZeroPrefix(f[..|f| - 1], i);
    } else {
      assert f[..i] == f;
    }
  }

  /** A tree built from at most 256 letters fits the 256-character path
      buffer of `generateCodes`. */
  lemma TreeFitsPath(letters: seq<Letter>)
    requires |letters| <= 256
    ensures BuildSpec(letters).Some? ==> Height(BuildSpec(letters).value) < 256
  {
    BuildSpecShape(letters);
    if BuildSpec(letters).Some? {
      var t := BuildSpec(letters).value;
      HeightBound(t);
      assert |LeafLetters(t)| == |multiset(LeafLetters(t))| == |letters|;
    }
  }

  // ---------------------------------------------------------------------
  // Code tables

  /** `calloc(256, sizeof(char*))`, a 256-character path buffer and
      `generateCodes(root, path, 0, huffmanCodes)`: the code table of the
      tree. */
  method GenerateTable(root: Option<TreeNode>) returns (table: CodeTable)
    requires root.Some? ==> Height(root.value) < 256
    ensures table == CodeTableOf(root)
  {
    var huffmanCodes := new Option<string>[256](_ => None);
    var path := new char[256](_ => '\0');
    assert huffmanCodes[..] == EmptyTable();
    assert path[..0] == "";
    GenerateCodes(root, path, 0, huffmanCodes);
    table := huffmanCodes[..];
  }

  /** The two loops of `reconstruirCodigos` over the table: count the
      nonzero slots, then list them in ascending byte order. */
  method ListLetters(frequencies: seq<nat>) returns (letters: array<Letter>)
    requires |frequencies| == 256
    ensures fresh(letters) && letters[..] == ByteOrder(frequencies)
  {
    var size := 0;
    for i := 0 to 256
      invariant size == NonZeroCount(frequencies[..i])
    {
      assert frequencies[..i + 1][..i] == frequencies[..i];
      if frequencies[i] > 0 {
        size := size + 1;
      }
    }
    assert frequencies[..256] == frequencies;
    letters := new Letter[size];
    var currentIndex := 0;
    for i := 0 to 256
      invariant currentIndex == NonZeroCount(frequencies[..i]) <= size
      invariant letters[..currentIndex] == ByteOrder(frequencies[..i])
    {
      assert frequencies[..i + 1][..i] == frequencies[..i];
      NonZeroPrefix(frequencies, i + 1);
      if frequencies[i] > 0 {
        letters[currentIndex] := Letter(i as byte, frequencies[i]);
        currentIndex := currentIndex + 1;
      }
    }
    assert letters[..] == letters[..currentIndex];
  }

  /** `reconstruirCodigos(compressedFileName)`: NULL when the table cannot be
      read; otherwise list the nonzero counts in byte order, build the tree
      and generate its codes. */
  method ReconstruirCodigos(compressed: Option<seq<byte>>) returns (codes: Option<CodeTable>)
    ensures var table := ObtenerTablaDeFrecuencias(compressed);
      codes == if table.None? then None else Some(CodesFromFrequencies(table.value))
  {
    var table := ObtenerTablaDeFrecuencias(compressed);
    if table.None? {
      return None;
    }
    var letters := ListLetters(table.value);
    var huffmanRoot, _ := BuildHuffmanTree(letters[..]);
    TreeFitsPath(letters[..]);
    var huffmanCodes := GenerateTable(huffmanRoot);
    codes := Some(huffmanCodes);
  }

  /** The bytes of a file that may not open (`fopen` failing reads nothing). */
  function Contents(file: Option<seq<byte>>): seq<byte>
  {
    if file.None? then [] else file.value
  }

  /** `obtenerCodigos(fileName)`: count the file into the (re-initialised)
      table, `terribleSort` it, build the tree and generate its codes. The
      result is the decoder's table for the file's counts. */
  method ObtenerCodigos(alphabet: Alphabet, file: Option<seq<byte>>) returns (codes: CodeTable)
    requires alphabet.slots.Length == 256
    modifies alphabet.slots
    ensures alphabet.Valid()
    ensures codes == CodesFromFrequencies(Histogram(Contents(file)))
  {
    alphabet.InitGlobalAlphabet();
    alphabet.ReadTextFile(file);
    ghost var f := alphabet.Frequencies();
    assert f == Histogram(Contents(file));
    var size := alphabet.CountSize();
    var alphabetresults := alphabet.TerribleSort();
    assert size == alphabetresults.Length;
    assert alphabetresults[..size] == alphabetresults[..];
    var huffmanRoot, _ := BuildHuffmanTree(alphabetresults[..size]);
    EncoderMatchesDecoder(alphabetresults[..], f);
    TreeFitsPath(alphabetresults[..]);
    codes := GenerateTable(huffmanRoot);
  }

  // ---------------------------------------------------------------------
  // Encoding

  /** The code bits of `data` under `table`, or None when some byte has a
      NULL code. */
  function EncodeBits(data: seq<byte>, table: CodeTable): Option<seq<bool>>
  {
    if data == [] then Some([])
    else match (table[data[0]], EncodeBits(data[1..], table))
      case (Some(c), Some(rest)) => Some(CodeBits(c) + rest)
      case _ => None
  }

  lemma {:induction false} EncodeSnoc(data: seq<byte>, x: byte, table: CodeTable)
    ensures EncodeBits(data + [x], table).Some? <==> EncodeBits(data, table).Some? && table[x].Some?
    ensures EncodeBits(data + [x], table).Some? ==>
      EncodeBits(data + [x], table).value == EncodeBits(data, table).value + CodeBits(table[x].value)
  {
    if data == [] {
      assert [x][1..] == [];
      if table[x].Some? {
        assert CodeBits(table[x].value) + [] == [] + CodeBits(table[x].value);
      }
    } else {
      assert (data + [x])[0] == data[0];
      assert (data + [x])[1..] == data[1..] + [x];
      EncodeSnoc(data[1..], x, table);
    }
  }

  /** Under the code table of a tree with distinct symbols, every string
      of its symbols has a code. */
  lemma {:induction false} EncodeUnderTree(t: TreeNode, data: seq<byte>)
    requires Distinct(t)
    requires forall i :: 0 <= i < |data| ==> data[i] in Symbols(t)
    ensures EncodeBits(data, CodeTableOf(Some(t))).Some?
  {
    if data != [] {
      EncodeUnderTree(t, data[1..]);
      CodeTableAt(Some(t), data[0]);
    }
  }

  /** The tree built from a nonempty file's own counts has distinct
      symbols, and they are exactly the bytes that occur in the file. */
  lemma CodeTree(data: seq<byte>)
    requires data != []
    ensures var t := BuildSpec(ByteOrder(Histogram(data)));
      && t.Some? && Distinct(t.value)
      && forall b: byte :: b in Symbols(t.value) <==> b in multiset(data)
  {
    var f := Histogram(data);
    var letters := ByteOrder(f);
    ByteOrderFacts(f);
    ByteOrderAscending(f);
    BuildSpecShape(letters);
    assert Letter(data[0], f[data[0]]) in letters;
    var t := BuildSpec(letters).value;
    DistinctTree(t, letters);
    forall b: byte
      ensures b in Symbols(t) <==> b in multiset(data)
    {
      if b in multiset(data) {
        assert Letter(b, f[b]) in letters;
      }
      if b in Symbols(t) {
        var i :| 0 <= i < |letters| && letters[i].letter == b;
        assert letters[i] in letters;
      }
    }
  }

  /** Every byte of a file has a code in the table built from the file's
      own counts: the NULL-code exit of `compressFile` is never taken. */
  lemma EveryByteCoded(data: seq<byte>)
    ensures EncodeBits(data, CodesFromFrequencies(Histogram(data))).Some?
  {
    if data != [] {
      CodeTree(data);
      var t := BuildSpec(ByteOrder(Histogram(data))).value;
      forall i | 0 <= i < |data|
        ensures data[i] in Symbols(t)
      {
        assert data[i] in multiset(data);
      }
      EncodeUnderTree(t, data);
    }
  }

  /** The file `compressFile` writes for `data`: the header, then the
      packed codes of every byte. */
  function CompressedImage(data: seq<byte>): (r: seq<byte>)
    ensures HeaderBytes(|data|, Histogram(data)) <= r
  {
    EveryByteCoded(data);
    HeaderBytes(|data|, Histogram(data)) + Pack(EncodeBits(data, CodesFromFrequencies(Histogram(data))).value)
  }

  /** The total of a table of counts, added up slot by slot. */
  function Total(f: seq<nat>): nat
  {
    if f == [] then 0 else Total(f[..|f| - 1]) + f[|f| - 1]
  }

  lemma {:induction false} TotalBump(f: seq<nat>, k: nat)
    requires k < |f|
    ensures Total(f[k := f[k] + 1]) == Total(f) + 1
  {
    var g := f[k := f[k] + 1];
    if k < |f| - 1 {
      assert g[..|g| - 1] == f[..|f| - 1][k := f[k] + 1];
      TotalBump(f[..|f| - 1], k);
    } else {
      assert g[..|g| - 1] == f[..|f| - 1];
    }
  }

  /** The counts of a file add up to its length. */
  lemma {:induction false} HistogramTotal(data: seq<byte>)
    ensures Total(Histogram(data)) == |data|
  {
    if data == [] {
      AllZeroTotal(Histogram(data));
    } else {
      var init, x := data[..|data| - 1], data[|data| - 1];
      assert data == init + [x];
      HistogramTotal(init);
      assert Histogram(data) == Histogram(init)[x as int := Histogram(init)[x] + 1];
      TotalBump(Histogram(init), x as int);
    }
  }

  lemma {:induction false} AllZeroTotal(f: seq<nat>)
    requires forall i :: 0 <= i < |f| ==> f[i] == 0
    ensures Total(f) == 0
  {
    if f != [] { AllZeroTotal(f[..|f| - 1]); }
  }

  lemma ShiftedEven(v: int)
    ensures (v * 2) % 256 % 2 == 0
  {
    ModOfMultiple(v * 2, 2, 128);
    DivModUnique(v * 2, 2, v, 0);
  }

  /** The loop of `compressFile` that copies the counts out of the global
      table into `frequencies` and adds them up into `total_chars`. */
  method CopyCounts(alphabet: Alphabet) returns (frequencies: array<nat>, totalChars: nat)
    requires alphabet.Valid()
    ensures fresh(frequencies)
    ensures frequencies[..] == alphabet.Frequencies() && totalChars == Total(alphabet.Frequencies())
  {
    ghost var f := alphabet.Frequencies();
    frequencies := new nat[256];
    totalChars := 0;
    for i := 0 to 256
      invariant frequencies[..i] == f[..i]
      invariant totalChars == Total(f[..i])
    {
      assert f[..i + 1][..i] == f[..i];
      frequencies[i] := alphabet.slots[i].frequency;
      totalChars := totalChars + alphabet.slots[i].frequency;
    }
    assert f[..256] == f;
    assert frequencies[..] == frequencies[..256];
  }

  /** The packing loop's state: `out` holds the header and every byte
      flushed so far, and the low `bitCount` bits of `byteBuffer` are the
      bits not yet flushed. */
  ghost predicate Packed(header: seq<byte>, bits: seq<bool>, out: seq<byte>, byteBuffer: byte, bitCount: nat)
  {
    out == header + FullBytes(bits) && bitCount == |Pending(bits)| &&
    byteBuffer as int % Pow2(bitCount) == BitsValue(Pending(bits))
  }

  /** The inner loop of `compressFile`: shift one code into the buffer a
      bit at a time, writing the buffer out whenever it holds eight bits. */
  method ShiftCode(code: string, out: seq<byte>, byteBuffer: byte, bitCount: nat,
                   ghost header: seq<byte>, ghost bits: seq<bool>)
    returns (out': seq<byte>, byteBuffer': byte, bitCount': nat, ghost bits': seq<bool>)
    requires Packed(header, bits, out, byteBuffer, bitCount)
    ensures bits' == bits + CodeBits(code)
    ensures Packed(header, bits', out', byteBuffer', bitCount')
  {
    out', byteBuffer', bitCount', bits' := out, byteBuffer, bitCount, bits;
    for i := 0 to |code|
      invariant bits' == bits + CodeBits(code[..i])
      invariant Packed(header, bits', out', byteBuffer', bitCount')
    {
      CodeBitsSnoc(code, i);
      out', byteBuffer', bitCount' := ShiftBit(code[i] == '1', out', byteBuffer', bitCount', header, bits');
      bits' := bits' + [code[i] == '1'];
    }
    assert code[..|code|] == code;
  }

  /** One pass of the inner loop: `byteBuffer <<= 1`, set the low bit for
      a '1', count it, and write the buffer out and reset it at eight. */
  method ShiftBit(x: bool, out: seq<byte>, byteBuffer: byte, bitCount: nat, ghost header: seq<byte>, ghost bits: seq<bool>)
    returns (out': seq<byte>, byteBuffer': byte, bitCount': nat)
    requires Packed(header, bits, out, byteBuffer, bitCount)
    ensures Packed(header, bits + [x], out', byteBuffer', bitCount')
  {
    ShiftedEven(byteBuffer as int);
    byteBuffer' := ((byteBuffer as int * 2) % 256) as byte;
    if x {
      byteBuffer' := OrOne(byteBuffer');
    }
    bitCount' := bitCount + 1;
    out' := out;
    if bitCount' == 8 {
      PushFull(header, bits, out, byteBuffer, bitCount, x, byteBuffer');
      out' := out + [byteBuffer'];
      bitCount' := 0;
      byteBuffer' := 0;
    } else {
      PushPending(header, bits, out, byteBuffer, bitCount, x, byteBuffer');
    }
  }

  /** A shifted-in bit that leaves the buffer short of eight bits stays
      pending. */
  lemma PushPending(header: seq<byte>, bits: seq<bool>, out: seq<byte>, b: byte, c: nat, x: bool, b': byte)
    requires Packed(header, bits, out, b, c) && c < 7
    requires b' as int == (b as int * 2) % 256 + Bit(x)
    ensures Packed(header, bits + [x], out, b', c + 1)
  {
    PackStep(bits, x);
    ShiftInBit(b, c, x);
    BitsValueSnoc(Pending(bits), x);
  }

  /** The eighth bit completes the byte that is written out. */
  lemma PushFull(header: seq<byte>, bits: seq<bool>, out: seq<byte>, b: byte, c: nat, x: bool, b': byte)
    requires Packed(header, bits, out, b, c) && c == 7
    requires b' as int == (b as int * 2) % 256 + Bit(x)
    ensures Packed(header, bits + [x], out + [b'], 0, 0)
  {
    PackStep(bits, x);
    ShiftInBit(b, c, x);
    var p := Pending(bits);
    BitsValueSnoc(p, x);
    assert Pow2(8) == 256;
    DivModUnique(b' as int, 256, 0, b' as int);
    assert b' as int == BitsValue(p + [x]);
    assert b' == ByteOf(p + [x]);
    assert out + [b'] == header + FullBytes(bits + [x]);
  }

  lemma BitsValueSnoc(p: seq<bool>, x: bool)
    ensures BitsValue(p + [x]) == 2 * BitsValue(p) + Bit(x)
  {
    assert (p + [x])[..|p|] == p;
  }

  lemma CodeBitsSnoc(code: string, i: nat)
    requires i < |code|
    ensures CodeBits(code[..i + 1]) == CodeBits(code[..i]) + [code[i] == '1']
  {
    var l, r := CodeBits(code[..i + 1]), CodeBits(code[..i]) + [code[i] == '1'];
    assert forall k :: 0 <= k < i + 1 ==> l[k] == r[k];
  }

  /** The outer loop of `compressFile` and the final partial byte: the
      payload after `header`, or what was written up to the first byte
      without a code. */
  method PackData(data: seq<byte>, codigos: CodeTable, header: seq<byte>, junk: byte) returns (out: seq<byte>)
    ensures header <= out
    ensures EncodeBits(data, codigos).Some? ==> out == header + Pack(EncodeBits(data, codigos).value)
  {
    out := header;
    var byteBuffer: byte := junk;
    var bitCount := 0;
    ghost var bits: seq<bool> := [];
    for j := 0 to |data|
      invariant EncodeBits(data[..j], codigos) == Some(bits)
      invariant Packed(header, bits, out, byteBuffer, bitCount)
    {
      var character := data[j];
      var code := codigos[character];
      assert data[..j + 1] == data[..j] + [character];
      EncodeSnoc(data[..j], character, codigos);
      if code.None? {
        PrefixUncoded(data, j + 1, codigos);
        return;
      }
      out, byteBuffer, bitCount, bits := ShiftCode(code.value, out, byteBuffer, bitCount, header, bits);
    }
    assert data[..|data|] == data;
    PackSplit(bits);
    if bitCount > 0 {
      LastByte(Pending(bits), byteBuffer);
      byteBuffer := ((byteBuffer as int * Pow2(8 - bitCount)) % 256) as byte;
      out := out + [byteBuffer];
    }
  }

  /** An uncoded byte in a prefix leaves the whole input uncoded. */
  lemma {:induction false} PrefixUncoded(data: seq<byte>, k: nat, table: CodeTable)
    requires k <= |data| && EncodeBits(data[..k], table).None?
    ensures EncodeBits(data, table).None?
    decreases |data| - k
  {
    if k < |data| {
      assert data[..k + 1] == data[..k] + [data[k]];
      EncodeSnoc(data[..k], data[k], table);
      PrefixUncoded(data, k + 1, table);
    } else {
      assert data[..k] == data;
    }
  }

  /** `compressFile(inputFileName, outputFileName)`. Both files are opened
      first, so a missing input still leaves an empty output file behind.
      The header holds the counts of the input; then every input byte's
      code goes bit by bit into `byteBuffer`, which is flushed after every
      eighth bit, and a last partial byte is shifted to the top. `junk` is
      the uninitialised initial `byteBuffer`; it never shows in the output.
      Every byte has a code, so the loop's exit for a NULL code is never
      taken here. */
  method CompressFile(input: Option<seq<byte>>, outputOk: bool, junk: byte) returns (output: Option<seq<byte>>)
    ensures input.None? ==> output == if outputOk then Some([]) else None
    ensures input.Some? && !outputOk ==> output == None
    ensures input.Some? && outputOk ==> output == Some(CompressedImage(input.value))
  {
    if input.None? {
      return if outputOk then Some([]) else None;
    }
    if !outputOk {
      return None;
    }
    var data := input.value;
    var alphabet := new Alphabet();
    alphabet.InitGlobalAlphabet();
    alphabet.ReadTextFile(input);
    assert alphabet.Frequencies() == Histogram(data);
    var frequencies, totalChars := CopyCounts(alphabet);
    HistogramTotal(data);
    var header := HeaderBytes(totalChars, frequencies[..]);
    var codigos := ObtenerCodigos(alphabet, input);
    var out := PackData(data, codigos, header, junk);
    EveryByteCoded(data);
    output := Some(out);
  }

  /** `byteBuffer |= 1`: the lowest bit becomes 1 and the seven above it stay. */
  function OrOne(b: byte): (r: byte)
    ensures r as int % 2 == 1 && r as int / 2 == b as int / 2
  {
    if b as int % 2 == 0 then b + 1 else b
  }

  /** `OrOne` agrees with the bitwise OR with 1 on every 8-bit value. */
  lemma OrOneIsBitwiseOr(x: bv8)
    ensures OrOne(x as int as byte) as int == (x | 1) as int
  {
    var y := x | 1;
    assert y as int % 2 == 1 && y as int / 2 == x as int / 2;
    var r := OrOne(x as int as byte) as int;
    assert r == 2 * (r / 2) + r % 2;
    assert y as int == 2 * (y as int / 2) + y as int % 2;
  }

  /** The file `compressFile(input, temp)` leaves at `temp`: none
      when the temporary file cannot be created, an empty one when the input
      cannot be opened, and otherwise the compressed image. */
  function ChildTemp(input: Option<seq<byte>>, tempOk: bool): Option<seq<byte>>
  {
    if !tempOk then None else if input.None? then Some([]) else Some(CompressedImage(input.value))
  }

  /** The temporary files of a list of inputs, by index: file `i` goes to
      temporary file `i`. */
  function ChildTemps(names: seq<seq<byte>>, files: seq<byte> -> Option<seq<byte>>, tempOk: int -> bool): (r: seq<Option<seq<byte>>>)
    ensures |r| == |names|
  {
    seq(|names|, i requires 0 <= i < |names| => ChildTemp(files(names[i]), tempOk(i)))
  }
}
