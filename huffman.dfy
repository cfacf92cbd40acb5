/**
 * `encode`, `compress` and `decompress` of A4/huffman.py: the frequency
 * table, the merge loop that builds the code tree, the packing of the bit
 * string into bytes and its unpacking.
 */
module Huffman {
  import opened Wrappers
  import opened HuffmanTree
  import opened HuffmanSort
  import opened HuffmanCode

  // ---------------------------------------------------------------------------
  // Frequencies (lines 43-50)
  // ---------------------------------------------------------------------------

  /**
   * What the loop of lines 43-46 keeps: the table holds the count of each
   * byte read so far, and its keys are listed in order of first occurrence.
   */
  ghost predicate Tallied(freq: map<Byte, nat>, symbols: seq<Byte>, prefix: seq<Byte>)
  {
    && symbols == FirstOccurrences(prefix)
    && (forall c :: c in freq <==> c in prefix)
    && (forall c :: c in freq ==> freq[c] == multiset(prefix)[c])
  }

  /** Counting one more byte keeps the table right. */
  lemma TallyStep(freq: map<Byte, nat>, symbols: seq<Byte>, prefix: seq<Byte>, c: Byte)
    requires Tallied(freq, symbols, prefix)
    ensures Tallied(freq[c := Freq(freq, c) + 1], if c in freq then symbols else symbols + [c], prefix + [c])
  {
    FirstOccurrencesSnoc(prefix, c);
    CountSnoc(freq, prefix, c);
  }

  lemma FirstOccurrencesSnoc(prefix: seq<Byte>, c: Byte)
    ensures FirstOccurrences(prefix + [c])
      == if c in prefix then FirstOccurrences(prefix) else FirstOccurrences(prefix) + [c]
  {
    var m := prefix + [c];
    assert m[..|m| - 1] == prefix;
  }

  lemma CountSnoc(freq: map<Byte, nat>, prefix: seq<Byte>, c: Byte)
    requires forall b :: b in freq <==> b in prefix
    requires forall b :: b in freq ==> freq[b] == multiset(prefix)[b]
    ensures var f := freq[c := Freq(freq, c) + 1];
      && (forall b :: b in f <==> b in prefix + [c])
      && (forall b :: b in f ==> f[b] == multiset(prefix + [c])[b])
  {
    assert multiset(prefix + [c]) == multiset(prefix) + multiset{c};
  }

  lemma PrefixSnoc<T>(s: seq<T>, i: int)
    requires 0 <= i < |s|
    ensures s[..i + 1] == s[..i] + [s[i]]
  {
  }

  /**
   * Lines 43-46 of `encode`: counts each byte of the message. The keys of
   * the dictionary come in order of first occurrence, as `keys()` lists them.
   */
  method CountFrequencies(message: seq<Byte>) returns (freq: map<Byte, nat>, symbols: seq<Byte>)
    ensures symbols == FirstOccurrences(message)
    ensures forall c :: c in freq <==> c in message
    ensures forall c :: c in freq ==> freq[c] == multiset(message)[c]
    ensures SumOf(freq, symbols) == |message|
  {
    freq := map[];
    symbols := [];
    for i := 0 to |message|
      invariant Tallied(freq, symbols, message[..i])
    {
      var c := message[i];
      TallyStep(freq, symbols, message[..i], c);
      PrefixSnoc(message, i);
      if c !in freq {
        symbols := symbols + [c];
      }
      freq := freq[c := Freq(freq, c) + 1];
    }
    assert message[..|message|] == message;
    SumOfCounts(freq, message, symbols);
    CountsSum(message);
  }

  /** Python's order on the pairs `(frequency, byte)`: by frequency, then by byte. */
  predicate LeafBefore(a: Entry, b: Entry)
    requires a.Leaf? && b.Leaf?
  {
    a.weight < b.weight || (a.weight == b.weight && a.symbol <= b.symbol)
  }

  predicate AllLeaves(s: seq<Entry>)
  {
    forall k :: 0 <= k < |s| ==> s[k].Leaf?
  }

  predicate SortedLeaves(s: seq<Entry>)
    requires AllLeaves(s)
  {
    forall x, y :: 0 <= x < y < |s| ==> LeafBefore(s[x], s[y])
  }

  /** Puts a leaf into a sorted list of leaves at its place. */
  function InsertLeaf(e: Entry, s: seq<Entry>): (r: seq<Entry>)
    requires e.Leaf? && AllLeaves(s) && SortedLeaves(s)
    ensures |r| == |s| + 1
    ensures AllLeaves(r) && SortedLeaves(r)
    ensures multiset(r) == multiset(s) + multiset{e}
    ensures forall k :: 0 <= k < |r| ==> r[k] == e || r[k] in s
  {
    if s == [] || LeafBefore(e, s[0]) then [e] + s
    else
      var rest := InsertLeaf(e, s[1..]);
      assert s == [s[0]] + s[1..];
      HeadBefore(e, s, rest);
      [s[0]] + rest
  }

  /** The head of a sorted list comes before the rest and before a leaf that does not come before it. */
  lemma HeadBefore(e: Entry, s: seq<Entry>, rest: seq<Entry>)
    requires e.Leaf? && AllLeaves(s) && SortedLeaves(s) && s != [] && !LeafBefore(e, s[0])
    requires forall k :: 0 <= k < |rest| ==> rest[k] == e || rest[k] in s[1..]
    ensures forall k :: 0 <= k < |rest| ==> rest[k].Leaf? && LeafBefore(s[0], rest[k])
  {
    forall k | 0 <= k < |rest|
      ensures rest[k].Leaf? && LeafBefore(s[0], rest[k])
    {
      if rest[k] != e {
        var j :| 0 <= j < |s[1..]| && s[1..][j] == rest[k];
        assert s[j + 1] == rest[k];
      }
    }
  }

  /**
   * `raw_data.sort()` (line 52): Python's own sort of the pairs
   * `(frequency, byte)`; the model sorts by insertion, which gives the same
   * list since no two pairs are equal.
   */
  function SortLeaves(s: seq<Entry>): (r: seq<Entry>)
    requires AllLeaves(s)
    ensures AllLeaves(r) && SortedLeaves(r)
    ensures multiset(r) == multiset(s) && |r| == |s|
  {
    if s == [] then []
    else
      assert s == [s[0]] + s[1..];
      InsertLeaf(s[0], SortLeaves(s[1..]))
  }

  /** The bytes of a list of leaves are the bytes they carry. */
  lemma {:induction false} LeafSymbols(raw: seq<Entry>, symbols: seq<Byte>)
    requires |raw| == |symbols|
    requires forall k :: 0 <= k < |raw| ==> raw[k].Leaf? && raw[k].symbol == symbols[k]
    ensures Symbols(raw) == multiset(symbols)
  {
    if raw != [] {
      assert symbols == [symbols[0]] + symbols[1..];
      LeafSymbols(raw[1..], symbols[1..]);
    }
  }

  // ---------------------------------------------------------------------------
  // The merge loop (lines 54-62)
  // ---------------------------------------------------------------------------

  /**
   * The invariant of the merge loop, as the comment at the head of the
   * source states it: the entries stand for the distinct bytes, each once,
   * and each entry weighs the frequencies of its bytes.
   */
  ghost predicate Partition(freq: map<Byte, nat>, symbols: seq<Byte>, raw: seq<Entry>)
  {
    && Symbols(raw) == multiset(symbols)
    && forall e :: e in raw ==> Weighed(freq, e)
  }

  /** The partition does not depend on the order of the entries. */
  lemma PartitionPerm(freq: map<Byte, nat>, symbols: seq<Byte>, s: seq<Entry>, t: seq<Entry>)
    requires Partition(freq, symbols, s) && multiset(s) == multiset(t)
    ensures Partition(freq, symbols, t)
  {
    SymbolsPerm(s, t);
    forall e | e in t
      ensures e in s
    {
      assert e in multiset(t);
    }
  }

  /**
   * Replacing the two first entries by their merge, and then reordering,
   * keeps the partition.
   */
  lemma MergeKeeps(freq: map<Byte, nat>, symbols: seq<Byte>, raw: seq<Entry>, next: seq<Entry>)
    requires |raw| >= 2 && Partition(freq, symbols, raw)
    requires multiset(next) == multiset(raw[2..] + [Merged(raw[0].weight + raw[1].weight, raw[0], raw[1])])
    ensures Partition(freq, symbols, next)
  {
    var merged := Merged(raw[0].weight + raw[1].weight, raw[0], raw[1]);
    var joined := raw[2..] + [merged];
    MergedSymbols(raw, merged);
    MergeWeighed(freq, raw[0], raw[1]);
    forall e | e in joined
      ensures Weighed(freq, e)
    {
      if e != merged {
        assert e in raw[2..];
      }
    }
    PartitionPerm(freq, symbols, joined, next);
  }

  /** The merge of the two first entries stands for the bytes they stood for. */
  lemma MergedSymbols(raw: seq<Entry>, merged: Entry)
    requires |raw| >= 2 && merged == Merged(raw[0].weight + raw[1].weight, raw[0], raw[1])
    ensures Symbols(raw[2..] + [merged]) == Symbols(raw)
  {
    SymbolsConcat(raw[2..], [merged]);
    assert [merged][1..] == [];
    assert raw[1..][1..] == raw[2..];
  }

  /** Lines 47-50 of `encode`: a leaf `(frequency, byte)` for each key, in the order of the keys. */
  method InitialLeaves(freq: map<Byte, nat>, symbols: seq<Byte>) returns (raw: seq<Entry>)
    requires forall c :: c in symbols ==> c in freq
    ensures |raw| == |symbols|
    ensures forall i :: 0 <= i < |raw| ==> raw[i] == Leaf(freq[symbols[i]], symbols[i])
  {
    raw := [];
    for k := 0 to |symbols|
      invariant |raw| == k
      invariant forall i :: 0 <= i < k ==> raw[i] == Leaf(freq[symbols[i]], symbols[i])
    {
      raw := raw + [Leaf(freq[symbols[k]], symbols[k])];
    }
  }

  /** The first leaves, sorted as Python sorts them, make a partition sorted by weight. */
  lemma StartPartition(freq: map<Byte, nat>, symbols: seq<Byte>, raw: seq<Entry>)
    requires forall c :: c in symbols ==> c in freq
    requires |raw| == |symbols|
    requires forall i :: 0 <= i < |raw| ==> raw[i] == Leaf(freq[symbols[i]], symbols[i])
    ensures AllLeaves(raw)
    ensures Partition(freq, symbols, SortLeaves(raw))
    ensures SortedBetween(SortLeaves(raw), 0, |raw| - 1)
  {
    LeavesPartition(freq, symbols, raw);
    PartitionPerm(freq, symbols, raw, SortLeaves(raw));
    SortedByWeight(SortLeaves(raw));
  }

  /** One leaf per key, weighing its frequency, makes a partition. */
  lemma LeavesPartition(freq: map<Byte, nat>, symbols: seq<Byte>, raw: seq<Entry>)
    requires forall c :: c in symbols ==> c in freq
    requires |raw| == |symbols|
    requires forall i :: 0 <= i < |raw| ==> raw[i] == Leaf(freq[symbols[i]], symbols[i])
    ensures Partition(freq, symbols, raw)
  {
    LeafSymbols(raw, symbols);
    forall e | e in raw
      ensures Weighed(freq, e)
    {
      assert EntryLeaves(e)[1..] == [];
    }
  }

  /**
   * One pass of the loop of `encode` (lines 55-60): the two first entries
   * are replaced by their merge, whose weight is the sum of theirs, and the
   * list is sorted by weight again.
   */
  method MergeLightest(raw: seq<Entry>) returns (next: seq<Entry>)
    requires |raw| >= 2
    ensures |next| == |raw| - 1
    ensures multiset(next) == multiset(raw[2..] + [Merged(raw[0].weight + raw[1].weight, raw[0], raw[1])])
    ensures SortedBetween(next, 0, |next| - 1)
  {
    var lowest := raw[0..2];
    var higher := raw[2..];
    var x := lowest[0].weight + lowest[1].weight;
    var joined := higher + [Merged(x, lowest[0], lowest[1])];
    var arr := new Entry[|joined|](i requires 0 <= i < |joined| => joined[i]);
    assert arr[..] == joined;
    QuickSort(arr, 0, arr.Length - 1);
    next := arr[..];
  }

  /**
   * The code book `encode` returns for a message: the keys are the distinct
   * bytes of the message, each once, the codes are bit strings and
   * prefix-free, and the codes have at least one bit when the message has
   * two distinct bytes or more; a message of one distinct byte gets the
   * empty code.
   */
  ghost predicate Book(message: seq<Byte>, codex: Codex)
  {
    && Distinct(Keys(codex))
    && (forall c :: c in message <==> c in Keys(codex))
    && PrefixFree(codex)
    && (forall k :: 0 <= k < |codex| ==> IsBits(codex[k].1))
    && (|FirstOccurrences(message)| >= 2 ==> Unambiguous(codex))
    && (|FirstOccurrences(message)| == 1 ==> codex == [(message[0], "")])
  }

  /**
   * `encode`: builds the code tree by merging the two lightest entries
   * until one is left, makes the code book and encodes the message. An
   * empty message fails at `raw_data[0]`, and the result is None. The
   * ghost `root` is the last entry: it weighs the length of the message
   * and stands for each distinct byte once.
   */
  method Encode(message: seq<Byte>) returns (result: Option<(Bits, Codex)>, ghost root: Entry)
    ensures result.None? <==> message == []
    ensures result.Some? ==> Book(message, result.value.1) && result.value.0 == EncodeWith(result.value.1, message)
    ensures result.Some? ==> result.value.1 == CodeMaker(Trim(root))
    ensures result.Some? ==> root.weight == |message|
    ensures result.Some? ==> multiset(EntryLeaves(root)) == multiset(FirstOccurrences(message))
  {
    var freq, symbols := CountFrequencies(message);
    var raw := InitialLeaves(freq, symbols);
    StartPartition(freq, symbols, raw);
    raw := SortLeaves(raw);
    ghost var passes := 0;
    while |raw| > 1
      invariant Partition(freq, symbols, raw)
      invariant SortedBetween(raw, 0, |raw| - 1)
      invariant |raw| + passes == |symbols|
      decreases |raw|
    {
      var next := MergeLightest(raw);
      MergeKeeps(freq, symbols, raw, next);
      raw := next;
      passes := passes + 1;
    }
    if |raw| == 0 {
      assert multiset(symbols) == multiset{};
      return None, Leaf(0, 0);
    }
    var top := raw[0];
    root := top;
    LastEntry(freq, symbols, raw);
    RootWeight(freq, message, symbols, top);
    RootBook(message, symbols, top);
    var codex := CodeMaker(Trim(top));
    var bits := EncodeMessage(codex, message);
    result := Some((bits, codex));
  }

  /** Leaves sorted as Python sorts the pairs are sorted by weight. */
  lemma SortedByWeight(raw: seq<Entry>)
    requires AllLeaves(raw) && SortedLeaves(raw)
    ensures SortedBetween(raw, 0, |raw| - 1)
  {
    forall x, y | 0 <= x < y <= |raw| - 1
      ensures WeightAt(raw, x) <= WeightAt(raw, y)
    {
      assert LeafBefore(raw[x], raw[y]);
    }
  }

  /** When one entry is left, it stands for each distinct byte once and weighs their frequencies. */
  lemma LastEntry(freq: map<Byte, nat>, symbols: seq<Byte>, raw: seq<Entry>)
    requires |raw| == 1 && Partition(freq, symbols, raw)
    ensures multiset(EntryLeaves(raw[0])) == multiset(symbols)
    ensures Weighed(freq, raw[0])
  {
    assert raw[1..] == [];
    assert Symbols(raw) == multiset(EntryLeaves(raw[0])) + Symbols(raw[1..]);
    assert raw[0] in raw;
  }

  /** The last entry weighs the length of the message. */
  lemma RootWeight(freq: map<Byte, nat>, message: seq<Byte>, symbols: seq<Byte>, root: Entry)
    requires SumOf(freq, symbols) == |message|
    requires multiset(EntryLeaves(root)) == multiset(symbols)
    requires Weighed(freq, root)
    ensures root.weight == |message|
  {
    SumOfPerm(freq, EntryLeaves(root), symbols);
  }

  /** The code book made from the last entry is the one `Book` describes. */
  lemma RootBook(message: seq<Byte>, symbols: seq<Byte>, root: Entry)
    requires symbols == FirstOccurrences(message)
    requires multiset(EntryLeaves(root)) == multiset(symbols)
    ensures Book(message, CodeMaker(Trim(root)))
  {
    var leaves := EntryLeaves(root);
    DistinctPerm(symbols, leaves);
    var tree := Trim(root);
    CodeMakerPaths(tree);
    var codex := CodeMaker(tree);
    forall c
      ensures c in message <==> c in Keys(codex)
    {
      assert c in leaves <==> c in multiset(symbols);
    }
    assert |leaves| == |symbols| by {
      assert |multiset(leaves)| == |multiset(symbols)|;
    }
    if |symbols| == 1 {
      assert root.Leaf?;
      assert leaves[0] in multiset(symbols);
      assert message[0] in symbols;
    }
  }

  // ---------------------------------------------------------------------------
  // Bytes and bits (lines 151-162, 174-183)
  // ---------------------------------------------------------------------------

  function Pow2(n: nat): (p: nat)
    ensures p >= 1
  {
    if n == 0 then 1 else 2 * Pow2(n - 1)
  }

  function Digit(b: int): char
  {
    if b == 1 then '1' else '0'
  }

  /** `int(s, 2)`: the value of a bit string read most significant bit first. */
  function Value(s: Bits): (v: nat)
    requires IsBits(s)
    ensures v < Pow2(|s|)
  {
    if s == [] then 0
    else 2 * Value(s[..|s| - 1]) + (if s[|s| - 1] == '1' then 1 else 0)
  }

  /** `bin(v)[2:]`: the binary digits of v without leading zeros ("0" for 0). */
  function Bin(v: nat): (s: Bits)
    ensures IsBits(s) && |s| >= 1
    ensures Value(s) == v
  {
    if v < 2 then [Digit(v)]
    else
      var s := Bin(v / 2) + [Digit(v % 2)];
      assert s[..|s| - 1] == Bin(v / 2);
      s
  }

  /** A string of k zero characters. */
  function Zeros(k: nat): (z: Bits)
    ensures |z| == k && IsBits(z)
  {
    seq(k, _ => '0')
  }

  /** `s.rjust(n, '0')`: s with zeros put in front up to length n. */
  function RJust(s: Bits, n: nat): Bits
  {
    if |s| >= n then s else Zeros(n - |s|) + s
  }

  /** `bin(v)[2:].rjust(8, '0')`: the eight bits of a byte, most significant first. */
  function ByteBits(v: Byte): (s: Bits)
    ensures |s| == 8 && IsBits(s) && Value(s) == v
  {
    BinLength(v, 8);
    LeadingZeros(8 - |Bin(v)|, Bin(v));
    RJust(Bin(v), 8)
  }

  /** A number below 2^n has at most n binary digits. */
  lemma {:induction false} BinLength(v: nat, n: nat)
    requires 1 <= n && v < Pow2(n)
    ensures |Bin(v)| <= n
  {
    if v >= 2 {
      BinLength(v / 2, n - 1);
    }
  }

  /** Zeros in front do not change the value. */
  lemma {:induction false} LeadingZeros(k: nat, s: Bits)
    requires IsBits(s)
    ensures Value(Zeros(k) + s) == Value(s)
    decreases |s|
  {
    var z := Zeros(k) + s;
    if s == [] {
      assert z == Zeros(k);
      AllZeros(k);
    } else {
      assert z[..|z| - 1] == Zeros(k) + s[..|s| - 1];
      LeadingZeros(k, s[..|s| - 1]);
    }
  }

  lemma {:induction false} AllZeros(k: nat)
    ensures Value(Zeros(k)) == 0
  {
    if k > 0 {
      assert Zeros(k)[..k - 1] == Zeros(k - 1);
      AllZeros(k - 1);
    }
  }

  /** Two bit strings of the same length and value are the same string. */
  lemma {:induction false} ValueInjective(a: Bits, b: Bits)
    requires IsBits(a) && IsBits(b) && |a| == |b| && Value(a) == Value(b)
    ensures a == b
  {
    if a != [] {
      var n := |a|;
      ValueInjective(a[..n - 1], b[..n - 1]);
      assert a == a[..n - 1] + [a[n - 1]];
      assert b == b[..n - 1] + [b[n - 1]];
    }
  }

  /** The eight-bit text of the value of eight bits is those bits. */
  lemma ByteBitsValue(chunk: Bits)
    requires IsBits(chunk) && |chunk| == 8
    ensures Value(chunk) < 256 && ByteBits(Value(chunk)) == chunk
  {
    ValueInjective(ByteBits(Value(chunk)), chunk);
  }

  /** Lines 159-162 of `compress`: each run of eight bits becomes one byte. */
  function Pack(bits: Bits): (packed: seq<Byte>)
    requires IsBits(bits) && |bits| % 8 == 0
    ensures |packed| * 8 == |bits|
  {
    if bits == [] then []
    else
      LastChunk(bits);
      var chunk := bits[|bits| - 8..];
      ByteBitsValue(chunk);
      Pack(bits[..|bits| - 8]) + [Value(chunk)]
  }

  /** A nonempty run of whole bytes ends in eight bits, after whole bytes. */
  lemma LastChunk(bits: Bits)
    requires IsBits(bits) && |bits| % 8 == 0 && bits != []
    ensures |bits| >= 8 && (|bits| - 8) % 8 == 0
    ensures IsBits(bits[..|bits| - 8]) && IsBits(bits[|bits| - 8..])
    ensures bits == bits[..|bits| - 8] + bits[|bits| - 8..]
  {
  }

  /** Lines 176-180 of `decompress`: each byte becomes its eight bits. */
  function Unpack(bytes: seq<Byte>): (bits: Bits)
    ensures IsBits(bits) && |bits| == 8 * |bytes|
  {
    if bytes == [] then ""
    else Unpack(bytes[..|bytes| - 1]) + ByteBits(bytes[|bytes| - 1])
  }

  /** Unpacking the packed bits gives the bits back. */
  lemma {:induction false} UnpackPack(bits: Bits)
    requires IsBits(bits) && |bits| % 8 == 0
    ensures Unpack(Pack(bits)) == bits
  {
    if bits != [] {
      LastChunk(bits);
      var n := |bits|;
      var front, chunk := bits[..n - 8], bits[n - 8..];
      ByteBitsValue(chunk);
      var packed := Pack(bits);
      assert packed == Pack(front) + [Value(chunk)];
      UnpackLast(packed);
      assert packed[..|packed| - 1] == Pack(front);
      UnpackPack(front);
    }
  }

  /** Packing the unpacked bytes gives the bytes back. */
  lemma {:induction false} PackUnpack(bytes: seq<Byte>)
    ensures Pack(Unpack(bytes)) == bytes
  {
    if bytes != [] {
      var front, last := bytes[..|bytes| - 1], bytes[|bytes| - 1];
      UnpackLast(bytes);
      PackAppend(Unpack(front), ByteBits(last));
      PackUnpack(front);
      SplitLast(bytes);
    }
  }

  /** Packing eight more bits appends their value. */
  lemma PackAppend(front: Bits, chunk: Bits)
    requires IsBits(front) && |front| % 8 == 0 && IsBits(chunk) && |chunk| == 8
    ensures IsBits(front + chunk) && Value(chunk) < 256
    ensures Pack(front + chunk) == Pack(front) + [Value(chunk)]
  {
    var bits := front + chunk;
    LastChunk(bits);
    assert bits[..|bits| - 8] == front && bits[|bits| - 8..] == chunk;
  }

  lemma SplitLast<T>(s: seq<T>)
    requires s != []
    ensures s == s[..|s| - 1] + [s[|s| - 1]]
  {
  }

  lemma PackLast(bits: Bits)
    requires IsBits(bits) && |bits| % 8 == 0 && bits != []
    ensures Value(bits[|bits| - 8..]) < 256
    ensures Pack(bits) == Pack(bits[..|bits| - 8]) + [Value(bits[|bits| - 8..])]
  {
    LastChunk(bits);
    ByteBitsValue(bits[|bits| - 8..]);
  }

  lemma UnpackLast(bytes: seq<Byte>)
    requires bytes != []
    ensures Unpack(bytes) == Unpack(bytes[..|bytes| - 1]) + ByteBits(bytes[|bytes| - 1])
  {
  }

  /** `8 - len(code_message) % 8`: between 1 and 8, and it fills the last byte. */
  function PadFor(n: nat): (pad: int)
    ensures 1 <= pad <= 8 && (n + pad) % 8 == 0
  {
    8 - n % 8
  }

  /**
   * Python's `s[0:stop]`: a negative stop counts from the end, and the
   * bounds are clipped to the string.
   */
  function SliceTo(s: Bits, stop: int): (r: Bits)
    ensures 0 <= stop <= |s| ==> r == s[..stop]
    ensures stop < 0 && stop + |s| >= 0 ==> r == s[..stop + |s|]
    ensures stop + |s| < 0 ==> r == ""
    ensures stop > |s| ==> r == s
  {
    var end := if stop < 0 then stop + |s| else stop;
    s[..if end < 0 then 0 else if end > |s| then |s| else end]
  }

  /** The bits with the zeros `compress` adds at the end to fill the last byte. */
  function Padded(bits: Bits): (padded: Bits)
    requires IsBits(bits)
    ensures IsBits(padded) && |padded| % 8 == 0
    ensures |padded| == |bits| + PadFor(|bits|) && padded[..|bits|] == bits
  {
    bits + Zeros(PadFor(|bits|))
  }

  /**
   * The bits `decompress` recovers from the bytes and the pad that
   * `compress` makes of `bits`.
   */
  ghost function Restored(bits: Bits): Bits
    requires IsBits(bits)
  {
    var packed := Pack(Padded(bits));
    SliceTo(Unpack(packed), |Unpack(packed)| - PadFor(|bits|))
  }

  /**
   * The padding `compress` adds and `decompress` strips: packing the bits
   * with their padding, unpacking the bytes and cutting the padding off
   * gives the bits back.
   */
  lemma PaddingRoundTrip(bits: Bits)
    requires IsBits(bits)
    ensures Restored(bits) == bits
  {
    UnpackPack(Padded(bits));
  }

  // ---------------------------------------------------------------------------
  // compress and decompress
  // ---------------------------------------------------------------------------

  /**
   * `compress`: encodes the message, pads the bits with zeros to whole
   * bytes and packs them. The pad, which the source stores in the code
   * book under the key "pad", is returned beside the code book.
   */
  method Compress(message: seq<Byte>) returns (result: Option<(seq<Byte>, Codex, int)>)
    ensures result.None? <==> message == []
    ensures result.Some? ==> Book(message, result.value.1)
    ensures result.Some? ==> result.value.2 == PadFor(|EncodeWith(result.value.1, message)|)
    ensures result.Some? ==> result.value.0 == Pack(Padded(EncodeWith(result.value.1, message)))
  {
    var encoded, root := Encode(message);
    if encoded.None? {
      return None;
    }
    var code, codex := encoded.value.0, encoded.value.1;
    var packed, pad := PackCode(code);
    result := Some((packed, codex, pad));
  }

  /** Whole bytes: a run of eight bits starting at a multiple of eight fits. */
  lemma NextChunk(n: int, i: int)
    requires 0 <= i < n && n % 8 == 0 && i % 8 == 0
    ensures i + 8 <= n && (i + 8) % 8 == 0
  {
  }

  /**
   * Lines 151-162 of `compress` after the call to `encode`: the pad, the
   * zeros and the packing of the bits into bytes.
   */
  method PackCode(code: Bits) returns (packed: seq<Byte>, pad: int)
    requires IsBits(code)
    ensures pad == PadFor(|code|) && packed == Pack(Padded(code))
  {
    pad := 8 - |code| % 8;
    var padded := PadBits(code, pad);
    assert padded == Padded(code);
    packed := PackBytes(padded);
  }

  /** Packing eight more bits appends one byte. */
  lemma PackSnoc(code: Bits, i: int)
    requires IsBits(code) && 0 <= i && i + 8 <= |code| && i % 8 == 0
    ensures Value(code[i..i + 8]) < 256
    ensures Pack(code[..i + 8]) == Pack(code[..i]) + [Value(code[i..i + 8])]
  {
    ByteBitsValue(code[i..i + 8]);
    assert code[..i + 8][..i] == code[..i] && code[..i + 8][i..] == code[i..i + 8];
  }

  /** Lines 155-157 of `compress`: appends `pad` zeros to the bits. */
  method PadBits(code: Bits, pad: nat) returns (padded: Bits)
    ensures padded == code + Zeros(pad)
  {
    padded := code;
    for i := 0 to pad
      invariant padded == code + Zeros(i)
    {
      assert Zeros(i + 1) == Zeros(i) + "0";
      padded := padded + "0";
    }
  }

  /** Lines 159-162 of `compress`: the loop over the runs of eight bits. */
  method PackBytes(code: Bits) returns (packed: seq<Byte>)
    requires IsBits(code) && |code| % 8 == 0
    ensures packed == Pack(code)
  {
    packed := [];
    var i := 0;
    while i < |code|
      invariant 0 <= i <= |code| && i % 8 == 0
      invariant packed == Pack(code[..i])
    {
      NextChunk(|code|, i);
      var chunk := code[i..i + 8];
      PackSnoc(code, i);
      var byte: Byte := Value(chunk);
      packed := packed + [byte];
      i := i + 8;
    }
    assert code[..|code|] == code;
  }

  /**
   * `decompress`: unpacks the bytes into bits, cuts `pad` bits off the end
   * and decodes the rest with the code book.
   */
  method Decompress(message: seq<Byte>, codex: Codex, pad: int) returns (out: seq<Byte>)
    ensures out == Decoded(codex, SliceTo(Unpack(message), |Unpack(message)| - pad))
  {
    var raw: Bits := "";
    for k := 0 to |message|
      invariant raw == Unpack(message[..k])
    {
      assert message[..k + 1][..k] == message[..k];
      raw := raw + ByteBits(message[k]);
    }
    assert message[..|message|] == message;
    var final := SliceTo(raw, |raw| - pad);
    out := Decode(final, codex);
  }

  /**
   * What `decompress` makes of what `compress` made, in terms of the code
   * book `compress` returned.
   */
  ghost function RoundTrip(message: seq<Byte>, codex: Codex): seq<Byte>
    requires Book(message, codex)
  {
    Decoded(codex, Restored(EncodeWith(codex, message)))
  }

  /**
   * `decompress(compress(m))` gives m back when m has two distinct bytes
   * or more.
   */
  lemma CompressRoundTrip(message: seq<Byte>, codex: Codex)
    requires Book(message, codex) && |FirstOccurrences(message)| >= 2
    ensures RoundTrip(message, codex) == message
  {
    PaddingRoundTrip(EncodeWith(codex, message));
    DecodeEncode(codex, message);
  }

  /**
   * As written, a message with one distinct byte gets the empty code: it is
   * encoded as no bits at all, and `decompress(compress(m))` is empty.
   */
  lemma LoneByteLost(message: seq<Byte>, codex: Codex)
    requires Book(message, codex) && |FirstOccurrences(message)| == 1
    ensures EncodeWith(codex, message) == ""
    ensures RoundTrip(message, codex) == []
  {
    assert Keys(codex) == [message[0]];
    EmptyCodes(codex, message);
    PaddingRoundTrip("");
  }

  lemma {:induction false} EmptyCodes(codex: Codex, message: seq<Byte>)
    requires |codex| == 1 && codex[0].1 == ""
    requires forall c :: c in message ==> c == codex[0].0
    ensures forall c :: c in message ==> c in Keys(codex)
    ensures EncodeWith(codex, message) == ""
  {
    assert Keys(codex) == [codex[0].0];
    if message != [] {
      assert forall c :: c in message[1..] ==> c in message;
      EmptyCodes(codex, message[1..]);
    }
  }

  /** The message [97, 97, 97] ("aaa") compresses to one zero byte and comes back empty. */
  lemma LoneByteExample()
    ensures var codex := CodeMaker(Trim(Leaf(3, 97)));
      codex == [(97, "")] && Book([97, 97, 97], codex) && RoundTrip([97, 97, 97], codex) == []
  {
    var message: seq<Byte> := [97, 97, 97];
    assert message[..2] == [97, 97] && message[..2][..1] == [97] && [97][..0] == [];
    assert FirstOccurrences(message) == [97];
    CodeMakerPaths(Symbol(97));
    var codex := CodeMaker(Trim(Leaf(3, 97)));
    assert Keys(codex) == [97];
    LoneByteLost(message, codex);
  }

  /**
   * With the corrected code book, where a lone byte gets the code "0",
   * `decompress(compress(m))` gives back every nonempty message m whose
   * bytes are the leaves of the tree.
   */
  lemma FixedRoundTrip(tree: Tree, message: seq<Byte>)
    requires Distinct(Leaves(tree))
    requires forall c :: c in message ==> c in Leaves(tree)
    ensures Decoded(CodeMakerFixed(tree), Restored(EncodeWith(CodeMakerFixed(tree), message))) == message
  {
    var codex := CodeMakerFixed(tree);
    PaddingRoundTrip(EncodeWith(codex, message));
    DecodeEncode(codex, message);
  }
}
