/**
 * The values `encode` in A4/huffman.py builds before it assigns codes:
 * the frequency table of the message, the weighted entries of `raw_data`,
 * and the code tree `trim_dataset` extracts from the last entry.
 */
module HuffmanTree {

  /** One byte of a message, as Python's `bytes` yields it. */
  type Byte = b: int | 0 <= b < 256

  /**
   * An entry of `raw_data`: a pair `(frequency, byte)` for a single byte,
   * or `(weight, (left, right))` for two entries merged into one.
   */
  datatype Entry =
    | Leaf(weight: int, symbol: Byte)
    | Merged(weight: int, left: Entry, right: Entry)

  /** What `trim_dataset` keeps of an entry: its shape and its bytes. */
  datatype Tree = Symbol(symbol: Byte) | Node(zero: Tree, one: Tree)

  // ---------------------------------------------------------------------------
  // Counting
  // ---------------------------------------------------------------------------

  /** The distinct bytes of the message, in order of first occurrence. */
  function FirstOccurrences(message: seq<Byte>): (symbols: seq<Byte>)
    ensures Distinct(symbols)
    ensures forall c :: c in symbols <==> c in message
  {
    if message == [] then []
    else
      var earlier := FirstOccurrences(message[..|message| - 1]);
      var c := message[|message| - 1];
      assert message == message[..|message| - 1] + [c];
      if c in earlier then earlier else earlier + [c]
  }

  predicate Distinct<T(==)>(s: seq<T>)
  {
    forall i, j :: 0 <= i < j < |s| ==> s[i] != s[j]
  }

  /** The frequencies of the bytes in `symbols`, added up. */
  function SumOf(freq: map<Byte, nat>, symbols: seq<Byte>): int
  {
    if symbols == [] then 0
    else Freq(freq, symbols[0]) + SumOf(freq, symbols[1..])
  }

  /** `freq.get(c, 0)`: the frequency of c, zero for a byte not in the table. */
  function Freq(freq: map<Byte, nat>, c: Byte): nat
  {
    if c in freq then freq[c] else 0
  }

  /** The occurrences in the message of the bytes in `symbols`, added up. */
  function Total(message: seq<Byte>, symbols: seq<Byte>): nat
  {
    if symbols == [] then 0
    else multiset(message)[symbols[0]] + Total(message, symbols[1..])
  }

  /** A frequency table that holds the counts of the message adds up like them. */
  lemma {:induction false} SumOfCounts(freq: map<Byte, nat>, message: seq<Byte>, symbols: seq<Byte>)
    requires forall c :: c in symbols ==> c in freq && freq[c] == multiset(message)[c]
    ensures SumOf(freq, symbols) == Total(message, symbols)
  {
    if symbols != [] {
      SumOfCounts(freq, message, symbols[1..]);
    }
  }

  /** One more byte at the end of the message adds one to a total that lists it once. */
  lemma {:induction false} TotalSnoc(message: seq<Byte>, c: Byte, symbols: seq<Byte>)
    requires Distinct(symbols)
    ensures Total(message + [c], symbols) == Total(message, symbols) + if c in symbols then 1 else 0
  {
    if symbols != [] {
      assert Distinct(symbols[1..]);
      assert c in symbols <==> c == symbols[0] || c in symbols[1..];
      TotalSnoc(message, c, symbols[1..]);
    }
  }

  /** A byte added at the end of the list adds its count to the total. */
  lemma {:induction false} TotalAppend(message: seq<Byte>, symbols: seq<Byte>, c: Byte)
    ensures Total(message, symbols + [c]) == Total(message, symbols) + multiset(message)[c]
  {
    if symbols != [] {
      assert (symbols + [c])[1..] == symbols[1..] + [c];
      TotalAppend(message, symbols[1..], c);
    }
  }

  /** The counts of the distinct bytes of a message add up to its length. */
  lemma {:induction false} CountsSum(message: seq<Byte>)
    ensures Total(message, FirstOccurrences(message)) == |message|
  {
    if message != [] {
      var p := message[..|message| - 1];
      var c := message[|message| - 1];
      assert message == p + [c];
      var earlier := FirstOccurrences(p);
      CountsSum(p);
      TotalSnoc(p, c, earlier);
      if c !in earlier {
        TotalAppend(message, earlier, c);
        assert c !in p;
      }
    }
  }

  /** Adding up frequencies distributes over concatenation. */
  lemma {:induction false} SumOfConcat(freq: map<Byte, nat>, a: seq<Byte>, b: seq<Byte>)
    ensures SumOf(freq, a + b) == SumOf(freq, a) + SumOf(freq, b)
  {
    if a == [] {
      assert a + b == b;
    } else {
      assert (a + b)[1..] == a[1..] + b;
      SumOfConcat(freq, a[1..], b);
    }
  }

  /** Adding up frequencies does not depend on the order of the bytes. */
  lemma {:induction false} SumOfPerm(freq: map<Byte, nat>, s: seq<Byte>, t: seq<Byte>)
    requires multiset(s) == multiset(t)
    ensures SumOf(freq, s) == SumOf(freq, t)
  {
    if s != [] {
      var i := PermHead(s, t);
      var rest := t[..i] + t[i + 1..];
      SumOfPerm(freq, s[1..], rest);
      SumOfConcat(freq, t[..i], [t[i]] + t[i + 1..]);
      assert ([t[i]] + t[i + 1..])[1..] == t[i + 1..];
      SumOfConcat(freq, t[..i], t[i + 1..]);
    }
  }

  /**
   * The first element of a sequence occurs in any permutation t of it, at
   * some i; taking it out of both leaves permutations of each other.
   */
  lemma PermHead<T>(s: seq<T>, t: seq<T>) returns (i: int)
    requires s != [] && multiset(s) == multiset(t)
    ensures 0 <= i < |t| && t[i] == s[0]
    ensures t == t[..i] + ([t[i]] + t[i + 1..])
    ensures multiset(s[1..]) == multiset(t[..i] + t[i + 1..])
  {
    assert s == [s[0]] + s[1..];
    assert s[0] in multiset(t);
    i :| 0 <= i < |t| && t[i] == s[0];
    RemoveAt(t, i);
    Cancel(multiset{s[0]}, multiset(t[..i] + t[i + 1..]), multiset(s[1..]));
  }

  /** Taking the element at i out of a sequence takes one of it out of its multiset. */
  lemma RemoveAt<T>(t: seq<T>, i: int)
    requires 0 <= i < |t|
    ensures t == t[..i] + ([t[i]] + t[i + 1..])
    ensures multiset(t) == multiset{t[i]} + multiset(t[..i] + t[i + 1..])
  {
    assert t == t[..i] + ([t[i]] + t[i + 1..]);
  }

  /** Multiset union cancels. */
  lemma Cancel<T>(a: multiset<T>, b: multiset<T>, c: multiset<T>)
    requires a + b == a + c
    ensures b == c
  {
    forall e {:trigger b[e]}
      ensures b[e] == c[e]
    {
      assert (a + b)[e] == (a + c)[e];
    }
  }

  /** Reordering a list without repetitions leaves it without repetitions. */
  lemma DistinctPerm(s: seq<Byte>, t: seq<Byte>)
    requires Distinct(s) && multiset(s) == multiset(t)
    ensures Distinct(t)
  {
    forall i, j | 0 <= i < j < |t|
      ensures t[i] != t[j]
    {
      if t[i] == t[j] {
        assert t == t[..i] + [t[i]] + t[i + 1..j] + [t[j]] + t[j + 1..];
        assert multiset(t)[t[i]] >= 2;
        AtMostOnce(s, t[i]);
      }
    }
  }

  /** A byte occurs at most once in a list without repetitions. */
  lemma {:induction false} AtMostOnce(s: seq<Byte>, c: Byte)
    requires Distinct(s)
    ensures multiset(s)[c] <= 1
  {
    if s != [] {
      assert s == [s[0]] + s[1..];
      assert Distinct(s[1..]);
      AtMostOnce(s[1..], c);
      if s[0] == c {
        assert c !in s[1..];
      }
    }
  }

  // ---------------------------------------------------------------------------
  // Entries
  // ---------------------------------------------------------------------------

  /** The bytes an entry stands for, left to right. */
  function EntryLeaves(e: Entry): (leaves: seq<Byte>)
    ensures |leaves| >= 1
    ensures e.Merged? ==> |leaves| >= 2
  {
    match e
    case Leaf(_, b) => [b]
    case Merged(_, l, r) => EntryLeaves(l) + EntryLeaves(r)
  }

  /** The bytes all entries of a list stand for, with multiplicity. */
  function Symbols(entries: seq<Entry>): multiset<Byte>
  {
    if entries == [] then multiset{}
    else multiset(EntryLeaves(entries[0])) + Symbols(entries[1..])
  }

  /** The bytes of a concatenation of lists are those of both lists. */
  lemma {:induction false} SymbolsConcat(a: seq<Entry>, b: seq<Entry>)
    ensures Symbols(a + b) == Symbols(a) + Symbols(b)
  {
    if a == [] {
      assert a + b == b;
    } else {
      assert (a + b)[1..] == a[1..] + b;
      SymbolsConcat(a[1..], b);
    }
  }

  /** The bytes of a list of entries do not depend on the order of the entries. */
  lemma {:induction false} SymbolsPerm(s: seq<Entry>, t: seq<Entry>)
    requires multiset(s) == multiset(t)
    ensures Symbols(s) == Symbols(t)
  {
    if s != [] {
      var i := PermHead(s, t);
      var rest := t[..i] + t[i + 1..];
      SymbolsPerm(s[1..], rest);
      SymbolsConcat(t[..i], [t[i]] + t[i + 1..]);
      assert ([t[i]] + t[i + 1..])[1..] == t[i + 1..];
      SymbolsConcat(t[..i], t[i + 1..]);
    }
  }

  /**
   * The invariant the source states for its merge loop: each entry weighs
   * the sum of the frequencies of the bytes it stands for.
   */
  predicate Weighed(freq: map<Byte, nat>, e: Entry)
  {
    e.weight == SumOf(freq, EntryLeaves(e))
  }

  /**
   * Merging two entries as the loop of `encode` does keeps the invariant:
   * the new weight is the sum of the two weights.
   */
  lemma MergeWeighed(freq: map<Byte, nat>, l: Entry, r: Entry)
    requires Weighed(freq, l) && Weighed(freq, r)
    ensures Weighed(freq, Merged(l.weight + r.weight, l, r))
  {
    SumOfConcat(freq, EntryLeaves(l), EntryLeaves(r));
  }

  /** `trim_dataset`: drops the weights, keeps the shape and the bytes. */
  function Trim(e: Entry): (t: Tree)
    ensures Leaves(t) == EntryLeaves(e)
  {
    match e
    case Leaf(_, b) => Symbol(b)
    case Merged(_, l, r) => Node(Trim(l), Trim(r))
  }

  /** The bytes of a tree, left to right. */
  function Leaves(t: Tree): seq<Byte>
  {
    match t
    case Symbol(b) => [b]
    case Node(z, o) => Leaves(z) + Leaves(o)
  }
}
