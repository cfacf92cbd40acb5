/**
 * The code book of A4/huffman.py: `codemaker` and `codeHelper` give each
 * byte of the code tree the path to its leaf, `encode` concatenates the
 * codes of the bytes of a message, and `decode` reads the bytes back.
 */
module HuffmanCode {
  import opened Wrappers
  import opened HuffmanTree

  /** A string of '0' and '1' characters: the source keeps codes as text. */
  type Bits = string

  predicate IsBits(s: string)
  {
    forall i :: 0 <= i < |s| ==> s[i] == '0' || s[i] == '1'
  }

  /**
   * The code book: a Python dictionary from bytes to codes. Its items are
   * kept in insertion order, which is the order `decode` scans them in.
   */
  type Codex = seq<(Byte, Bits)>

  /** The keys of the code book, in order. */
  function Keys(codex: Codex): seq<Byte>
  {
    seq(|codex|, i requires 0 <= i < |codex| => codex[i].0)
  }

  /** `codex[c]`: the code stored under the key c, if there is one. */
  function Lookup(codex: Codex, c: Byte): (r: Option<Bits>)
    ensures r.Some? <==> c in Keys(codex)
    ensures r.Some? ==> exists k :: 0 <= k < |codex| && codex[k].0 == c && codex[k].1 == r.value
  {
    if codex == [] then None
    else
      assert Keys(codex) == [codex[0].0] + Keys(codex[1..]);
      if codex[0].0 == c then Some(codex[0].1)
      else
      var r := Lookup(codex[1..], c);
      assert r.Some? ==> exists k :: 0 <= k < |codex| && codex[k].0 == c && codex[k].1 == r.value by {
        if r.Some? {
          var k :| 0 <= k < |codex[1..]| && codex[1..][k].0 == c && codex[1..][k].1 == r.value;
          assert codex[k + 1] == codex[1..][k];
        }
      }
      r
  }

  /**
   * `codex[b] = code`: the item for b gets the new code where it stands,
   * or a new item is added at the end.
   */
  function Assign(codex: Codex, b: Byte, code: Bits): (r: Codex)
    ensures Lookup(r, b) == Some(code)
    ensures forall c :: c != b ==> Lookup(r, c) == Lookup(codex, c)
    ensures b !in Keys(codex) ==> r == codex + [(b, code)]
  {
    if codex == [] then [(b, code)]
    else
      KeysCons(codex);
      if codex[0].0 == b then
        var r := [(b, code)] + codex[1..];
        assert r[1..] == codex[1..];
        r
      else
        var r := [codex[0]] + Assign(codex[1..], b, code);
        assert r[1..] == Assign(codex[1..], b, code);
        r
  }

  lemma KeysCons(codex: Codex)
    requires codex != []
    ensures Keys(codex) == [codex[0].0] + Keys(codex[1..])
  {
  }

  // ---------------------------------------------------------------------------
  // Building the code book
  // ---------------------------------------------------------------------------

  /**
   * `codeHelper`: walks the tree, records the path to each leaf under the
   * leaf's byte, '0' for the first branch and '1' for the second.
   */
  function CodeHelper(tree: Tree, codex: Codex, code: Bits): Codex
  {
    match tree
    case Symbol(b) => Assign(codex, b, code)
    case Node(zero, one) => CodeHelper(one, CodeHelper(zero, codex, code + "0"), code + "1")
  }

  /** `codemaker`: the code book of a tree, starting from the empty path. */
  function CodeMaker(tree: Tree): Codex
  {
    CodeHelper(tree, [], "")
  }

  /** The leaves of a tree in order, each with its path appended to `code`. */
  function Paths(tree: Tree, code: Bits): (r: Codex)
    ensures Keys(r) == Leaves(tree)
    ensures forall k :: 0 <= k < |r| ==> IsPrefix(code, r[k].1)
    ensures tree.Node? ==> forall k :: 0 <= k < |r| ==> |r[k].1| > |code|
    ensures IsBits(code) ==> forall k :: 0 <= k < |r| ==> IsBits(r[k].1)
  {
    match tree
    case Symbol(b) => [(b, code)]
    case Node(zero, one) =>
      var z := Paths(zero, code + "0");
      var o := Paths(one, code + "1");
      KeysConcat(z, o);
      forall k | 0 <= k < |z + o|
        ensures IsPrefix(code, (z + o)[k].1) && |(z + o)[k].1| > |code|
      {
        var c := if k < |z| then code + "0" else code + "1";
        assert IsPrefix(c, (z + o)[k].1);
        assert (z + o)[k].1[..|code|] == c[..|code|];
      }
      z + o
  }

  lemma KeysConcat(a: Codex, b: Codex)
    ensures Keys(a + b) == Keys(a) + Keys(b)
  {
  }

  predicate IsPrefix(p: Bits, s: Bits)
  {
    |p| <= |s| && s[..|p|] == p
  }

  /** No code of the book is a prefix of another item's code. */
  predicate PrefixFree(codex: Codex)
  {
    forall x, y :: 0 <= x < |codex| && 0 <= y < |codex| && x != y ==> !IsPrefix(codex[x].1, codex[y].1)
  }

  /** A code book whose concatenated codes can be read back one way only. */
  predicate Unambiguous(codex: Codex)
  {
    && Distinct(Keys(codex))
    && PrefixFree(codex)
    && forall k :: 0 <= k < |codex| ==> codex[k].1 != ""
  }

  /** The paths to the leaves of a tree are prefix-free. */
  lemma {:induction false} PathsPrefixFree(tree: Tree, code: Bits)
    ensures PrefixFree(Paths(tree, code))
  {
    match tree
    case Symbol(_) =>
    case Node(zero, one) =>
      var z: Codex := Paths(zero, code + "0");
      var o: Codex := Paths(one, code + "1");
      var r: Codex := z + o;
      PathsPrefixFree(zero, code + "0");
      PathsPrefixFree(one, code + "1");
      forall x, y | 0 <= x < |r| && 0 <= y < |r| && x != y
        ensures !IsPrefix(r[x].1, r[y].1)
      {
        if x < |z| && y >= |z| {
          BranchesDiffer(z[x].1, o[y - |z|].1, code);
        } else if x >= |z| && y < |z| {
          BranchesDiffer(z[y].1, o[x - |z|].1, code);
        }
      }
  }

  /** A code below the '0' branch and one below the '1' branch are not prefixes of each other. */
  lemma BranchesDiffer(a: Bits, b: Bits, code: Bits)
    requires IsPrefix(code + "0", a) && IsPrefix(code + "1", b)
    ensures !IsPrefix(a, b) && !IsPrefix(b, a)
  {
    assert a[|code|] == (code + "0")[|code|] == '0';
    assert b[|code|] == (code + "1")[|code|] == '1';
  }

  /**
   * Started on a code book that holds none of the tree's bytes, `codeHelper`
   * appends the paths of the leaves in order.
   */
  lemma {:induction false} HelperAppendsPaths(tree: Tree, codex: Codex, code: Bits)
    requires Distinct(Leaves(tree))
    requires forall b :: b in Leaves(tree) ==> b !in Keys(codex)
    ensures CodeHelper(tree, codex, code) == codex + Paths(tree, code)
  {
    match tree
    case Symbol(b) =>
    case Node(zero, one) =>
      var z := Paths(zero, code + "0");
      assert Leaves(tree) == Leaves(zero) + Leaves(one);
      DistinctSplit(Leaves(zero), Leaves(one));
      HelperAppendsPaths(zero, codex, code + "0");
      var mid := codex + z;
      KeysConcat(codex, z);
      forall c | c in Leaves(one)
        ensures c !in Keys(mid)
      {
        assert c !in Leaves(zero) && c in Leaves(tree);
      }
      HelperAppendsPaths(one, mid, code + "1");
      ConcatAssoc(codex, z, Paths(one, code + "1"));
  }

  lemma ConcatAssoc(a: Codex, b: Codex, c: Codex)
    ensures a + b + c == a + (b + c)
  {
  }

  /** The parts of a list without repetitions have none and share nothing. */
  lemma DistinctSplit(a: seq<Byte>, b: seq<Byte>)
    requires Distinct(a + b)
    ensures Distinct(a) && Distinct(b)
    ensures forall c :: c in a ==> c !in b
  {
    forall i, j | 0 <= i < j < |a|
      ensures a[i] != a[j]
    {
      assert a[i] == (a + b)[i] && a[j] == (a + b)[j];
    }
    forall i, j | 0 <= i < j < |b|
      ensures b[i] != b[j]
    {
      assert b[i] == (a + b)[|a| + i] && b[j] == (a + b)[|a| + j];
    }
    forall c | c in a
      ensures c !in b
    {
      var i :| 0 <= i < |a| && a[i] == c;
      forall j | 0 <= j < |b|
        ensures b[j] != c
      {
        assert (a + b)[i] == a[i] && (a + b)[|a| + j] == b[j];
      }
    }
  }

  /**
   * For a tree with distinct leaves, `codemaker` gives every leaf its path,
   * the codes are prefix-free, and below a root with two branches every
   * code has at least one bit.
   */
  lemma CodeMakerPaths(tree: Tree)
    requires Distinct(Leaves(tree))
    ensures CodeMaker(tree) == Paths(tree, "")
    ensures Keys(CodeMaker(tree)) == Leaves(tree)
    ensures PrefixFree(CodeMaker(tree))
    ensures forall k :: 0 <= k < |CodeMaker(tree)| ==> IsBits(CodeMaker(tree)[k].1)
    ensures tree.Node? ==> Unambiguous(CodeMaker(tree))
    ensures tree.Symbol? ==> CodeMaker(tree) == [(tree.symbol, "")]
  {
    HelperAppendsPaths(tree, [], "");
    assert [] + Paths(tree, "") == Paths(tree, "");
    PathsPrefixFree(tree, "");
  }

  /**
   * The code book `codemaker` should build: the same as `codemaker` when
   * the root has two branches, and the one-bit code "0" for a lone byte.
   */
  function CodeMakerFixed(tree: Tree): (codex: Codex)
    requires Distinct(Leaves(tree))
    ensures Keys(codex) == Leaves(tree)
    ensures Unambiguous(codex)
    ensures forall k :: 0 <= k < |codex| ==> IsBits(codex[k].1)
  {
    CodeMakerPaths(tree);
    match tree
    case Symbol(b) => [(b, "0")]
    case Node(_, _) => CodeMaker(tree)
  }

  // ---------------------------------------------------------------------------
  // Encoding
  // ---------------------------------------------------------------------------

  /** The codes of the bytes of the message, concatenated. */
  function EncodeWith(codex: Codex, message: seq<Byte>): (bits: Bits)
    requires forall c :: c in message ==> c in Keys(codex)
    ensures (forall k :: 0 <= k < |codex| ==> IsBits(codex[k].1)) ==> IsBits(bits)
  {
    if message == [] then ""
    else Lookup(codex, message[0]).value + EncodeWith(codex, message[1..])
  }

  /** Encoding one more byte appends its code. */
  lemma {:induction false} EncodeSnoc(codex: Codex, message: seq<Byte>, c: Byte)
    requires forall b :: b in message ==> b in Keys(codex)
    requires c in Keys(codex)
    ensures EncodeWith(codex, message + [c]) == EncodeWith(codex, message) + Lookup(codex, c).value
  {
    if message != [] {
      assert (message + [c])[1..] == message[1..] + [c];
      EncodeSnoc(codex, message[1..], c);
    } else {
      assert [] + [c] == [c];
    }
  }

  /** Lines 70-72 of `encode`: appends `codex[character]` for each byte of the message. */
  method EncodeMessage(codex: Codex, message: seq<Byte>) returns (bits: Bits)
    requires forall c :: c in message ==> c in Keys(codex)
    ensures bits == EncodeWith(codex, message)
  {
    bits := "";
    for i := 0 to |message|
      invariant bits == EncodeWith(codex, message[..i])
    {
      EncodeSnoc(codex, message[..i], message[i]);
      assert message[..i + 1] == message[..i] + [message[i]];
      bits := bits + Lookup(codex, message[i]).value;
    }
    assert message[..|message|] == message;
  }

  // ---------------------------------------------------------------------------
  // Decoding
  // ---------------------------------------------------------------------------

  /** The byte of the first item, in scan order, whose code is w. */
  function FirstMatch(codex: Codex, w: Bits): (r: Option<Byte>)
    ensures r.None? <==> forall k :: 0 <= k < |codex| ==> codex[k].1 != w
  {
    if codex == [] then None
    else if codex[0].1 == w then Some(codex[0].0)
    else
      var r := FirstMatch(codex[1..], w);
      assert forall k :: 0 < k < |codex| ==> codex[k] == codex[1..][k - 1];
      r
  }

  /** When the k-th code is the first to equal w, the scan finds its byte. */
  lemma {:induction false} FirstMatchAt(codex: Codex, w: Bits, k: int)
    requires 0 <= k < |codex| && codex[k].1 == w
    requires forall x :: 0 <= x < k ==> codex[x].1 != w
    ensures FirstMatch(codex, w) == Some(codex[k].0)
  {
    if k > 0 {
      assert forall x :: 0 <= x < k - 1 ==> codex[1..][x] == codex[x + 1];
      FirstMatchAt(codex[1..], w, k - 1);
    }
  }

  /**
   * What `decode` produces from `bits` when it is looking at the window of
   * the first l bits: on a match it emits the byte and starts again after
   * the window, otherwise it widens the window; at the end of the string
   * the bits it could not match are dropped.
   */
  function DecodeFrom(codex: Codex, bits: Bits, l: int): seq<Byte>
    requires 1 <= l
    decreases |bits|, |bits| - l + 1
  {
    if l > |bits| then []
    else
      match FirstMatch(codex, bits[..l])
      case Some(b) => [b] + DecodeFrom(codex, bits[l..], 1)
      case None => DecodeFrom(codex, bits, l + 1)
  }

  /** What `decode` returns for a whole bit string. */
  function Decoded(codex: Codex, bits: Bits): seq<Byte>
  {
    DecodeFrom(codex, bits, 1)
  }

  /**
   * `decode`: scans the window `message[i:j]` against the items of the code
   * book in order; on a match emits the byte and moves `i` to `j`.
   */
  method Decode(message: Bits, codex: Codex) returns (out: seq<Byte>)
    ensures out == Decoded(codex, message)
  {
    out := [];
    var i := 0;
    var j := i + 1;
    while j <= |message|
      invariant 0 <= i < j <= |message| + 1
      invariant out + DecodeFrom(codex, message[i..], j - i) == Decoded(codex, message)
      decreases |message| + 1 - j
    {
      ghost var i0, j0, out0 := i, j, out;
      ghost var matched := false;
      assert message[i..j] == message[i..][..j - i];
      for k := 0 to |codex|
        invariant !matched && i == i0 && j == j0 && out == out0
        invariant forall x :: 0 <= x < k ==> codex[x].1 != message[i..j]
      {
        if message[i..j] == codex[k].1 {
          FirstMatchAt(codex, message[i..j], k);
          assert message[i..][j - i..] == message[j..];
          out := out + [codex[k].0];
          i := i + (j - i);
          j := i;
          matched := true;
          break;
        }
      }
      if !matched {
        assert FirstMatch(codex, message[i..][..j - i]).None?;
      }
      j := j + 1;
    }
  }

  /** While no code matches the window, the window grows. */
  lemma {:induction false} SkipPrefix(codex: Codex, bits: Bits, l: int, n: int)
    requires 1 <= l <= n <= |bits|
    requires forall m :: l <= m < n ==> FirstMatch(codex, bits[..m]).None?
    ensures DecodeFrom(codex, bits, l) == DecodeFrom(codex, bits, n)
    decreases n - l
  {
    if l < n {
      assert FirstMatch(codex, bits[..l]).None?;
      SkipPrefix(codex, bits, l + 1, n);
    }
  }

  /** In a prefix-free code book, a proper prefix of a code is no code. */
  lemma ProperPrefixUnmatched(codex: Codex, k0: int, w: Bits)
    requires PrefixFree(codex)
    requires 0 <= k0 < |codex| && |w| < |codex[k0].1| && w == codex[k0].1[..|w|]
    ensures FirstMatch(codex, w).None?
  {
    forall k | 0 <= k < |codex| && k != k0
      ensures codex[k].1 != w
    {
      assert !IsPrefix(codex[k].1, codex[k0].1);
    }
  }

  /**
   * Decoding the concatenated codes of a message gives the message back,
   * when the code book is unambiguous and holds every byte of the message.
   */
  lemma {:induction false} DecodeEncode(codex: Codex, message: seq<Byte>)
    requires Unambiguous(codex)
    requires forall c :: c in message ==> c in Keys(codex)
    ensures Decoded(codex, EncodeWith(codex, message)) == message
  {
    if message != [] {
      var code := Lookup(codex, message[0]).value;
      var k0 :| 0 <= k0 < |codex| && codex[k0].0 == message[0] && codex[k0].1 == code;
      DecodeFirst(codex, k0, EncodeWith(codex, message[1..]));
      DecodeEncode(codex, message[1..]);
    }
  }

  /** A code followed by more bits decodes to its byte, then to what the rest decodes to. */
  lemma DecodeFirst(codex: Codex, k0: int, rest: Bits)
    requires Unambiguous(codex) && 0 <= k0 < |codex|
    ensures Decoded(codex, codex[k0].1 + rest) == [codex[k0].0] + Decoded(codex, rest)
  {
    var code := codex[k0].1;
    var bits := code + rest;
    forall m | 1 <= m < |code|
      ensures FirstMatch(codex, bits[..m]).None?
    {
      assert bits[..m] == code[..m];
      ProperPrefixUnmatched(codex, k0, bits[..m]);
    }
    SkipPrefix(codex, bits, 1, |code|);
    forall x | 0 <= x < k0
      ensures codex[x].1 != code
    {
      assert !IsPrefix(codex[x].1, code);
    }
    assert bits[..|code|] == code;
    FirstMatchAt(codex, code, k0);
    assert bits[|code|..] == rest;
  }

}
