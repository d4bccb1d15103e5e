/**
 * Reading symbols back from a stream of Huffman codes. This is the reader
 * that the bit writer's WriteCode is paired with. It states what a written
 * code stream means: a reader holding the same table recovers the symbols.
 */
module PrefixCode {
  import opened WebPTypes
  import opened Bits
  import opened BitWriter
  import opened Huffman

  /** What a reader knows of a code table: each symbol's bit string, or None when it has no code. */
  type Codebook = seq<Option<seq<bool>>>

  /** The codebook of a table of codes: depth 0 means no code, depth -1 the empty bit string. */
  function BookOf(table: seq<HuffmanCode>): (book: Codebook)
    ensures |book| == |table|
    ensures forall s :: 0 <= s < |table| ==> (book[s].Some? <==> table[s].depth != 0)
  {
    seq(|table|, s requires 0 <= s < |table| => if table[s].depth == 0 then None else Some(CodeBits(table[s])))
  }

  /**
   * A codebook a reader can use: no word is a prefix of another. An empty word
   * is a prefix of every word, so a zero-bit code must be the only one.
   */
  predicate Decodable(book: Codebook) {
    forall s, t :: 0 <= s < |book| && 0 <= t < |book| && s != t && book[s].Some? && book[t].Some? ==>
      !(book[s].value <= book[t].value)
  }

  /** The first word, from index s on, that starts the stream: its symbol and length. */
  function DecodeFrom(book: Codebook, bs: seq<bool>, s: nat): (r: Option<(nat, nat)>)
    ensures r.Some? ==> r.value.0 < |book| && r.value.1 <= |bs|
    decreases |book| - s
  {
    if s >= |book| then None
    else if book[s].Some? && book[s].value <= bs then Some((s, |book[s].value|))
    else DecodeFrom(book, bs, s + 1)
  }

  /** Reads one symbol: the symbol and the number of bits it took. */
  function DecodeSymbol(book: Codebook, bs: seq<bool>): (r: Option<(nat, nat)>)
    ensures r.Some? ==> r.value.0 < |book| && r.value.1 <= |bs|
  {
    DecodeFrom(book, bs, 0)
  }

  /** Reads n symbols one after another: the symbols and the number of bits they took. */
  function DecodeSymbols(book: Codebook, bs: seq<bool>, n: nat): (r: Option<(seq<nat>, nat)>)
    ensures r.Some? ==> |r.value.0| == n && r.value.1 <= |bs|
    decreases n
  {
    if n == 0 then Some(([], 0))
    else match DecodeSymbol(book, bs)
      case None => None
      case Some((s, used)) =>
        match DecodeSymbols(book, bs[used..], n - 1)
        case None => None
        case Some((more, taken)) => Some(([s] + more, used + taken))
  }

  /** Every symbol of the run has a word in the codebook. */
  predicate AllCoded(book: Codebook, syms: seq<nat>) {
    forall k :: 0 <= k < |syms| ==> syms[k] < |book| && book[syms[k]].Some?
  }

  /** The stream a run of symbols is written as. */
  function EncodeSymbols(book: Codebook, syms: seq<nat>): (bs: seq<bool>)
    requires AllCoded(book, syms)
  {
    if syms == [] then [] else book[syms[0]].value + EncodeSymbols(book, syms[1..])
  }

  lemma {:induction false} EncodeSymbolsSnoc(book: Codebook, syms: seq<nat>, s: nat)
    requires AllCoded(book, syms) && s < |book| && book[s].Some?
    ensures AllCoded(book, syms + [s])
    ensures EncodeSymbols(book, syms + [s]) == EncodeSymbols(book, syms) + book[s].value
  {
    assert AllCoded(book, syms + [s]);
    if syms != [] {
      assert AllCoded(book, syms[1..]);
      EncodeSymbolsSnoc(book, syms[1..], s);
      assert (syms + [s])[1..] == syms[1..] + [s];
    }
  }

  /** Of two lists that start the same stream, one is a prefix of the other. */
  lemma PrefixCases(a: seq<bool>, b: seq<bool>, rest: seq<bool>)
    ensures a <= b + rest ==> a <= b || b <= a
  {
    if a <= b + rest {
      if |a| <= |b| {
        assert a == b[..|a|];
      } else {
        assert b == a[..|b|];
      }
    }
  }

  /** No word below index s starts the stream. */
  ghost predicate MissedBelow(book: Codebook, bs: seq<bool>, s: nat) {
    forall k :: 0 <= k < s && k < |book| ==> !(book[k].Some? && book[k].value <= bs)
  }

  lemma {:induction false} DecodeFromReaches(book: Codebook, bs: seq<bool>, s: nat, k: nat)
    requires s < |book| && book[s].Some? && book[s].value <= bs
    requires MissedBelow(book, bs, s) && k <= s
    ensures DecodeFrom(book, bs, k) == Some((s, |book[s].value|))
    decreases s - k
  {
    if k < s {
      DecodeFromReaches(book, bs, s, k + 1);
    }
  }

  /** A symbol's word, followed by anything, is read back as that symbol. */
  lemma DecodeWord(book: Codebook, s: nat, rest: seq<bool>)
    requires Decodable(book) && s < |book| && book[s].Some?
    ensures DecodeSymbol(book, book[s].value + rest) == Some((s, |book[s].value|))
  {
    var bs := book[s].value + rest;
    forall k | 0 <= k < s
      ensures !(book[k].Some? && book[k].value <= bs)
    {
      if book[k].Some? {
        PrefixCases(book[k].value, book[s].value, rest);
      }
    }
    DecodeFromReaches(book, bs, s, 0);
  }

  /** Reading n symbols is reading one, then n - 1 from where it stopped. */
  lemma DecodeCons(book: Codebook, bs: seq<bool>, n: nat, s: nat, used: nat, more: seq<nat>, taken: nat)
    requires n >= 1
    requires DecodeSymbol(book, bs) == Some((s, used))
    requires DecodeSymbols(book, bs[used..], n - 1) == Some((more, taken))
    ensures DecodeSymbols(book, bs, n) == Some(([s] + more, used + taken))
  {
  }

  /** Writing a run of coded symbols and reading as many back gives the run and its exact length. */
  lemma {:induction false} DecodeEncoded(book: Codebook, syms: seq<nat>, rest: seq<bool>)
    requires Decodable(book) && AllCoded(book, syms)
    ensures DecodeSymbols(book, EncodeSymbols(book, syms) + rest, |syms|) == Some((syms, |EncodeSymbols(book, syms)|))
  {
    if syms != [] {
      var head := book[syms[0]].value;
      assert AllCoded(book, syms[1..]);
      var tail := EncodeSymbols(book, syms[1..]);
      var bs := EncodeSymbols(book, syms) + rest;
      assert bs == head + (tail + rest);
      assert bs[|head|..] == tail + rest;
      DecodeEncoded(book, syms[1..], rest);
      DecodeWord(book, syms[0], tail + rest);
      DecodeCons(book, bs, |syms|, syms[0], |head|, syms[1..], |tail|);
      assert [syms[0]] + syms[1..] == syms;
    }
  }

  lemma {:induction false} CountPositiveOne(histo: seq<nat>, s: nat)
    requires s < |histo| && histo[s] > 0
    ensures CountPositive(histo) >= 1
  {
    var n := |histo| - 1;
    if s < n {
      CountPositiveOne(histo[..n], s);
    }
  }

  lemma {:induction false} CountPositiveTwo(histo: seq<nat>, s: nat, t: nat)
    requires s < t < |histo| && histo[s] > 0 && histo[t] > 0
    ensures CountPositive(histo) >= 2
  {
    var n := |histo| - 1;
    if t < n {
      CountPositiveTwo(histo[..n], s, t);
    } else {
      CountPositiveOne(histo[..n], s);
    }
  }

  /** Two distinct used symbols mean at least two positive counts. */
  lemma TwoUsed(histo: seq<nat>, s: nat, t: nat)
    requires s != t && Used(histo, s) && Used(histo, t)
    ensures CountPositive(histo) >= 2
  {
    if histo[s] > 0 {
      CountPositiveOne(histo, s);
    }
    if histo[t] > 0 {
      CountPositiveOne(histo, t);
    }
    if s < t {
      CountPositiveTwo(histo, s, t);
    } else {
      CountPositiveTwo(histo, t, s);
    }
  }

  /**
   * The tables BuildCodes returns can be read back: the codes of a tree with
   * two or more leaves are prefix-free, and a one-leaf tree has a single code.
   */
  lemma BuiltCodesDecodable(histo: seq<nat>, codes: seq<HuffmanCode>)
    requires |codes| == |histo|
    requires forall s: nat :: s < |histo| ==> (codes[s].depth != 0 <==> Used(histo, s))
    requires CountPositive(histo) <= 1 ==> forall s: nat :: Used(histo, s) ==> codes[s] == HuffmanCode(s, 0, -1)
    requires CountPositive(histo) >= 2 ==> forall s: nat :: Used(histo, s) ==> 1 <= codes[s].depth
    requires PrefixFree(codes)
    ensures Decodable(BookOf(codes))
  {
    var book := BookOf(codes);
    forall s, t | 0 <= s < |book| && 0 <= t < |book| && s != t && book[s].Some? && book[t].Some?
      ensures !(book[s].value <= book[t].value)
    {
      TwoUsed(histo, s, t);
      assert codes[s].depth > 0 && codes[t].depth > 0;
    }
  }
}
