/**
 * computeHistograms: how often each symbol of the five entropy-coded
 * alphabets occurs in a token stream. Code 0 codes the green channel, the
 * length prefixes (256 + prefix) and the colour-cache indexes (280 + index);
 * codes 1, 2 and 3 the red, blue and alpha channels; code 4 the distance
 * prefixes. Extra bits are sent raw and are not counted.
 */
module Histograms {
  import opened WebPTypes
  import opened Bits
  import opened Tokens
  import opened Huffman

  /** The size of alphabet k: 256 + 24 + the cache size, 256, 256, 256 and 40. */
  function AlphabetSize(k: nat, bits: nat): nat {
    if k == 0 then 256 + 24 + CacheSize(bits) else if k == 4 then 40 else 256
  }

  /** The symbols group g sends with code k (none or one). */
  function GroupSymbols(g: Group, k: nat): (s: seq<nat>)
    ensures |s| <= 1
  {
    match g
    case Literal(p) =>
      if k == 0 then [p.g] else if k == 1 then [p.r] else if k == 2 then [p.b] else if k == 3 then [p.a] else []
    case Backref(lc, _, dc, _) =>
      if k == 0 then [256 + lc] else if k == 4 then [dc] else []
    case CacheHit(i) =>
      if k == 0 then [280 + i] else []
  }

  /** The symbols a list of groups sends with code k, in order. */
  function Symbols(gs: seq<Group>, k: nat): seq<nat> {
    if gs == [] then [] else Symbols(gs[..|gs| - 1], k) + GroupSymbols(gs[|gs| - 1], k)
  }

  /** How often x occurs in syms. */
  function Occurrences(syms: seq<nat>, x: nat): nat {
    if syms == [] then 0 else Occurrences(syms[..|syms| - 1], x) + (if syms[|syms| - 1] == x then 1 else 0)
  }

  /** Count one more x: histo[x]++ (nothing when x is outside the alphabet). */
  function Add(histo: seq<nat>, x: nat): (h: seq<nat>)
    ensures |h| == |histo|
  {
    if x < |histo| then histo[x := histo[x] + 1] else histo
  }

  /** size zero counts */
  function Zero(size: nat): (h: seq<nat>)
    ensures |h| == size
  {
    seq(size, _ => 0)
  }

  /** The histogram of syms over an alphabet of size symbols, counted one symbol at a time. */
  function Histogram(syms: seq<nat>, size: nat): (h: seq<nat>)
    ensures |h| == size
  {
    if syms == [] then Zero(size) else Add(Histogram(syms[..|syms| - 1], size), syms[|syms| - 1])
  }

  /** Entry s of the histogram is the number of occurrences of s. */
  lemma {:induction false} HistogramCounts(syms: seq<nat>, size: nat, s: nat)
    requires s < size
    ensures Histogram(syms, size)[s] == Occurrences(syms, s)
    decreases |syms|
  {
    if syms != [] {
      HistogramCounts(syms[..|syms| - 1], size, s);
    }
  }

  /** The symbols of one more group follow the others'. */
  lemma SymbolsSnoc(gs: seq<Group>, g: Group, k: nat)
    ensures Symbols(gs + [g], k) == Symbols(gs, k) + GroupSymbols(g, k)
  {
    assert (gs + [g])[..|gs|] == gs;
  }

  /** One more occurrence of x adds one to x's count and leaves every other count alone. */
  lemma HistogramSnoc(syms: seq<nat>, x: nat, size: nat)
    ensures Histogram(syms + [x], size) == Add(Histogram(syms, size), x)
  {
    assert (syms + [x])[..|syms|] == syms;
  }

  /** Every symbol a valid group sends with code k lies inside alphabet k. */
  lemma GroupSymbolsInAlphabet(g: Group, k: nat, bits: nat)
    requires Valid(g, bits) && k < 5
    ensures forall s :: s in GroupSymbols(g, k) ==> s < AlphabetSize(k, bits)
  {
  }

  /** Every symbol that valid groups send with code k lies inside alphabet k. */
  lemma {:induction false} SymbolsInAlphabet(gs: seq<Group>, k: nat, bits: nat)
    requires k < 5 && forall j :: 0 <= j < |gs| ==> Valid(gs[j], bits)
    ensures forall s :: s in Symbols(gs, k) ==> s < AlphabetSize(k, bits)
    decreases |gs|
  {
    if gs != [] {
      SymbolsInAlphabet(gs[..|gs| - 1], k, bits);
      GroupSymbolsInAlphabet(gs[|gs| - 1], k, bits);
    }
  }

  /** Adding one to an entry adds one to the sum. */
  lemma {:induction false} SumBump(h: seq<nat>, x: nat)
    requires x < |h|
    ensures Sum(h[x := h[x] + 1]) == Sum(h) + 1
    decreases |h|
  {
    var h' := h[x := h[x] + 1];
    if x < |h| - 1 {
      assert h'[..|h| - 1] == h[..|h| - 1][x := h[x] + 1];
      SumBump(h[..|h| - 1], x);
    } else {
      assert h'[..|h| - 1] == h[..|h| - 1];
    }
  }

  /** An all-zero histogram sums to zero. */
  lemma {:induction false} SumOfEmpty(size: nat)
    ensures Sum(Zero(size)) == 0
    decreases size
  {
    if size > 0 {
      assert Zero(size)[..size - 1] == Zero(size - 1);
      SumOfEmpty(size - 1);
    }
  }

  /** A histogram over an alphabet holding every symbol counts each symbol exactly once: its sum is the number of symbols. */
  lemma {:induction false} HistogramTotal(syms: seq<nat>, size: nat)
    requires forall s :: s in syms ==> s < size
    ensures Sum(Histogram(syms, size)) == |syms|
    decreases |syms|
  {
    if syms == [] {
      SumOfEmpty(size);
    } else {
      var init := syms[..|syms| - 1];
      var x := syms[|syms| - 1];
      assert init + [x] == syms;
      assert x in syms && forall s :: s in init ==> s in syms;
      HistogramTotal(init, size);
      HistogramSnoc(init, x, size);
      SumBump(Histogram(init, size), x);
      assert Histogram(syms, size) == Histogram(init, size)[x := Histogram(init, size)[x] + 1];
    }
  }

  /** A symbol that some group sends with code k has a positive count in histogram k. */
  lemma {:induction false} SentIsCounted(gs: seq<Group>, j: nat, k: nat, s: nat)
    requires j < |gs| && s in GroupSymbols(gs[j], k)
    ensures Occurrences(Symbols(gs, k), s) > 0
    decreases |gs|
  {
    var init := gs[..|gs| - 1];
    var last := GroupSymbols(gs[|gs| - 1], k);
    assert Symbols(gs, k) == Symbols(init, k) + last;
    if j < |gs| - 1 {
      assert init[j] == gs[j];
      SentIsCounted(init, j, k, s);
      OccurrencesGrow(Symbols(init, k), last, s);
    } else {
      assert last == [s];
    }
  }

  /** Appending symbols never lowers a count. */
  lemma {:induction false} OccurrencesGrow(a: seq<nat>, b: seq<nat>, x: nat)
    ensures Occurrences(a + b, x) >= Occurrences(a, x)
    decreases |b|
  {
    if b != [] {
      assert (a + b)[..|a + b| - 1] == a + b[..|b| - 1];
      OccurrencesGrow(a, b[..|b| - 1], x);
    } else {
      assert a + b == a;
    }
  }

  /** The five histograms count the symbols of gs, each over its alphabet. */
  predicate Counted(histos: seq<seq<nat>>, gs: seq<Group>, bits: nat) {
    |histos| == 5 &&
    histos[0] == Histogram(Symbols(gs, 0), AlphabetSize(0, bits)) &&
    histos[1] == Histogram(Symbols(gs, 1), AlphabetSize(1, bits)) &&
    histos[2] == Histogram(Symbols(gs, 2), AlphabetSize(2, bits)) &&
    histos[3] == Histogram(Symbols(gs, 3), AlphabetSize(3, bits)) &&
    histos[4] == Histogram(Symbols(gs, 4), AlphabetSize(4, bits))
  }

  /** Counting the symbols group g sends with code k turns histogram k of done into that of done + [g]. */
  lemma CountedStep(histo: seq<nat>, done: seq<Group>, g: Group, k: nat, bits: nat, x: nat)
    requires histo == Histogram(Symbols(done, k), AlphabetSize(k, bits))
    requires GroupSymbols(g, k) == [x]
    ensures Add(histo, x) == Histogram(Symbols(done + [g], k), AlphabetSize(k, bits))
  {
    SymbolsSnoc(done, g, k);
    HistogramSnoc(Symbols(done, k), x, AlphabetSize(k, bits));
  }

  /** A code group g sends nothing with keeps its histogram. */
  lemma UncountedStep(histo: seq<nat>, done: seq<Group>, g: Group, k: nat, bits: nat)
    requires histo == Histogram(Symbols(done, k), AlphabetSize(k, bits))
    requires GroupSymbols(g, k) == []
    ensures histo == Histogram(Symbols(done + [g], k), AlphabetSize(k, bits))
  {
    SymbolsSnoc(done, g, k);
    assert Symbols(done, k) + [] == Symbols(done, k);
  }

  /** Count the symbols of group g, whose tokens start at position i, each in its code's histogram. */
  method CountGroup(histos: seq<seq<nat>>, tokens: seq<nat>, i: nat, bits: nat, ghost done: seq<Group>, ghost g: Group)
    returns (histos': seq<seq<nat>>)
    requires Counted(histos, done, bits)
    requires Valid(g, bits) && i + |Tok(g)| <= |tokens| && tokens[i..i + |Tok(g)|] == Tok(g)
    ensures Counted(histos', done + [g], bits)
  {
    var t := tokens[i];
    assert t == Tok(g)[0];
    if t < 256 {
      assert g.Literal?;
      assert tokens[i + 1] == g.p.r && tokens[i + 2] == g.p.b && tokens[i + 3] == g.p.a;
      histos' := CountLiteral(histos, t, tokens[i + 1], tokens[i + 2], tokens[i + 3], bits, done, g);
    } else if t < 256 + 24 {
      assert g.Backref?;
      assert tokens[i + 2] == g.distCode;
      histos' := CountBackref(histos, t, tokens[i + 2], bits, done, g);
    } else {
      assert g.CacheHit?;
      histos' := CountCacheHit(histos, t, bits, done, g);
    }
  }

  /** A literal counts its green, red, blue and alpha in codes 0 to 3. */
  method CountLiteral(histos: seq<seq<nat>>, t: nat, r: nat, b: nat, a: nat, bits: nat, ghost done: seq<Group>, ghost g: Group)
    returns (histos': seq<seq<nat>>)
    requires Counted(histos, done, bits)
    requires g.Literal? && g.p.g == t && g.p.r == r && g.p.b == b && g.p.a == a
    ensures Counted(histos', done + [g], bits)
  {
    CountedStep(histos[0], done, g, 0, bits, t);
    CountedStep(histos[1], done, g, 1, bits, r);
    CountedStep(histos[2], done, g, 2, bits, b);
    CountedStep(histos[3], done, g, 3, bits, a);
    UncountedStep(histos[4], done, g, 4, bits);
    histos' := [Add(histos[0], t), Add(histos[1], r), Add(histos[2], b), Add(histos[3], a), histos[4]];
  }

  /** A backward reference counts its length prefix in code 0 and its distance prefix in code 4. */
  method CountBackref(histos: seq<seq<nat>>, t: nat, d: nat, bits: nat, ghost done: seq<Group>, ghost g: Group)
    returns (histos': seq<seq<nat>>)
    requires Counted(histos, done, bits)
    requires g.Backref? && t == 256 + g.lengthCode && d == g.distCode
    ensures Counted(histos', done + [g], bits)
  {
    CountedStep(histos[0], done, g, 0, bits, t);
    UncountedStep(histos[1], done, g, 1, bits);
    UncountedStep(histos[2], done, g, 2, bits);
    UncountedStep(histos[3], done, g, 3, bits);
    CountedStep(histos[4], done, g, 4, bits, d);
    histos' := [Add(histos[0], t), histos[1], histos[2], histos[3], Add(histos[4], d)];
  }

  /** A cache hit counts 280 + its index in code 0. */
  method CountCacheHit(histos: seq<seq<nat>>, t: nat, bits: nat, ghost done: seq<Group>, ghost g: Group)
    returns (histos': seq<seq<nat>>)
    requires Counted(histos, done, bits)
    requires g.CacheHit? && t == 280 + g.index
    ensures Counted(histos', done + [g], bits)
  {
    CountedStep(histos[0], done, g, 0, bits, t);
    UncountedStep(histos[1], done, g, 1, bits);
    UncountedStep(histos[2], done, g, 2, bits);
    UncountedStep(histos[3], done, g, 3, bits);
    UncountedStep(histos[4], done, g, 4, bits);
    histos' := [Add(histos[0], t), histos[1], histos[2], histos[3], histos[4]];
  }

  /** Zeroed histograms of the five alphabets: 256 + 24 + the cache size, 256, 256, 256 and 40 entries. */
  function NoCounts(bits: nat): (histos: seq<seq<nat>>)
    ensures Counted(histos, [], bits)
  {
    var c := if bits > 0 then Pow2(bits) else 0;
    [Zero(256 + 24 + c), Zero(256), Zero(256), Zero(256), Zero(40)]
  }

  /** The tokens from position i on are those of the valid groups rest. */
  ghost predicate Walks(tokens: seq<nat>, i: nat, rest: seq<Group>, bits: nat) {
    i <= |tokens| && tokens[i..] == Flatten(rest) && forall j :: 0 <= j < |rest| ==> Valid(rest[j], bits)
  }

  /** The first group of a stream that walks cleanly: its tokens open the stream, and the rest walks to the other groups. */
  lemma ParseHead(ts: seq<nat>, bits: nat) returns (n: nat)
    requires ts != [] && Parse(ts, bits).Some?
    ensures var gs := Parse(ts, bits).value;
      gs != [] && n == |Tok(gs[0])| && n <= |ts| && Tok(gs[0]) == ts[..n] && Parse(ts[n..], bits) == Some(gs[1..])
  {
    var gs := Parse(ts, bits).value;
    if ts[0] >= 280 {
      n := 1;
    } else if ts[0] < 256 {
      n := 4;
      assert Tok(gs[0]) == [ts[0], ts[1], ts[2], ts[3]];
    } else {
      n := 4;
      assert Tok(gs[0]) == [ts[0], ts[1], ts[2], ts[3]];
    }
  }

  /** A stream that walks cleanly is the token stream of the groups it walks to. */
  lemma {:induction false} ParsedFlatten(ts: seq<nat>, bits: nat)
    requires Parse(ts, bits).Some?
    ensures Flatten(Parse(ts, bits).value) == ts
    decreases |ts|
  {
    if ts != [] {
      var gs := Parse(ts, bits).value;
      var n := ParseHead(ts, bits);
      ParsedFlatten(ts[n..], bits);
      assert gs == [gs[0]] + gs[1..];
      FlattenCons(gs[0], gs[1..]);
      assert ts == ts[..n] + ts[n..];
    }
  }

  /**
   * computeHistograms: walk the token stream group by group and count each
   * symbol in the histogram of the code that sends it. The stream must walk
   * cleanly (the source indexes past its tables otherwise); the result is the
   * histogram of each code's symbols.
   */
  method ComputeHistograms(tokens: seq<nat>, bits: nat) returns (histos: seq<seq<nat>>)
    requires Parse(tokens, bits).Some?
    ensures Counted(histos, Parse(tokens, bits).value, bits)
  {
    ghost var gs := Parse(tokens, bits).value;
    ParsedFlatten(tokens, bits);
    histos := NoCounts(bits);
    ghost var n := 0;
    var i := 0;
    while i < |tokens|
      invariant n <= |gs| && Walks(tokens, i, gs[n..], bits)
      invariant Counted(histos, gs[..n], bits)
      decreases |tokens| - i
    {
      var step;
      histos, step := CountNext(histos, tokens, i, bits, gs, n);
      n := n + 1;
      i := i + step;
    }
    assert gs[..n] == gs;
  }

  /** Count group n of gs, whose tokens start at position i: the walk moves on by its size. */
  method CountNext(histos: seq<seq<nat>>, tokens: seq<nat>, i: nat, bits: nat, ghost gs: seq<Group>, ghost n: nat)
    returns (histos': seq<seq<nat>>, step: nat)
    requires i < |tokens| && n <= |gs| && Walks(tokens, i, gs[n..], bits) && Counted(histos, gs[..n], bits)
    ensures n < |gs| && step >= 1
    ensures Walks(tokens, i + step, gs[n + 1..], bits) && Counted(histos', gs[..n + 1], bits)
  {
    step := WalkStep(tokens, i, bits, gs[n..]);
    histos' := CountGroup(histos, tokens, i, bits, gs[..n], gs[n]);
    PrefixSnoc(gs, n);
    SuffixTail(gs, n);
  }

  /** Dropping the first of the groups from n on leaves those from n + 1 on. */
  lemma SuffixTail<T>(s: seq<T>, n: nat)
    requires n < |s|
    ensures s[n..][1..] == s[n + 1..]
  {
  }

  /**
   * The group at position i of a stream that walks cleanly: its first token
   * says its kind and size.
   */
  method WalkStep(tokens: seq<nat>, i: nat, bits: nat, ghost rest: seq<Group>) returns (step: nat)
    requires i < |tokens| && Walks(tokens, i, rest, bits)
    ensures rest != [] && step == |Tok(rest[0])| && i + step <= |tokens|
    ensures tokens[i..i + step] == Tok(rest[0]) && Valid(rest[0], bits)
    ensures Walks(tokens, i + step, rest[1..], bits)
  {
    ghost var g := rest[0];
    FlattenCons(g, rest[1..]);
    assert [g] + rest[1..] == rest;
    assert tokens[i] == Tok(g)[0];
    if tokens[i] >= 280 {
      step := 1;
    } else {
      step := 4;
    }
    assert tokens[i..][step..] == tokens[i + step..];
  }
}
