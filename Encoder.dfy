/**
 * encodeImageData of writer.go: the LZ77 tokeniser. It walks the pixels once,
 * looks up earlier positions with the same three-pixel hash through a hash
 * chain (head and prev), and emits a backward reference for a match of at
 * least three pixels, a colour-cache hit, or a literal pixel. The tokens it
 * emits decode, by the format's rules, back to exactly the input pixels.
 */
module Encoder {
  import opened WebPTypes
  import opened Bits
  import opened Lz77Codes
  import opened Tokens

  /** The sliding window: a match must start fewer than 2^20 - 120 pixels back. */
  const WindowSize: nat := 0x10_0000 - 120

  /** The longest match writer.go looks for. */
  const MaxMatch: nat := 4096

  /** The largest colour-cache size, in bits, the format allows. */
  const MaxCacheBits: nat := 11

  /** The length of the run of pixels from i that repeats the pixels from cur, capped at 4096. */
  method MatchLength(pixels: seq<Pixel>, i: nat, cur: nat) returns (l: nat)
    requires cur < i < |pixels|
    ensures l <= MaxMatch && Matches(pixels, i, i - cur, l)
    ensures l < MaxMatch && i + l < |pixels| ==> pixels[i + l] != pixels[cur + l]
  {
    l := 0;
    while i + l < |pixels| && l < MaxMatch
      invariant l <= MaxMatch && Matches(pixels, i, i - cur, l)
      decreases |pixels| - l
    {
      if pixels[i + l] != pixels[cur + l] {
        break;
      }
      assert Repeats(pixels, i + l, i - cur);
      l := l + 1;
    }
  }

  /**
   * Walk at most eight links of the hash chain from position start, keeping
   * the first longest match. The walk stops at the chain's end (-1) or at a
   * position outside the window.
   */
  method FindMatch(pixels: seq<Pixel>, i: nat, start: int, prev: array<int>) returns (streak: nat, dis: nat)
    requires i < |pixels| && -1 <= start < i && prev.Length == |pixels|
    requires LinksBack(prev)
    ensures streak <= MaxMatch
    ensures streak > 0 ==> 1 <= dis < WindowSize && Matches(pixels, i, dis, streak)
  {
    var cur := start;
    streak, dis := 0, 0;
    var hops := 0;
    while hops < 8
      invariant -1 <= cur < i
      invariant streak <= MaxMatch
      invariant streak > 0 ==> 1 <= dis < WindowSize && Matches(pixels, i, dis, streak)
    {
      if cur == -1 || i - cur >= WindowSize {
        break;
      }
      var l := MatchLength(pixels, i, cur);
      if l > streak {
        streak, dis := l, i - cur;
      }
      cur := prev[cur] - 1;
      hops := hops + 1;
    }
  }

  /** The cache index of p is inside a cache of 2^bits entries. */
  lemma HashInCache(p: Pixel, bits: nat)
    requires bits <= MaxCacheBits
    ensures Hash(p, bits) < Pow2(bits)
  {
    HashBound(p, bits);
  }

  /** Store the pixels of a matched run in the colour cache, in order. */
  method CacheRun(cache: array<Pixel>, pixels: seq<Pixel>, i: nat, len: nat, bits: nat)
    requires i + len <= |pixels| && bits <= MaxCacheBits && cache.Length == Pow2(bits)
    modifies cache
    ensures cache[..] == Fill(old(cache[..]), pixels[i..i + len], bits)
  {
    ghost var start := cache[..];
    var j := 0;
    while j < len
      invariant j <= len
      invariant cache[..] == Fill(start, pixels[i..i + j], bits)
    {
      var p := pixels[i + j];
      var h := Hash(p, bits);
      HashInCache(p, bits);
      ghost var before := cache[..];
      cache[h] := p;
      assert cache[..] == CachePut(before, p, bits) by {
        assert before[h := p] == CachePut(before, p, bits);
      }
      FillNext(start, pixels, i, j, bits);
      j := j + 1;
    }
  }

  /** Filling the cache with one more pixel of a run stores it after the others. */
  lemma FillNext(cache: seq<Pixel>, pixels: seq<Pixel>, i: nat, j: nat, bits: nat)
    requires i + j < |pixels|
    ensures Fill(cache, pixels[i..i + j + 1], bits) == CachePut(Fill(cache, pixels[i..i + j], bits), pixels[i + j], bits)
  {
    assert pixels[i..i + j + 1] == pixels[i..i + j] + [pixels[i + j]];
    FillSnoc(cache, pixels[i..i + j], pixels[i + j], pixels[i..i + j + 1], bits);
  }

  /** Filling the cache with a run stores its last pixel after the others. */
  lemma FillSnoc(cache: seq<Pixel>, init: seq<Pixel>, last: Pixel, run: seq<Pixel>, bits: nat)
    requires run == init + [last]
    ensures Fill(cache, run, bits) == CachePut(Fill(cache, init, bits), last, bits)
  {
    assert run[..|run| - 1] == init;
  }

  /** 2^20 */
  lemma Pow2Of20()
    ensures Pow2(20) == 0x10_0000
  {
    Pow2Of32();
    Pow2Add(16, 4);
    assert Pow2(4) == 16;
  }

  /**
   * The backward reference writer.go emits for a match decodes to exactly the
   * matched run: its length and distance codes fit their alphabets and decode
   * back, and the copy reproduces the run and stores it in the cache.
   */
  lemma BackrefStep(pixels: seq<Pixel>, i: nat, dis: nat, streak: nat, code: nat, width: nat, bits: nat, st: DecState, g: Group)
    requires i + streak <= |pixels| && st.out == pixels[..i]
    requires 1 <= dis < WindowSize && 3 <= streak <= MaxMatch && Matches(pixels, i, dis, streak)
    requires 1 <= code <= dis + 120 && PlaneDecode(code, width) == dis
    requires g == Backref(PrefixEncodeCode(streak).code, PrefixEncodeCode(streak).extra,
                          PrefixEncodeCode(code).code, PrefixEncodeCode(code).extra)
    ensures Valid(g, bits)
    ensures Step(st, g, width, bits) == Some(DecState(pixels[..i + streak], Fill(st.cache, pixels[i..i + streak], bits)))
  {
    PrefixRoundTrip(streak);
    PrefixRoundTrip(code);
    LengthPrefixBound(streak);
    Pow2Of20();
    DistancePrefixBound(code);
    CopyMatches(pixels, i, dis, streak, st, bits);
  }

  /**
   * What the tokens emitted for the first i pixels promise: they are the
   * flattening of valid groups, at most four per pixel, whose decoding
   * produces exactly those pixels and leaves the cache st.cache.
   */
  ghost predicate Progress(pixels: seq<Pixel>, width: nat, bits: nat, i: nat, encoded: seq<nat>, groups: seq<Group>, st: DecState) {
    i <= |pixels| && encoded == Flatten(groups) && |encoded| <= 4 * i
    && (forall j :: 0 <= j < |groups| ==> Valid(groups[j], bits))
    && Expand(groups, width, bits) == Some(st)
    && st.out == pixels[..i] && |st.cache| == Pow2(bits)
  }

  /** Emitting a valid group that decodes to the next k >= 1 pixels keeps the promise. */
  lemma Emit(pixels: seq<Pixel>, width: nat, bits: nat, i: nat, k: nat, encoded: seq<nat>, groups: seq<Group>, st: DecState, g: Group, st': DecState)
    requires Progress(pixels, width, bits, i, encoded, groups, st)
    requires 1 <= k && i + k <= |pixels| && (g.CacheHit? || k >= 1) && Valid(g, bits)
    requires Step(st, g, width, bits) == Some(st') && st'.out == pixels[..i + k] && |st'.cache| == |st.cache|
    ensures Progress(pixels, width, bits, i + k, encoded + Tok(g), groups + [g], st')
  {
    FlattenSnoc(groups, g);
    ExpandSnoc(groups, g, width, bits, st);
  }

  /** The literal group for pixel i decodes to it and stores it in the cache. */
  lemma LiteralStep(pixels: seq<Pixel>, i: nat, width: nat, bits: nat, st: DecState)
    requires i < |pixels| && st.out == pixels[..i]
    ensures Step(st, Literal(pixels[i]), width, bits) == Some(Put(st, pixels[i], bits))
    ensures Put(st, pixels[i], bits).out == pixels[..i + 1]
  {
    PrefixSnoc(pixels, i);
  }

  /** A cache hit for pixel i, found at its hash, decodes to it and leaves the cache as it was. */
  lemma CacheHitStep(pixels: seq<Pixel>, i: nat, width: nat, bits: nat, st: DecState, hc: nat)
    requires i < |pixels| && st.out == pixels[..i] && bits > 0 && |st.cache| == Pow2(bits)
    requires hc == Hash(pixels[i], bits) && hc < |st.cache| && st.cache[hc] == pixels[i]
    ensures Valid(CacheHit(hc), bits)
    ensures Step(st, CacheHit(hc), width, bits) == Some(Put(st, pixels[i], bits))
    ensures Put(st, pixels[i], bits) == DecState(pixels[..i + 1], st.cache)
  {
    PrefixSnoc(pixels, i);
    assert st.cache[hc := pixels[i]] == st.cache;
  }

  /** Every chain head holds a position + 1 at or before i, 0 for an empty chain. */
  predicate HeadsBefore(head: array<int>, i: nat)
    reads head
  {
    forall h :: 0 <= h < head.Length ==> 0 <= head[h] <= i
  }

  /** Every link prev[j] holds an earlier position + 1, 0 for the end of a chain: links lead backwards. */
  predicate LinksBack(prev: array<int>)
    reads prev
  {
    forall j :: 0 <= j < prev.Length ==> 0 <= prev[j] <= j
  }

  /**
   * Put position i at the head of chain h: the previous head becomes i's
   * link and is returned, minus one, as the first earlier position to try
   * (-1 for none).
   */
  method ChainInsert(head: array<int>, prev: array<int>, h: nat, i: nat) returns (cur: int)
    requires head != prev && h < head.Length && i < prev.Length
    requires HeadsBefore(head, i) && LinksBack(prev)
    modifies head, prev
    ensures HeadsBefore(head, i + 1) && LinksBack(prev)
    ensures -1 <= cur < i && cur == old(head[h]) - 1
    ensures head[h] == i + 1 && prev[i] == old(head[h])
  {
    cur := head[h] - 1;
    prev[i] := head[h];
    head[h] := i + 1;
  }

  /** A bound on the chain heads also holds for any later position. */
  lemma HeadsLater(head: array<int>, i: nat, k: nat)
    requires HeadsBefore(head, i) && i <= k
    ensures HeadsBefore(head, k)
  {
  }

  /** The encoder's cache array holds the decoder's cache (when there is a cache). */
  predicate CacheAgrees(cache: array<Pixel>, st: DecState, bits: nat)
    reads cache
  {
    bits > 0 ==> st.cache == cache[..]
  }

  /** Fresh, empty hash-chain tables: 2^14 chain heads and one link per pixel, all 0. */
  method NewChain(n: nat) returns (head: array<int>, prev: array<int>)
    ensures fresh(head) && fresh(prev) && head != prev
    ensures head.Length == Pow2(ChainBits) && prev.Length == n
    ensures HeadsBefore(head, 0) && LinksBack(prev)
  {
    head := new int[Pow2(ChainBits)](_ => 0);
    prev := new int[n](_ => 0);
  }

  /**
   * Emit the backward reference for a run of streak >= 3 pixels from i that
   * repeats the pixels dis before it: store the run in the cache and append
   * the length and distance codes.
   */
  method EmitBackref(pixels: seq<Pixel>, width: nat, bits: nat, cache: array<Pixel>, i: nat, streak: nat, dis: nat,
                     encoded: seq<nat>, ghost groups: seq<Group>, ghost st: DecState)
    returns (encoded': seq<nat>, ghost groups': seq<Group>, ghost st': DecState)
    requires width >= 1 && bits <= MaxCacheBits && cache.Length == Pow2(bits)
    requires Progress(pixels, width, bits, i, encoded, groups, st) && CacheAgrees(cache, st, bits)
    requires 3 <= streak <= MaxMatch && 1 <= dis < WindowSize && Matches(pixels, i, dis, streak)
    modifies cache
    ensures Progress(pixels, width, bits, i + streak, encoded', groups', st') && CacheAgrees(cache, st', bits)
  {
    CacheRun(cache, pixels, i, streak, bits);
    var code := DistanceCode(dis, width);
    var lp := PrefixEncodeCode(streak);
    var dp := PrefixEncodeCode(code);
    var g := Backref(lp.code, lp.extra, dp.code, dp.extra);
    st' := DecState(pixels[..i + streak], Fill(st.cache, pixels[i..i + streak], bits));
    BackrefStep(pixels, i, dis, streak, code, width, bits, st, g);
    Emit(pixels, width, bits, i, streak, encoded, groups, st, g, st');
    encoded', groups' := encoded + [256 + lp.code, lp.extra, dp.code, dp.extra], groups + [g];
  }

  /**
   * Emit pixel i on its own: a cache hit when the cache holds it at its
   * hash, otherwise a literal (storing it in the cache when there is one).
   */
  method EmitPixel(pixels: seq<Pixel>, width: nat, bits: nat, cache: array<Pixel>, i: nat,
                   encoded: seq<nat>, ghost groups: seq<Group>, ghost st: DecState)
    returns (encoded': seq<nat>, ghost groups': seq<Group>, ghost st': DecState)
    requires bits <= MaxCacheBits && cache.Length == Pow2(bits) && i < |pixels|
    requires Progress(pixels, width, bits, i, encoded, groups, st) && CacheAgrees(cache, st, bits)
    modifies cache
    ensures Progress(pixels, width, bits, i + 1, encoded', groups', st') && CacheAgrees(cache, st', bits)
  {
    var p := pixels[i];
    if bits > 0 {
      var hc := Hash(p, bits);
      HashInCache(p, bits);
      if cache[hc] == p {
        var g := CacheHit(hc);
        CacheHitStep(pixels, i, width, bits, st, hc);
        st' := Put(st, p, bits);
        Emit(pixels, width, bits, i, 1, encoded, groups, st, g, st');
        encoded', groups' := encoded + [hc + 280], groups + [g];
        return;
      }
      cache[hc] := p;
    }
    var g := Literal(p);
    LiteralStep(pixels, i, width, bits, st);
    st' := Put(st, p, bits);
    Emit(pixels, width, bits, i, 1, encoded, groups, st, g, st');
    encoded', groups' := encoded + [p.g, p.r, p.b, p.a], groups + [g];
  }

  /**
   * Insert position i (with two pixels after it) into the hash chain of its
   * three pixels and look along that chain for a match.
   */
  method NextMatch(pixels: seq<Pixel>, head: array<int>, prev: array<int>, i: nat) returns (streak: nat, dis: nat)
    requires i + 2 < |pixels| && head.Length == Pow2(ChainBits) && prev.Length == |pixels| && head != prev
    requires HeadsBefore(head, i) && LinksBack(prev)
    modifies head, prev
    ensures HeadsBefore(head, i + 1) && LinksBack(prev)
    ensures streak <= MaxMatch && (streak > 0 ==> 1 <= dis < WindowSize && Matches(pixels, i, dis, streak))
  {
    var h := ChainHash(pixels[i], pixels[i + 1], pixels[i + 2]);
    var cur := ChainInsert(head, prev, h, i);
    streak, dis := FindMatch(pixels, i, cur, prev);
  }

  /** A fresh colour cache of 2^bits entries, all blank as the decoder's starts. */
  method NewCache(bits: nat) returns (cache: array<Pixel>)
    ensures fresh(cache) && cache[..] == BlankCache(Pow2(bits))
  {
    cache := new Pixel[Pow2(bits)](_ => Blank);
    assert cache[..] == BlankCache(Pow2(bits));
  }

  /**
   * One turn of the tokeniser at position i: insert i into its hash chain,
   * look for a backward match along the chain, and emit either the match
   * (when at least 3 pixels long) or pixel i on its own.
   */
  method Advance(pixels: seq<Pixel>, width: nat, bits: nat, head: array<int>, prev: array<int>, cache: array<Pixel>,
                 i: nat, encoded: seq<nat>, ghost groups: seq<Group>, ghost st: DecState)
    returns (i': nat, encoded': seq<nat>, ghost groups': seq<Group>, ghost st': DecState)
    requires width >= 1 && bits <= MaxCacheBits && i < |pixels|
    requires head.Length == Pow2(ChainBits) && prev.Length == |pixels| && cache.Length == Pow2(bits) && head != prev
    requires HeadsBefore(head, i) && LinksBack(prev)
    requires Progress(pixels, width, bits, i, encoded, groups, st) && CacheAgrees(cache, st, bits)
    modifies head, prev, cache
    ensures i < i' <= |pixels|
    ensures HeadsBefore(head, i') && LinksBack(prev)
    ensures Progress(pixels, width, bits, i', encoded', groups', st') && CacheAgrees(cache, st', bits)
  {
    var streak, dis := 0, 0;
    if i + 2 < |pixels| {
      streak, dis := NextMatch(pixels, head, prev, i);
    } else {
      HeadsLater(head, i, i + 1);
    }
    i' := if streak >= 3 then i + streak else i + 1;
    HeadsLater(head, i + 1, i');
    ghost var heads, links := head[..], prev[..];
    if streak >= 3 {
      encoded', groups', st' := EmitBackref(pixels, width, bits, cache, i, streak, dis, encoded, groups, st);
    } else {
      encoded', groups', st' := EmitPixel(pixels, width, bits, cache, i, encoded, groups, st);
    }
    assert head[..] == heads && prev[..] == links;
  }

  /**
   * encodeImageData: tokenise the pixels of an image width pixels wide with a
   * colour cache of 2^bits entries (none when bits is 0). The tokens decode,
   * by the format's rules, to exactly the input pixels, and there are at most
   * four per pixel.
   */
  method EncodeImageData(pixels: seq<Pixel>, width: nat, bits: nat) returns (encoded: seq<nat>)
    requires width >= 1 && bits <= MaxCacheBits
    ensures |encoded| <= 4 * |pixels|
    ensures Decode(encoded, width, bits) == Some(pixels)
  {
    var n := |pixels|;
    var head, prev := NewChain(n);
    var cache := NewCache(bits);
    encoded := [];
    ghost var groups: seq<Group> := [];
    ghost var st := DecState([], cache[..]);
    var i := 0;
    while i < n
      invariant head.Length == Pow2(ChainBits) && prev.Length == n && cache.Length == Pow2(bits) && head != prev
      invariant HeadsBefore(head, i) && LinksBack(prev)
      invariant Progress(pixels, width, bits, i, encoded, groups, st) && CacheAgrees(cache, st, bits)
      decreases n - i
    {
      i, encoded, groups, st := Advance(pixels, width, bits, head, prev, cache, i, encoded, groups, st);
    }
    ParseFlatten(groups, bits);
    assert pixels[..n] == pixels;
  }
}
