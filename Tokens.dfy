/**
 * The token stream of writer.go's image-data coder and its meaning. The
 * encoder writes a flat list of integers in groups: four for a literal pixel
 * (green, red, blue, alpha), four for a backward reference (256 + length
 * prefix, length extra bits, distance prefix, distance extra bits) and one
 * for a colour-cache hit (280 + cache index). The meaning of a group is the
 * decoding rule of the WebP lossless bitstream format (section 5.2): pixels
 * are appended to the output, copied from dist pixels back, or taken from the
 * colour cache, and every pixel produced is stored in the cache at its hash.
 */
module Tokens {
  import opened WebPTypes
  import opened Bits
  import opened Lz77Codes

  /** One group of the token stream. */
  datatype Group =
    | Literal(p: Pixel)
    | Backref(lengthCode: nat, lengthExtra: nat, distCode: nat, distExtra: nat)
    | CacheHit(index: nat)

  /** The tokens of one group, in the order writer.go stores them. */
  function Tok(g: Group): (ts: seq<nat>)
    ensures |ts| == if g.CacheHit? then 1 else 4
  {
    match g
    case Literal(p) => [p.g, p.r, p.b, p.a]
    case Backref(lc, le, dc, de) => [256 + lc, le, dc, de]
    case CacheHit(k) => [280 + k]
  }

  /** The token stream of a list of groups. */
  function Flatten(gs: seq<Group>): seq<nat> {
    if gs == [] then [] else Flatten(gs[..|gs| - 1]) + Tok(gs[|gs| - 1])
  }

  /** The colour-cache size for bits cache bits: 2^bits when there is a cache, else none. */
  function CacheSize(bits: nat): nat {
    if bits > 0 then Pow2(bits) else 0
  }

  /**
   * A group both walkers of writer.go can index their tables with: a length
   * prefix below 24, a distance prefix below 40, and a cache index below the
   * cache size.
   */
  predicate Valid(g: Group, bits: nat) {
    match g
    case Literal(_) => true
    case Backref(lc, _, dc, _) => lc < 24 && dc < 40
    case CacheHit(k) => k < CacheSize(bits)
  }

  /**
   * How computeHistograms and writeImageData walk a token stream: a token
   * below 256 starts a literal of four tokens, one below 280 a backward
   * reference of four, any other a one-token cache hit. None when the stream
   * ends inside a group or a token would index past its table.
   */
  function Parse(ts: seq<nat>, bits: nat): (r: Option<seq<Group>>)
    ensures r.Some? ==> forall j :: 0 <= j < |r.value| ==> Valid(r.value[j], bits)
    decreases |ts|
  {
    if ts == [] then Some([])
    else if ts[0] >= 280 then
      if ts[0] - 280 < CacheSize(bits) then
        match Parse(ts[1..], bits)
        case None => None
        case Some(rest) => Some([CacheHit(ts[0] - 280)] + rest)
      else None
    else if |ts| < 4 then None
    else
      var g :=
        if ts[0] < 256 then
          if ts[1] < 256 && ts[2] < 256 && ts[3] < 256 then Some(Literal(Pixel(ts[1], ts[0], ts[2], ts[3]))) else None
        else if ts[2] < 40 then Some(Backref(ts[0] - 256, ts[1], ts[2], ts[3]))
        else None;
      match g
      case None => None
      case Some(g) =>
        match Parse(ts[4..], bits)
        case None => None
        case Some(rest) => Some([g] + rest)
  }

  /** Flattening a list that starts with g starts with g's tokens. */
  lemma {:induction false} FlattenCons(g: Group, gs: seq<Group>)
    ensures Flatten([g] + gs) == Tok(g) + Flatten(gs)
    decreases |gs|
  {
    if gs != [] {
      var init := gs[..|gs| - 1];
      assert ([g] + gs)[..|gs|] == [g] + init;
      FlattenCons(g, init);
    }
  }

  /** Walking a stream that starts with a valid group's tokens reads that group, then walks the rest. */
  lemma ParseCons(g: Group, ts: seq<nat>, bits: nat)
    requires Valid(g, bits)
    ensures Parse(Tok(g) + ts, bits) == match Parse(ts, bits) case None => None case Some(rest) => Some([g] + rest)
  {
    var all := Tok(g) + ts;
    assert all[|Tok(g)|..] == ts;
    match g
    case Literal(p) =>
      assert Pixel(all[1], all[0], all[2], all[3]) == p;
    case Backref(_, _, _, _) =>
    case CacheHit(_) =>
  }

  /** Walking the token stream of valid groups recovers the groups. */
  lemma {:induction false} ParseFlatten(gs: seq<Group>, bits: nat)
    requires forall j :: 0 <= j < |gs| ==> Valid(gs[j], bits)
    ensures Parse(Flatten(gs), bits) == Some(gs)
    decreases |gs|
  {
    if gs != [] {
      FlattenCons(gs[0], gs[1..]);
      assert [gs[0]] + gs[1..] == gs;
      ParseFlatten(gs[1..], bits);
      ParseCons(gs[0], Flatten(gs[1..]), bits);
    }
  }

  // ---------------------------------------------------------------------
  // The decoder's reading of the groups
  // ---------------------------------------------------------------------

  /** The decoder's state: the pixels produced so far and the colour cache. */
  datatype DecState = DecState(out: seq<Pixel>, cache: seq<Pixel>)

  /** Transparent black, the value of every cache entry before the first store. */
  const Blank := Pixel(0, 0, 0, 0)

  /** A colour cache of n entries, all transparent black. */
  function BlankCache(n: nat): (c: seq<Pixel>)
    ensures |c| == n && forall j :: 0 <= j < n ==> c[j] == Blank
  {
    seq(n, _ => Blank)
  }

  /** Store p in the cache at its hash (when the hash indexes the cache). */
  function CachePut(cache: seq<Pixel>, p: Pixel, bits: nat): (c: seq<Pixel>)
    ensures |c| == |cache|
  {
    var h := Hash(p, bits);
    if h < |cache| then cache[h := p] else cache
  }

  /** The cache after storing the pixels of ps in order. */
  function Fill(cache: seq<Pixel>, ps: seq<Pixel>, bits: nat): (c: seq<Pixel>)
    ensures |c| == |cache|
  {
    if ps == [] then cache else CachePut(Fill(cache, ps[..|ps| - 1], bits), ps[|ps| - 1], bits)
  }

  /** Produce pixel p: append it to the output and store it in the cache. */
  function Put(st: DecState, p: Pixel, bits: nat): DecState {
    DecState(st.out + [p], CachePut(st.cache, p, bits))
  }

  /**
   * The output after copying len pixels, one at a time, each from dist
   * pixels before the current end (so a copy may repeat pixels it has itself
   * produced).
   */
  function CopyOut(out: seq<Pixel>, dist: nat, len: nat): (r: seq<Pixel>)
    requires 1 <= dist <= |out|
    ensures |r| == |out| + len && r[..|out|] == out
  {
    if len == 0 then out
    else
      var o := CopyOut(out, dist, len - 1);
      o + [o[|o| - dist]]
  }

  /** A backward reference: copy len pixels from dist back, storing each copied pixel in the cache in turn. */
  function CopyRun(st: DecState, dist: nat, len: nat, bits: nat): (r: DecState)
    requires 1 <= dist <= |st.out|
  {
    var o := CopyOut(st.out, dist, len);
    DecState(o, Fill(st.cache, o[|st.out|..], bits))
  }

  /**
   * Decode one group. A backward reference decodes its length and distance
   * codes; the distance must reach back no further than the output's start.
   * A cache hit needs a cache and an index inside it.
   */
  function Step(st: DecState, g: Group, width: nat, bits: nat): Option<DecState> {
    match g
    case Literal(p) => Some(Put(st, p, bits))
    case CacheHit(k) =>
      if bits > 0 && k < |st.cache| then Some(Put(st, st.cache[k], bits)) else None
    case Backref(lc, le, dc, de) =>
      if lc < 24 && le < Pow2(PrefixEncodeBits(lc)) && dc < 40 && de < Pow2(PrefixEncodeBits(dc)) then
        var dist := PlaneDecode(PrefixDecode(dc, de), width);
        if 1 <= dist <= |st.out| then Some(CopyRun(st, dist, PrefixDecode(lc, le), bits)) else None
      else None
  }

  /** Decode a list of groups, starting from an empty output and a blank cache of 2^bits entries. */
  function Expand(gs: seq<Group>, width: nat, bits: nat): Option<DecState> {
    if gs == [] then Some(DecState([], BlankCache(Pow2(bits))))
    else
      match Expand(gs[..|gs| - 1], width, bits)
      case None => None
      case Some(st) => Step(st, gs[|gs| - 1], width, bits)
  }

  /** The pixels a token stream decodes to, for an image width pixels wide with bits cache bits. */
  function Decode(ts: seq<nat>, width: nat, bits: nat): Option<seq<Pixel>> {
    match Parse(ts, bits)
    case None => None
    case Some(gs) =>
      match Expand(gs, width, bits)
      case None => None
      case Some(st) => Some(st.out)
  }

  /** Decoding one more group continues from the state the others leave. */
  lemma ExpandSnoc(gs: seq<Group>, g: Group, width: nat, bits: nat, st: DecState)
    requires Expand(gs, width, bits) == Some(st)
    ensures Expand(gs + [g], width, bits) == Step(st, g, width, bits)
  {
    assert (gs + [g])[..|gs|] == gs;
  }

  /** The tokens of one more group follow the others'. */
  lemma FlattenSnoc(gs: seq<Group>, g: Group)
    ensures Flatten(gs + [g]) == Flatten(gs) + Tok(g)
  {
    assert (gs + [g])[..|gs|] == gs;
  }

  /** The run of len pixels from i repeats the pixels dist before it (the run may overlap them). */
  predicate Matches(pixels: seq<Pixel>, i: nat, dist: nat, len: nat) {
    dist <= i && i + len <= |pixels| && forall m :: i <= m < i + len ==> Repeats(pixels, m, dist)
  }

  /** Pixel k equals the pixel dist before it. */
  predicate Repeats(pixels: seq<Pixel>, k: nat, dist: nat) {
    dist <= k < |pixels| && pixels[k - dist] == pixels[k]
  }

  /** Copying a run that repeats the pixels dist before it extends the output by exactly that run. */
  lemma {:induction false} CopyOutMatches(pixels: seq<Pixel>, i: nat, dist: nat, len: nat)
    requires 1 <= dist && Matches(pixels, i, dist, len)
    ensures CopyOut(pixels[..i], dist, len) == pixels[..i + len]
    decreases len
  {
    if len > 0 {
      CopyOutMatches(pixels, i, dist, len - 1);
      assert Repeats(pixels, i + len - 1, dist);
      PrefixSnoc(pixels, i + len - 1);
    }
  }

  /**
   * Copying a run that repeats the pixels dist before it extends the output
   * by exactly that run and stores the run's pixels in the cache.
   */
  lemma CopyMatches(pixels: seq<Pixel>, i: nat, dist: nat, len: nat, st: DecState, bits: nat)
    requires 1 <= dist && Matches(pixels, i, dist, len) && st.out == pixels[..i]
    ensures CopyRun(st, dist, len, bits) == DecState(pixels[..i + len], Fill(st.cache, pixels[i..i + len], bits))
  {
    CopyOutMatches(pixels, i, dist, len);
    assert pixels[..i + len][i..] == pixels[i..i + len];
  }

  /** The first k + 1 pixels are the first k and pixel k. */
  lemma PrefixSnoc<T>(s: seq<T>, k: nat)
    requires k < |s|
    ensures s[..k] + [s[k]] == s[..k + 1]
  {
  }
}
