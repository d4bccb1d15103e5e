/**
 * The image-data coder of writer.go (writeImageData): the colour-cache
 * field, the five Huffman code tables built from the token histograms and
 * sent ahead of the data, and then every token group written with those
 * codes. Beside the writer sits a reader of the group bits that, given the
 * five tables, recovers the groups the writer coded.
 */
module ImageWriter {
  import opened WebPTypes
  import opened Bits
  import opened BitWriter
  import opened Lz77Codes
  import opened Tokens
  import opened Huffman
  import opened HuffmanHeader
  import opened PrefixCode
  import opened Histograms
  import opened Encoder

  /** How a call of the image-data writer ends. */
  datatype Outcome =
    | Written
      /** A code table has no header the writer can send (the source panics). */
    | HeaderPanic
      /** A code is longer than the 56 bits one write can carry (outside the model). */
    | DeepCode

  /** The maximum code length writer.go passes to buildhuffmanCodes. */
  const MaxCodeDepth: nat := 15

  // ---------------------------------------------------------------------
  // The bits of the image data
  // ---------------------------------------------------------------------

  /** The colour-cache field: a flag, and the cache bits in 4 bits when there is a cache. */
  function CacheField(bits: nat): (bs: seq<bool>)
    requires bits < 16
  {
    if bits > 0 then [true] + LsbBits(bits, 4) else [false]
  }

  /** The bits of symbol s under a code table (none when s is outside it). */
  function SymbolBits(table: seq<HuffmanCode>, s: nat): seq<bool> {
    if s < |table| then CodeBits(table[s]) else []
  }

  /**
   * The bits of one group: a literal's green, red, blue and alpha codes; a
   * backward reference's length code, length extra bits, distance code and
   * distance extra bits; a cache hit's code.
   */
  function GroupBits(g: Group, codes: seq<seq<HuffmanCode>>): seq<bool>
    requires |codes| == 5
  {
    match g
    case Literal(p) =>
      SymbolBits(codes[0], p.g) + SymbolBits(codes[1], p.r) + SymbolBits(codes[2], p.b) + SymbolBits(codes[3], p.a)
    case Backref(lc, le, dc, de) =>
      SymbolBits(codes[0], 256 + lc) + LsbBits(le, PrefixEncodeBits(lc))
      + SymbolBits(codes[4], dc) + LsbBits(de, PrefixEncodeBits(dc))
    case CacheHit(k) => SymbolBits(codes[0], 280 + k)
  }

  /** The encodings of a list of items, one after another. */
  function Encodings<T>(enc: T -> seq<bool>, xs: seq<T>): seq<bool> {
    if xs == [] then [] else Encodings(enc, xs[..|xs| - 1]) + enc(xs[|xs| - 1])
  }

  /** The encoder of one group with the given tables. */
  function GroupEncoder(codes: seq<seq<HuffmanCode>>): Group -> seq<bool>
    requires |codes| == 5
  {
    g => GroupBits(g, codes)
  }

  /** The bits of a list of groups, one after another. */
  function TokenBits(gs: seq<Group>, codes: seq<seq<HuffmanCode>>): seq<bool>
    requires |codes| == 5
  {
    Encodings(GroupEncoder(codes), gs)
  }

  /** Every table has a header the source's writer sends without a panic. */
  ghost predicate HeadersOk(codes: seq<seq<HuffmanCode>>, lengths: seq<seq<HuffmanCode>>) {
    |codes| == |lengths| && forall k :: 0 <= k < |codes| ==> HeaderSendable(codes[k], lengths[k])
  }

  /** The headers of the tables, one after another. */
  ghost function Headers(codes: seq<seq<HuffmanCode>>, lengths: seq<seq<HuffmanCode>>): seq<bool>
    requires HeadersOk(codes, lengths)
  {
    if codes == [] then []
    else Headers(codes[..|codes| - 1], lengths[..|lengths| - 1]) + HeaderBits(codes[|codes| - 1], lengths[|lengths| - 1])
  }

  /** One more sendable table: its header follows the others'. */
  lemma HeadersSnoc(codes: seq<seq<HuffmanCode>>, lengths: seq<seq<HuffmanCode>>, c: seq<HuffmanCode>, l: seq<HuffmanCode>)
    requires HeadersOk(codes, lengths) && HeaderSendable(c, l)
    ensures HeadersOk(codes + [c], lengths + [l])
    ensures Headers(codes + [c], lengths + [l]) == Headers(codes, lengths) + HeaderBits(c, l)
  {
    assert (codes + [c])[..|codes|] == codes && (lengths + [l])[..|lengths|] == lengths;
  }

  /** What one call of the image-data writer decides: the groups, the five code tables and their length codes. */
  datatype Section = Section(groups: seq<Group>, codes: seq<seq<HuffmanCode>>, lengths: seq<seq<HuffmanCode>>)

  /** A section whose tables can all be sent. */
  ghost predicate Sendable(sec: Section) {
    |sec.codes| == 5 && HeadersOk(sec.codes, sec.lengths)
  }

  /** The bits of a section: cache field, the 0 marker (no meta codes) of the top-level image, the five headers, then the groups. */
  ghost function SectionBits(sec: Section, bits: nat, recursive: bool): seq<bool>
    requires Sendable(sec) && bits < 16
  {
    Lead(bits, recursive) + Headers(sec.codes, sec.lengths) + TokenBits(sec.groups, sec.codes)
  }

  // ---------------------------------------------------------------------
  // What the tables and groups of a section satisfy
  // ---------------------------------------------------------------------

  /**
   * A code table for a histogram: a code exactly for the used symbols, the
   * shape the Huffman builder gives it, and a book a reader can use.
   */
  ghost predicate CodesFor(table: seq<HuffmanCode>, histo: seq<nat>) {
    |table| == |histo| &&
    (forall s: nat :: s < |histo| ==> (table[s].depth != 0 <==> Used(histo, s))) &&
    Built(table, histo) &&
    Decodable(BookOf(table))
  }

  /**
   * The shape of a built table: a lone used symbol gets the depth -1 marker;
   * two or more get the canonical codes of a complete code (Kraft sum one)
   * whose depths stay below the number of used symbols.
   */
  ghost predicate Built(table: seq<HuffmanCode>, histo: seq<nat>)
    requires |table| == |histo|
  {
    (CountPositive(histo) <= 1 ==> forall s: nat :: Used(histo, s) ==> table[s] == HuffmanCode(s, 0, -1)) &&
    (CountPositive(histo) >= 2 ==>
      (forall s: nat :: Used(histo, s) ==> table[s].symbol == s && 1 <= table[s].depth < CountPositive(histo)) &&
      exists order :: Canonical(table, order) && Within(order, |histo|) && Kraft(order, |histo|) == Pow2(|histo|))
  }

  /** Groups that code the given pixels: each one reads back, and the decoding rule turns them into exactly those pixels. */
  ghost predicate GroupsCode(gs: seq<Group>, pixels: seq<Pixel>, width: nat, bits: nat) {
    (forall j :: 0 <= j < |gs| ==> Valid(gs[j], bits)) &&
    Expand(gs, width, bits).Some? && Expand(gs, width, bits).value.out == pixels
  }

  /** A backward reference's extra bits fit in the number of extra bits its prefix codes carry. */
  predicate Fits(g: Group) {
    g.Backref? ==> g.lengthExtra < Pow2(PrefixEncodeBits(g.lengthCode)) && g.distExtra < Pow2(PrefixEncodeBits(g.distCode))
  }

  /** The k-th table is the table for the k-th histogram of the groups. */
  ghost predicate TableFor(sec: Section, k: nat, bits: nat)
    requires k < |sec.codes|
  {
    CodesFor(sec.codes[k], Histogram(Symbols(sec.groups, k), AlphabetSize(k, bits)))
  }

  /**
   * A section that codes the given pixels: its groups are the ones the
   * decoding rule turns into exactly those pixels, and each table is the
   * code for its histogram of the groups.
   */
  ghost predicate SectionOk(sec: Section, pixels: seq<Pixel>, width: nat, bits: nat) {
    Sendable(sec) && GroupsCode(sec.groups, pixels, width, bits) &&
    (forall j :: 0 <= j < |sec.groups| ==> Fits(sec.groups[j])) &&
    (forall k :: 0 <= k < 5 ==> TableFor(sec, k, bits)) &&
    Shallow(sec.codes)
  }

  /** Every group the decoding rule accepts has extra bits that fit. */
  lemma {:induction false} ExpandedFit(gs: seq<Group>, width: nat, bits: nat)
    requires Expand(gs, width, bits).Some?
    ensures forall j :: 0 <= j < |gs| ==> Fits(gs[j])
    decreases |gs|
  {
    if gs != [] {
      var init := gs[..|gs| - 1];
      ExpandedFit(init, width, bits);
      forall j | 0 <= j < |gs|
        ensures Fits(gs[j])
      {
        if j < |gs| - 1 {
          assert gs[j] == init[j];
        }
      }
    }
  }

  /** Symbol s that group g sends with code k has a live code in the section's k-th table. */
  lemma SentIsCoded(sec: Section, pixels: seq<Pixel>, width: nat, bits: nat, j: nat, k: nat, s: nat)
    requires SectionOk(sec, pixels, width, bits) && j < |sec.groups| && k < 5 && s in GroupSymbols(sec.groups[j], k)
    ensures s < |sec.codes[k]| && sec.codes[k][s].depth != 0
  {
    var size := AlphabetSize(k, bits);
    var syms := Symbols(sec.groups, k);
    GroupSymbolsInAlphabet(sec.groups[j], k, bits);
    SentIsCounted(sec.groups, j, k, s);
    HistogramCounts(syms, size, s);
    assert TableFor(sec, k, bits);
    assert Used(Histogram(syms, size), s);
  }

  /** Every code table of a section is as long as its alphabet. */
  lemma TableSizes(sec: Section, pixels: seq<Pixel>, width: nat, bits: nat, k: nat)
    requires SectionOk(sec, pixels, width, bits) && k < 5
    ensures |sec.codes[k]| == AlphabetSize(k, bits) && Decodable(BookOf(sec.codes[k]))
  {
    assert TableFor(sec, k, bits);
  }

  // ---------------------------------------------------------------------
  // Reading the group bits back
  // ---------------------------------------------------------------------

  /** Read one symbol with a table's code: the symbol and the number of bits it took. */
  function ReadSymbol(table: seq<HuffmanCode>, bs: seq<bool>): (r: Option<(nat, nat)>)
    ensures r.Some? ==> r.value.1 <= |bs|
  {
    DecodeSymbol(BookOf(table), bs)
  }

  /** Read an n-bit field, least significant bit first. */
  function ReadField(bs: seq<bool>, n: nat): (r: Option<(nat, nat)>)
    ensures r.Some? ==> r.value.1 <= |bs|
  {
    if n <= |bs| then Some((FromBits(bs[..n]), n)) else None
  }

  /** The rest of a literal whose green is known: red, blue and alpha. */
  function ReadLiteral(codes: seq<seq<HuffmanCode>>, green: nat, bs: seq<bool>): (r: Option<(Group, nat)>)
    requires |codes| == 5
    ensures r.Some? ==> r.value.1 <= |bs|
  {
    match ReadSymbol(codes[1], bs)
    case None => None
    case Some((red, u)) =>
      match ReadSymbol(codes[2], bs[u..])
      case None => None
      case Some((blue, v)) =>
        match ReadSymbol(codes[3], bs[u + v..])
        case None => None
        case Some((alpha, x)) =>
          if green < 256 && red < 256 && blue < 256 && alpha < 256 then
            Some((Literal(Pixel(red, green, blue, alpha)), u + v + x))
          else None
  }

  /** The rest of a backward reference whose length code is known. */
  function ReadBackref(codes: seq<seq<HuffmanCode>>, lc: nat, bs: seq<bool>): (r: Option<(Group, nat)>)
    requires |codes| == 5
    ensures r.Some? ==> r.value.1 <= |bs|
  {
    match ReadField(bs, PrefixEncodeBits(lc))
    case None => None
    case Some((le, u)) =>
      match ReadDistance(codes, lc, le, bs[u..])
      case None => None
      case Some((g, v)) => Some((g, u + v))
  }

  /** The distance of a backward reference whose length is known: its code and extra bits. */
  function ReadDistance(codes: seq<seq<HuffmanCode>>, lc: nat, le: nat, bs: seq<bool>): (r: Option<(Group, nat)>)
    requires |codes| == 5
    ensures r.Some? ==> r.value.1 <= |bs|
  {
    match ReadSymbol(codes[4], bs)
    case None => None
    case Some((dc, v)) =>
      match ReadField(bs[v..], PrefixEncodeBits(dc))
      case None => None
      case Some((de, x)) => Some((Backref(lc, le, dc, de), v + x))
  }

  /**
   * Read one group: the first symbol picks a literal (below 256), a
   * backward reference (below 280) or a cache hit.
   */
  function ReadGroup(codes: seq<seq<HuffmanCode>>, bs: seq<bool>): (r: Option<(Group, nat)>)
    requires |codes| == 5
    ensures r.Some? ==> r.value.1 <= |bs|
  {
    match ReadSymbol(codes[0], bs)
    case None => None
    case Some((s, u)) =>
      match ReadAfter(codes, s, bs[u..])
      case None => None
      case Some((g, v)) => Some((g, u + v))
  }

  /** The rest of a group whose first symbol is s. */
  function ReadAfter(codes: seq<seq<HuffmanCode>>, s: nat, bs: seq<bool>): (r: Option<(Group, nat)>)
    requires |codes| == 5
    ensures r.Some? ==> r.value.1 <= |bs|
  {
    if s < 256 then ReadLiteral(codes, s, bs)
    else if s < 280 then ReadBackref(codes, s - 256, bs)
    else Some((CacheHit(s - 280), 0))
  }

  /** Read n items one after another with a reader of one item: the items and the number of bits they took. */
  function ReadMany<T>(read: seq<bool> -> Option<(T, nat)>, bs: seq<bool>, n: nat): (r: Option<(seq<T>, nat)>)
    ensures r.Some? ==> |r.value.0| == n && r.value.1 <= |bs|
    decreases n
  {
    if n == 0 then Some(([], 0))
    else
      match read(bs)
      case None => None
      case Some((x, u)) =>
        if u > |bs| then None
        else
          match ReadMany(read, bs[u..], n - 1)
          case None => None
          case Some((more, v)) => Some(([x] + more, u + v))
  }

  /** The reader of one group with the given tables. */
  function GroupReader(codes: seq<seq<HuffmanCode>>): seq<bool> -> Option<(Group, nat)>
    requires |codes| == 5
  {
    bs => ReadGroup(codes, bs)
  }

  /** Read n groups one after another: the groups and the number of bits they took. */
  function ReadGroups(codes: seq<seq<HuffmanCode>>, bs: seq<bool>, n: nat): (r: Option<(seq<Group>, nat)>)
    requires |codes| == 5
    ensures r.Some? ==> |r.value.0| == n && r.value.1 <= |bs|
  {
    ReadMany(GroupReader(codes), bs, n)
  }

  /** Five tables a reader can use. */
  ghost predicate Decoders(codes: seq<seq<HuffmanCode>>) {
    |codes| == 5 && forall k :: 0 <= k < 5 ==> Decodable(BookOf(codes[k]))
  }

  /** Five tables that give a live code to every symbol g sends. */
  ghost predicate Readable(g: Group, codes: seq<seq<HuffmanCode>>) {
    |codes| == 5 && forall k, s :: 0 <= k < 5 && s in GroupSymbols(g, k) ==> s < |codes[k]| && codes[k][s].depth != 0
  }

  /** A coded symbol reads back as itself, taking exactly its code's bits. */
  lemma ReadCoded(table: seq<HuffmanCode>, s: nat, rest: seq<bool>)
    requires Decodable(BookOf(table)) && s < |table| && table[s].depth != 0
    ensures ReadSymbol(table, SymbolBits(table, s) + rest) == Some((s, |SymbolBits(table, s)|))
  {
    var book := BookOf(table);
    assert book[s].value == SymbolBits(table, s);
    DecodeWord(book, s, rest);
  }

  /** A field written in n bits reads back as its value. */
  lemma ReadFieldBack(v: nat, n: nat, rest: seq<bool>)
    requires v < Pow2(n)
    ensures ReadField(LsbBits(v, n) + rest, n) == Some((v, n))
  {
    assert (LsbBits(v, n) + rest)[..n] == LsbBits(v, n);
    ReadBack(v, n);
  }

  /** A four-part stream followed by more: its first part, then the rest. */
  lemma Regroup(a: seq<bool>, b: seq<bool>, c: seq<bool>, d: seq<bool>, rest: seq<bool>)
    ensures a + b + c + d + rest == a + (b + c + d + rest)
    ensures (a + (b + c + d + rest))[|a|..] == b + c + d + rest
  {
  }

  /** Dropping the first part of a three-part stream. */
  lemma DropFirst(a: seq<bool>, b: seq<bool>, c: seq<bool>, rest: seq<bool>)
    ensures (a + b + c + rest)[|a|..] == b + c + rest
    ensures (a + b + c + rest)[|a| + |b|..] == c + rest
  {
  }

  /** The bits of a literal's red, blue and alpha read back as that literal. */
  lemma ReadLiteralBack(p: Pixel, codes: seq<seq<HuffmanCode>>, rest: seq<bool>)
    requires Decoders(codes) && Readable(Literal(p), codes)
    ensures var bs := SymbolBits(codes[1], p.r) + SymbolBits(codes[2], p.b) + SymbolBits(codes[3], p.a);
      ReadLiteral(codes, p.g, bs + rest) == Some((Literal(p), |bs|))
  {
    var r, b, a := SymbolBits(codes[1], p.r), SymbolBits(codes[2], p.b), SymbolBits(codes[3], p.a);
    var all := r + b + a + rest;
    assert p.r in GroupSymbols(Literal(p), 1);
    assert p.b in GroupSymbols(Literal(p), 2);
    assert p.a in GroupSymbols(Literal(p), 3);
    DropFirst(r, b, a, rest);
    assert all == r + (b + a + rest);
    ReadCoded(codes[1], p.r, b + a + rest);
    assert ReadSymbol(codes[1], all) == Some((p.r as nat, |r|));
    assert b + a + rest == b + (a + rest);
    ReadCoded(codes[2], p.b, a + rest);
    assert ReadSymbol(codes[2], all[|r|..]) == Some((p.b as nat, |b|));
    ReadCoded(codes[3], p.a, rest);
    assert ReadSymbol(codes[3], all[|r| + |b|..]) == Some((p.a as nat, |a|));
    assert Pixel(p.r, p.g, p.b, p.a) == p;
  }

  /** The bits of a backward reference after its length code read back as that reference. */
  lemma ReadBackrefBack(g: Group, codes: seq<seq<HuffmanCode>>, rest: seq<bool>)
    requires g.Backref? && Fits(g) && Decoders(codes) && Readable(g, codes)
    ensures var bs := LsbBits(g.lengthExtra, PrefixEncodeBits(g.lengthCode)) + SymbolBits(codes[4], g.distCode)
        + LsbBits(g.distExtra, PrefixEncodeBits(g.distCode));
      ReadBackref(codes, g.lengthCode, bs + rest) == Some((g, |bs|))
  {
    var le := LsbBits(g.lengthExtra, PrefixEncodeBits(g.lengthCode));
    var dist := SymbolBits(codes[4], g.distCode) + LsbBits(g.distExtra, PrefixEncodeBits(g.distCode));
    assert le + SymbolBits(codes[4], g.distCode) + LsbBits(g.distExtra, PrefixEncodeBits(g.distCode)) + rest == le + (dist + rest);
    ReadFieldBack(g.lengthExtra, PrefixEncodeBits(g.lengthCode), dist + rest);
    assert (le + (dist + rest))[|le|..] == dist + rest;
    ReadDistanceBack(g, codes, rest);
  }

  /** The distance bits of a backward reference read back as that reference, given its length. */
  lemma ReadDistanceBack(g: Group, codes: seq<seq<HuffmanCode>>, rest: seq<bool>)
    requires g.Backref? && Fits(g) && Decoders(codes) && Readable(g, codes)
    ensures var bs := SymbolBits(codes[4], g.distCode) + LsbBits(g.distExtra, PrefixEncodeBits(g.distCode));
      ReadDistance(codes, g.lengthCode, g.lengthExtra, bs + rest) == Some((g, |bs|))
  {
    var dc := SymbolBits(codes[4], g.distCode);
    var de := LsbBits(g.distExtra, PrefixEncodeBits(g.distCode));
    assert g.distCode in GroupSymbols(g, 4);
    assert dc + de + rest == dc + (de + rest);
    ReadCoded(codes[4], g.distCode, de + rest);
    assert (dc + (de + rest))[|dc|..] == de + rest;
    ReadFieldBack(g.distExtra, PrefixEncodeBits(g.distCode), rest);
  }

  /** The bits of a group read back as that group, taking exactly its bits. */
  lemma ReadGroupBack(g: Group, codes: seq<seq<HuffmanCode>>, bits: nat, rest: seq<bool>)
    requires Valid(g, bits) && Fits(g) && Decoders(codes) && Readable(g, codes)
    ensures ReadGroup(codes, GroupBits(g, codes) + rest) == Some((g, |GroupBits(g, codes)|))
  {
    match g
    case Literal(p) => ReadLiteralGroup(p, codes, rest);
    case Backref(_, _, _, _) => ReadBackrefGroup(g, codes, rest);
    case CacheHit(k) =>
      assert 280 + k in GroupSymbols(g, 0);
      ReadCoded(codes[0], 280 + k, rest);
  }

  /** Reading a group is reading its first symbol and then the rest. */
  lemma ReadGroupOf(codes: seq<seq<HuffmanCode>>, head: seq<bool>, tail: seq<bool>, s: nat, g: Group, v: nat)
    requires |codes| == 5
    requires ReadSymbol(codes[0], head + tail) == Some((s, |head|)) && ReadAfter(codes, s, tail) == Some((g, v))
    ensures ReadGroup(codes, head + tail) == Some((g, |head| + v))
  {
    assert (head + tail)[|head|..] == tail;
  }

  /** The bits of a literal read back as that literal. */
  lemma ReadLiteralGroup(p: Pixel, codes: seq<seq<HuffmanCode>>, rest: seq<bool>)
    requires Decoders(codes) && Readable(Literal(p), codes)
    ensures ReadGroup(codes, GroupBits(Literal(p), codes) + rest) == Some((Literal(p), |GroupBits(Literal(p), codes)|))
  {
    var head := SymbolBits(codes[0], p.g);
    var tail := SymbolBits(codes[1], p.r) + SymbolBits(codes[2], p.b) + SymbolBits(codes[3], p.a);
    Regroup(head, SymbolBits(codes[1], p.r), SymbolBits(codes[2], p.b), SymbolBits(codes[3], p.a), rest);
    assert p.g in GroupSymbols(Literal(p), 0);
    ReadCoded(codes[0], p.g, tail + rest);
    ReadLiteralBack(p, codes, rest);
    ReadGroupOf(codes, head, tail + rest, p.g, Literal(p), |tail|);
  }

  /** The bits of a backward reference read back as that reference. */
  lemma ReadBackrefGroup(g: Group, codes: seq<seq<HuffmanCode>>, rest: seq<bool>)
    requires g.Backref? && g.lengthCode < 24 && Fits(g) && Decoders(codes) && Readable(g, codes)
    ensures ReadGroup(codes, GroupBits(g, codes) + rest) == Some((g, |GroupBits(g, codes)|))
  {
    var head := SymbolBits(codes[0], 256 + g.lengthCode);
    var tail := LsbBits(g.lengthExtra, PrefixEncodeBits(g.lengthCode)) + SymbolBits(codes[4], g.distCode)
      + LsbBits(g.distExtra, PrefixEncodeBits(g.distCode));
    Regroup(head, LsbBits(g.lengthExtra, PrefixEncodeBits(g.lengthCode)), SymbolBits(codes[4], g.distCode),
      LsbBits(g.distExtra, PrefixEncodeBits(g.distCode)), rest);
    assert 256 + g.lengthCode in GroupSymbols(g, 0);
    ReadCoded(codes[0], 256 + g.lengthCode, tail + rest);
    ReadBackrefBack(g, codes, rest);
    ReadGroupOf(codes, head, tail + rest, 256 + g.lengthCode, g, |tail|);
  }

  /** An item in front: its encoding first, then the others'. */
  lemma {:induction false} EncodingsCons<T>(enc: T -> seq<bool>, x: T, xs: seq<T>)
    ensures Encodings(enc, [x] + xs) == enc(x) + Encodings(enc, xs)
    decreases |xs|
  {
    if xs != [] {
      var init, last := xs[..|xs| - 1], xs[|xs| - 1];
      assert ([x] + xs)[..|xs|] == [x] + init && ([x] + xs)[|xs|] == last;
      EncodingsCons(enc, x, init);
      Attach2(enc(x), Encodings(enc, init), enc(last));
    }
  }

  /** Reading n items is reading the first and then n - 1 more. */
  lemma ReadManyOf<T>(read: seq<bool> -> Option<(T, nat)>, bs: seq<bool>, head: seq<bool>, tail: seq<bool>, x: T, n: nat,
                      more: seq<T>, v: nat, total: nat)
    requires n >= 1 && bs == head + tail && total == |head| + v
    requires read(head + tail) == Some((x, |head|)) && ReadMany(read, tail, n - 1) == Some((more, v))
    ensures ReadMany(read, bs, n) == Some(([x] + more, total))
  {
    assert (head + tail)[|head|..] == tail;
  }

  /** Items read back from their encodings one after another, when each reads back from its own. */
  lemma {:induction false} ReadManyBack<T>(read: seq<bool> -> Option<(T, nat)>, enc: T -> seq<bool>, xs: seq<T>, rest: seq<bool>)
    requires forall j, r :: 0 <= j < |xs| ==> read(enc(xs[j]) + r) == Some((xs[j], |enc(xs[j])|))
    ensures ReadMany(read, Encodings(enc, xs) + rest, |xs|) == Some((xs, |Encodings(enc, xs)|))
    decreases |xs|
  {
    if xs != [] {
      var x, more := xs[0], xs[1..];
      forall j, r | 0 <= j < |more|
        ensures read(enc(more[j]) + r) == Some((more[j], |enc(more[j])|))
      {
        assert more[j] == xs[j + 1];
      }
      ReadManyBack(read, enc, more, rest);
      assert [x] + more == xs;
      EncodingsCons(enc, x, more);
      Attach2(enc(x), Encodings(enc, more), rest);
      assert read(enc(x) + (Encodings(enc, more) + rest)) == Some((x, |enc(x)|));
      ReadManyOf(read, Encodings(enc, xs) + rest, enc(x), Encodings(enc, more) + rest, x, |xs|, more,
        |Encodings(enc, more)|, |Encodings(enc, xs)|);
    }
  }

  /** The bits of groups that each read back, read back as those groups. */
  lemma ReadGroupsBack(gs: seq<Group>, codes: seq<seq<HuffmanCode>>, bits: nat, rest: seq<bool>)
    requires Decoders(codes)
    requires forall j :: 0 <= j < |gs| ==> Valid(gs[j], bits) && Fits(gs[j]) && Readable(gs[j], codes)
    ensures ReadGroups(codes, TokenBits(gs, codes) + rest, |gs|) == Some((gs, |TokenBits(gs, codes)|))
  {
    var read, enc := GroupReader(codes), GroupEncoder(codes);
    forall j, r | 0 <= j < |gs|
      ensures read(enc(gs[j]) + r) == Some((gs[j], |enc(gs[j])|))
    {
      ReadGroupBack(gs[j], codes, bits, r);
    }
    ReadManyBack(read, enc, gs, rest);
  }

  /**
   * The group bits of a section that codes some pixels read back, with the
   * section's tables, to its groups, and these decode to the pixels. The
   * reader is given the tables; that the headers read back select them is
   * not part of this lemma.
   */
  lemma SectionReadsBack(sec: Section, pixels: seq<Pixel>, width: nat, bits: nat, rest: seq<bool>)
    requires SectionOk(sec, pixels, width, bits)
    ensures ReadGroups(sec.codes, TokenBits(sec.groups, sec.codes) + rest, |sec.groups|).Some?
    ensures var r := ReadGroups(sec.codes, TokenBits(sec.groups, sec.codes) + rest, |sec.groups|).value;
      r == (sec.groups, |TokenBits(sec.groups, sec.codes)|) && Expand(r.0, width, bits).value.out == pixels
  {
    forall j | 0 <= j < |sec.groups|
      ensures Readable(sec.groups[j], sec.codes)
    {
      forall k, s | 0 <= k < 5 && s in GroupSymbols(sec.groups[j], k)
        ensures s < |sec.codes[k]| && sec.codes[k][s].depth != 0
      {
        SentIsCoded(sec, pixels, width, bits, j, k, s);
      }
    }
    forall k | 0 <= k < 5
      ensures Decodable(BookOf(sec.codes[k]))
    {
      TableSizes(sec, pixels, width, bits, k);
    }
    ReadGroupsBack(sec.groups, sec.codes, bits, rest);
  }

  /** Read the colour-cache field: the cache bits (0 for none) and the bits it took. */
  function ReadCacheField(bs: seq<bool>): (r: Option<(nat, nat)>)
    ensures r.Some? ==> r.value.1 <= |bs|
  {
    if bs == [] then None
    else if !bs[0] then Some((0, 1))
    else if |bs| < 5 then None
    else Some((FromBits(bs[1..5]), 5))
  }

  /** The colour-cache field reads back as the cache bits. */
  lemma CacheFieldBack(bits: nat, rest: seq<bool>)
    requires bits < 16
    ensures ReadCacheField(CacheField(bits) + rest) == Some((bits, |CacheField(bits)|))
  {
    if bits > 0 {
      assert Pow2(4) == 16;
      var bs := CacheField(bits) + rest;
      assert bs[1..5] == LsbBits(bits, 4);
      ReadBack(bits, 4);
    }
  }

  // ---------------------------------------------------------------------
  // The writer
  // ---------------------------------------------------------------------

  /** Every code of the tables fits in one write of the bit writer. */
  predicate Shallow(codes: seq<seq<HuffmanCode>>) {
    forall k, s :: 0 <= k < |codes| && 0 <= s < |codes[k]| ==> codes[k][s].depth <= 56
  }

  /** The Huffman code of one histogram, built with maxDepth 15 (writer.go passes it; it only sets the weight floor). */
  method BuildTable(histo: seq<nat>) returns (table: seq<HuffmanCode>)
    requires |histo| >= 1
    ensures CodesFor(table, histo)
  {
    ghost var order;
    table, order := BuildCodes(histo, MaxCodeDepth);
    BuiltCodesDecodable(histo, table);
    if CountPositive(histo) >= 2 {
      assert Canonical(table, order) && Within(order, |histo|) && Kraft(order, |histo|) == Pow2(|histo|);
    }
  }

  /**
   * Build and send the five code tables in turn. Stops at the first table
   * whose header cannot be sent (where the source panics); that table is
   * then the last one returned.
   */
  method WriteTables(w: BitWriter, histos: seq<seq<nat>>) returns (ok: bool, codes: seq<seq<HuffmanCode>>, ghost lengths: seq<seq<HuffmanCode>>)
    requires w.Valid() && |histos| == 5 && forall k :: 0 <= k < 5 ==> |histos[k]| >= 1
    modifies w
    ensures w.Valid()
    ensures |codes| == |lengths| && 1 <= |codes| <= 5
    ensures forall k :: 0 <= k < |codes| ==> CodesFor(codes[k], histos[k])
    ensures ok ==> |codes| == 5 && HeadersOk(codes, lengths) && w.Stream() == old(w.Stream()) + Headers(codes, lengths)
    ensures !ok ==> HeadersOk(codes[..|codes| - 1], lengths[..|lengths| - 1]) && !HeaderSendable(codes[|codes| - 1], lengths[|lengths| - 1])
  {
    codes, lengths := [], [];
    var k := 0;
    while true
      invariant k == |codes| == |lengths| < 5
      invariant forall j :: 0 <= j < k ==> CodesFor(codes[j], histos[j])
      invariant HeadersOk(codes, lengths)
      invariant w.Valid() && w.Stream() == old(w.Stream()) + Headers(codes, lengths)
      decreases 5 - k
    {
      var table := BuildTable(histos[k]);
      ghost var before := w.Stream();
      ghost var l;
      ok, l := WriteHuffmanCodes(w, table);
      ghost var after := w.Stream();
      ghost var codes0, lengths0 := codes, lengths;
      CodesForSnoc(codes, histos, table);
      codes, lengths := codes + [table], lengths + [l];
      if !ok {
        SnocParts(codes0, table);
        SnocParts(lengths0, l);
        return;
      }
      HeadersSnoc(codes0, lengths0, table, l);
      Extend(old(w.Stream()), before, after, Headers(codes0, lengths0), HeaderBits(table, l));
      if k == 4 {
        return;
      }
      k := k + 1;
    }
  }

  /** One more table built for the next histogram. */
  lemma CodesForSnoc(codes: seq<seq<HuffmanCode>>, histos: seq<seq<nat>>, table: seq<HuffmanCode>)
    requires |codes| < |histos| && CodesFor(table, histos[|codes|])
    requires forall j :: 0 <= j < |codes| ==> CodesFor(codes[j], histos[j])
    ensures forall j :: 0 <= j < |codes| + 1 ==> CodesFor((codes + [table])[j], histos[j])
  {
    forall j | 0 <= j < |codes| + 1
      ensures CodesFor((codes + [table])[j], histos[j])
    {
      if j < |codes| {
        assert (codes + [table])[j] == codes[j];
      }
    }
  }

  /** One group's codes, from its first token on (the body of writer.go's token loop). */
  method WriteGroup(w: BitWriter, tokens: seq<nat>, i: nat, codes: seq<seq<HuffmanCode>>, bits: nat, ghost g: Group)
    requires w.Valid() && |codes| == 5 && Shallow(codes)
    requires forall k :: 0 <= k < 5 ==> |codes[k]| == AlphabetSize(k, bits)
    requires i + |Tok(g)| <= |tokens| && tokens[i..i + |Tok(g)|] == Tok(g) && Valid(g, bits) && Fits(g)
    modifies w
    ensures w.Valid() && w.Stream() == old(w.Stream()) + GroupBits(g, codes)
  {
    assert tokens[i] == Tok(g)[0];
    var t := tokens[i];
    ghost var start := w.Stream();
    w.WriteCode(codes[0][t]);
    ghost var head := SymbolBits(codes[0], t);
    ghost var mid := w.Stream();
    assert mid == start + head;
    if t < 256 {
      assert tokens[i + 1] == Tok(g)[1] && tokens[i + 2] == Tok(g)[2] && tokens[i + 3] == Tok(g)[3];
      WriteLiteralRest(w, tokens[i + 1], tokens[i + 2], tokens[i + 3], codes);
      ghost var p := g.p;
      Attach(start, head, SymbolBits(codes[1], p.r), SymbolBits(codes[2], p.b), SymbolBits(codes[3], p.a));
    } else if t < 256 + 24 {
      assert tokens[i + 1] == Tok(g)[1] && tokens[i + 2] == Tok(g)[2] && tokens[i + 3] == Tok(g)[3];
      WriteBackrefRest(w, tokens[i + 1], tokens[i + 2], tokens[i + 3], t - 256, codes, g);
      Attach(start, head, LsbBits(g.lengthExtra, PrefixEncodeBits(g.lengthCode)), SymbolBits(codes[4], g.distCode),
        LsbBits(g.distExtra, PrefixEncodeBits(g.distCode)));
    } else {
      assert g.CacheHit?;
    }
  }

  /** Four parts written one after another, then regrouped. */
  lemma Attach(s: seq<bool>, a: seq<bool>, b: seq<bool>, c: seq<bool>, d: seq<bool>)
    ensures s + a + (b + c + d) == s + (a + b + c + d)
  {
  }

  /** A literal after its green code: its red, blue and alpha codes. */
  method WriteLiteralRest(w: BitWriter, r: nat, b: nat, a: nat, codes: seq<seq<HuffmanCode>>)
    requires w.Valid() && |codes| == 5 && Shallow(codes)
    requires r < |codes[1]| && b < |codes[2]| && a < |codes[3]|
    modifies w
    ensures w.Valid()
    ensures w.Stream() == old(w.Stream()) + (SymbolBits(codes[1], r) + SymbolBits(codes[2], b) + SymbolBits(codes[3], a))
  {
    ghost var s0 := w.Stream();
    w.WriteCode(codes[1][r]);
    ghost var s1 := w.Stream();
    w.WriteCode(codes[2][b]);
    ghost var s2 := w.Stream();
    w.WriteCode(codes[3][a]);
    Chain(s0, s1, s2, w.Stream(), SymbolBits(codes[1], r), SymbolBits(codes[2], b), SymbolBits(codes[3], a));
  }

  /** A backward reference after its length code: length extra bits, distance code, distance extra bits. */
  method WriteBackrefRest(w: BitWriter, le: nat, dc: nat, de: nat, lc: nat, codes: seq<seq<HuffmanCode>>, ghost g: Group)
    requires w.Valid() && |codes| == 5 && Shallow(codes) && |codes[4]| == 40
    requires g == Backref(lc, le, dc, de) && lc < 24 && dc < 40 && Fits(g)
    modifies w
    ensures w.Valid()
    ensures w.Stream() == old(w.Stream()) + (LsbBits(le, PrefixEncodeBits(lc)) + SymbolBits(codes[4], dc) + LsbBits(de, PrefixEncodeBits(dc)))
  {
    ghost var s0 := w.Stream();
    w.WriteBits(le, PrefixEncodeBits(lc));
    ghost var s1 := w.Stream();
    w.WriteCode(codes[4][dc]);
    ghost var s2 := w.Stream();
    w.WriteBits(de, PrefixEncodeBits(dc));
    Chain(s0, s1, s2, w.Stream(), LsbBits(le, PrefixEncodeBits(lc)), SymbolBits(codes[4], dc), LsbBits(de, PrefixEncodeBits(dc)));
  }

  /** Concatenation regrouped. */
  lemma Attach2(a: seq<bool>, b: seq<bool>, c: seq<bool>)
    ensures a + b + c == a + (b + c)
  {
  }

  /** Two writes one after another add their two parts. */
  lemma Extend(s0: seq<bool>, s1: seq<bool>, s2: seq<bool>, a: seq<bool>, b: seq<bool>)
    requires s1 == s0 + a && s2 == s1 + b
    ensures s2 == s0 + (a + b)
  {
  }

  /** Three writes one after another add their three parts. */
  lemma Chain(s0: seq<bool>, s1: seq<bool>, s2: seq<bool>, s3: seq<bool>, a: seq<bool>, b: seq<bool>, c: seq<bool>)
    requires s1 == s0 + a && s2 == s1 + b && s3 == s2 + c
    ensures s3 == s0 + (a + b + c)
  {
  }

  /** Write the group starting at token i, the n-th of gs: its bits follow the earlier groups'. */
  method WriteNext(w: BitWriter, tokens: seq<nat>, i: nat, codes: seq<seq<HuffmanCode>>, bits: nat,
                   ghost gs: seq<Group>, ghost n: nat, ghost start: seq<bool>)
    returns (step: nat)
    requires w.Valid() && |codes| == 5 && Shallow(codes)
    requires forall k :: 0 <= k < 5 ==> |codes[k]| == AlphabetSize(k, bits)
    requires (forall j :: 0 <= j < |gs| ==> Fits(gs[j]))
    requires i < |tokens| && n <= |gs| && Walks(tokens, i, gs[n..], bits)
    requires w.Stream() == start + TokenBits(gs[..n], codes)
    modifies w
    ensures n < |gs| && step >= 1 && Walks(tokens, i + step, gs[n + 1..], bits)
    ensures w.Valid() && w.Stream() == start + TokenBits(gs[..n + 1], codes)
  {
    step := WalkStep(tokens, i, bits, gs[n..]);
    ghost var before := w.Stream();
    WriteGroup(w, tokens, i, codes, bits, gs[n]);
    SuffixTail(gs, n);
    TokenBitsSnoc(gs, n, codes);
    Extend(start, before, w.Stream(), TokenBits(gs[..n], codes), GroupBits(gs[n], codes));
  }

  /** The first n + 1 encodings: the first n, then item n's. */
  lemma EncodingsSnoc<T>(enc: T -> seq<bool>, xs: seq<T>, n: nat)
    requires n < |xs|
    ensures Encodings(enc, xs[..n + 1]) == Encodings(enc, xs[..n]) + enc(xs[n])
  {
    assert xs[..n + 1][..n] == xs[..n];
  }

  /** The bits of the first n + 1 groups: those of the first n, then group n's. */
  lemma TokenBitsSnoc(gs: seq<Group>, n: nat, codes: seq<seq<HuffmanCode>>)
    requires n < |gs| && |codes| == 5
    ensures TokenBits(gs[..n + 1], codes) == TokenBits(gs[..n], codes) + GroupBits(gs[n], codes)
  {
    EncodingsSnoc(GroupEncoder(codes), gs, n);
  }

  /** A walk that has reached the end of the tokens has visited every group. */
  lemma WalkDone(tokens: seq<nat>, i: nat, gs: seq<Group>, n: nat, bits: nat)
    requires n <= |gs| && Walks(tokens, i, gs[n..], bits) && i >= |tokens|
    ensures gs[..n] == gs
  {
    FlattenEmpty(gs[n..]);
  }

  /** Only the empty list of groups has no tokens. */
  lemma FlattenEmpty(gs: seq<Group>)
    ensures Flatten(gs) == [] ==> gs == []
  {
    if gs != [] {
      assert |Tok(gs[|gs| - 1])| >= 1;
    }
  }

  /** The groups' bits, in token order (writer.go's token loop). */
  method WriteTokens(w: BitWriter, tokens: seq<nat>, codes: seq<seq<HuffmanCode>>, bits: nat, ghost gs: seq<Group>)
    requires w.Valid() && |codes| == 5 && Shallow(codes)
    requires forall k :: 0 <= k < 5 ==> |codes[k]| == AlphabetSize(k, bits)
    requires (forall j :: 0 <= j < |gs| ==> Fits(gs[j])) && Walks(tokens, 0, gs, bits)
    modifies w
    ensures w.Valid() && w.Stream() == old(w.Stream()) + TokenBits(gs, codes)
  {
    var i := 0;
    ghost var n := 0;
    ghost var start := w.Stream();
    assert gs[..0] == [];
    while i < |tokens|
      invariant n <= |gs| && Walks(tokens, i, gs[n..], bits)
      invariant w.Valid() && w.Stream() == start + TokenBits(gs[..n], codes)
      decreases |tokens| - i
    {
      var step := WriteNext(w, tokens, i, codes, bits, gs, n, start);
      n, i := n + 1, i + step;
    }
    WalkDone(tokens, i, gs, n, bits);
  }

  /** The tables of a section built from the groups' histograms are the tables for them. */
  lemma TablesFor(sec: Section, histos: seq<seq<nat>>, bits: nat)
    requires |sec.codes| == 5 && Counted(histos, sec.groups, bits)
    requires forall k :: 0 <= k < 5 ==> CodesFor(sec.codes[k], histos[k])
    ensures forall k :: 0 <= k < 5 ==> TableFor(sec, k, bits) && |sec.codes[k]| == AlphabetSize(k, bits)
  {
    forall k | 0 <= k < 5
      ensures TableFor(sec, k, bits) && |sec.codes[k]| == AlphabetSize(k, bits)
    {
      TableForAt(sec, histos, bits, k);
    }
  }

  /** The k-th table built from the k-th histogram of the groups is the table for it. */
  lemma TableForAt(sec: Section, histos: seq<seq<nat>>, bits: nat, k: nat)
    requires k < |sec.codes| && k < 5 && Counted(histos, sec.groups, bits) && CodesFor(sec.codes[k], histos[k])
    ensures TableFor(sec, k, bits) && |sec.codes[k]| == AlphabetSize(k, bits)
  {
    {
      if k == 0 {
        assert histos[0] == Histogram(Symbols(sec.groups, 0), AlphabetSize(0, bits));
      } else if k == 1 {
        assert histos[1] == Histogram(Symbols(sec.groups, 1), AlphabetSize(1, bits));
      } else if k == 2 {
        assert histos[2] == Histogram(Symbols(sec.groups, 2), AlphabetSize(2, bits));
      } else if k == 3 {
        assert histos[3] == Histogram(Symbols(sec.groups, 3), AlphabetSize(3, bits));
      } else {
        assert histos[4] == Histogram(Symbols(sec.groups, 4), AlphabetSize(4, bits));
      }
    }
  }

  /** The histograms of some groups are as long as their alphabets. */
  lemma CountedSizes(histos: seq<seq<nat>>, gs: seq<Group>, bits: nat)
    requires Counted(histos, gs, bits)
    ensures forall k :: 0 <= k < 5 ==> |histos[k]| == AlphabetSize(k, bits) >= 1
  {
    assert |histos[0]| == AlphabetSize(0, bits) && |histos[1]| == AlphabetSize(1, bits) && |histos[2]| == AlphabetSize(2, bits);
    assert |histos[3]| == AlphabetSize(3, bits) && |histos[4]| == AlphabetSize(4, bits);
  }

  /** Token groups that decode to some pixels: how the groups read and what they decode to. */
  lemma DecodedGroups(ts: seq<nat>, width: nat, bits: nat, pixels: seq<Pixel>)
    requires Decode(ts, width, bits) == Some(pixels)
    ensures Parse(ts, bits).Some? && Expand(Parse(ts, bits).value, width, bits).Some?
    ensures Expand(Parse(ts, bits).value, width, bits).value.out == pixels
  {
  }

  /**
   * A section whose groups code the pixels and whose tables, each the one
   * built for its histogram of the groups, stop at the first one whose
   * header the source's writer panics on.
   */
  ghost predicate Panicked(sec: Section, pixels: seq<Pixel>, width: nat, bits: nat) {
    GroupsCode(sec.groups, pixels, width, bits) &&
    1 <= |sec.codes| <= 5 && |sec.codes| == |sec.lengths| &&
    (forall k :: 0 <= k < |sec.codes| ==> TableFor(sec, k, bits)) &&
    HeadersOk(sec.codes[..|sec.codes| - 1], sec.lengths[..|sec.lengths| - 1]) &&
    !HeaderSendable(sec.codes[|sec.codes| - 1], sec.lengths[|sec.lengths| - 1])
  }

  /**
   * A section whose groups code the pixels and whose five tables, built for
   * the groups' histograms, can all be sent, but with a code deeper than a
   * single write of the bit writer.
   */
  ghost predicate TooDeep(sec: Section, pixels: seq<Pixel>, width: nat, bits: nat) {
    GroupsCode(sec.groups, pixels, width, bits) && Sendable(sec) &&
    (forall k :: 0 <= k < 5 ==> TableFor(sec, k, bits)) &&
    !Shallow(sec.codes)
  }

  /** A section whose five headers can all be sent did not stop at an unsendable one. */
  lemma SendableNotPanicked(sec: Section, pixels: seq<Pixel>, width: nat, bits: nat)
    ensures Sendable(sec) ==> !Panicked(sec, pixels, width, bits)
  {
    if Sendable(sec) {
      assert HeaderSendable(sec.codes[4], sec.lengths[4]);
    }
  }

  /** Tables built from the groups' histograms that stop at an unsendable one. */
  lemma PanicOf(gs: seq<Group>, pixels: seq<Pixel>, width: nat, codes: seq<seq<HuffmanCode>>, lengths: seq<seq<HuffmanCode>>,
                histos: seq<seq<nat>>, bits: nat)
    requires GroupsCode(gs, pixels, width, bits)
    requires |codes| == |lengths| && 1 <= |codes| <= 5 && Counted(histos, gs, bits)
    requires forall k :: 0 <= k < |codes| ==> CodesFor(codes[k], histos[k])
    requires HeadersOk(codes[..|codes| - 1], lengths[..|lengths| - 1])
    requires !HeaderSendable(codes[|codes| - 1], lengths[|lengths| - 1])
    ensures Panicked(Section(gs, codes, lengths), pixels, width, bits)
  {
    var sec := Section(gs, codes, lengths);
    forall k | 0 <= k < |codes|
      ensures TableFor(sec, k, bits)
    {
      TableForAt(sec, histos, bits, k);
    }
  }

  /** A stream that grew by a section's three parts grew by its bits. */
  lemma SectionBitsOf(sec: Section, bits: nat, recursive: bool, before: seq<bool>, after: seq<bool>)
    requires Sendable(sec) && bits < 16
    requires after == before + (Lead(bits, recursive) + Headers(sec.codes, sec.lengths) + TokenBits(sec.groups, sec.codes))
    ensures after == before + SectionBits(sec, bits, recursive)
  {
  }

  /** The leading fields of a section: the colour-cache field and, for the top-level image (`recursive`), a 0 bit saying no meta prefix codes follow. */
  function Lead(bits: nat, recursive: bool): seq<bool>
    requires bits < 16
  {
    CacheField(bits) + (if recursive then [false] else [])
  }

  /** The colour-cache field and, for the top-level image, the 0 marker. */
  method WriteLead(w: BitWriter, bits: nat, recursive: bool)
    requires w.Valid() && bits < 16
    modifies w
    ensures w.Valid() && w.Stream() == old(w.Stream()) + Lead(bits, recursive)
  {
    ghost var start := w.Stream();
    assert Pow2(4) == 16;
    if bits > 0 {
      w.WriteBits(1, 1);
      ghost var mid := w.Stream();
      w.WriteBits(bits, 4);
      assert LsbBits(1, 1) == [true];
      Extend(start, mid, w.Stream(), [true], LsbBits(bits, 4));
    } else {
      w.WriteBits(0, 1);
      assert LsbBits(0, 1) == [false];
    }
    ghost var field := w.Stream();
    if recursive {
      w.WriteBits(0, 1);
      assert LsbBits(0, 1) == [false];
      Extend(start, field, w.Stream(), CacheField(bits), [false]);
    }
  }

  /**
   * writeImageData: the cache field, the recursion marker, the tokens'
   * five code tables and then the tokens. On success the section written
   * codes exactly the given pixels. It panics exactly when a table built for
   * the groups has a header the source cannot send, and stops with DeepCode
   * exactly when every header is sent but some code is deeper than one write.
   */
  method WriteImageData(w: BitWriter, pixels: seq<Pixel>, width: nat, bits: nat, recursive: bool)
    returns (outcome: Outcome, ghost sec: Section)
    requires w.Valid() && width >= 1 && bits <= MaxCacheBits
    modifies w
    ensures w.Valid()
    ensures outcome == Written ==>
      SectionOk(sec, pixels, width, bits) && w.Stream() == old(w.Stream()) + SectionBits(sec, bits, recursive)
    ensures outcome == HeaderPanic <==> Panicked(sec, pixels, width, bits)
    ensures outcome == DeepCode <==> TooDeep(sec, pixels, width, bits)
  {
    ghost var start := w.Stream();
    WriteLead(w, bits, recursive);
    ghost var s1 := w.Stream();
    var encoded := EncodeImageData(pixels, width, bits);
    DecodedGroups(encoded, width, bits, pixels);
    ghost var gs := Parse(encoded, bits).value;
    var histos := ComputeHistograms(encoded, bits);
    CountedSizes(histos, gs, bits);
    var ok, codes, lengths := WriteTables(w, histos);
    sec := Section(gs, codes, lengths);
    assert GroupsCode(gs, pixels, width, bits);
    SendableNotPanicked(sec, pixels, width, bits);
    if !ok {
      outcome := HeaderPanic;
      PanicOf(gs, pixels, width, codes, lengths, histos, bits);
      return;
    }
    ghost var s2 := w.Stream();
    TablesFor(sec, histos, bits);
    if !Shallow(codes) {
      outcome := DeepCode;
      assert TooDeep(sec, pixels, width, bits);
      return;
    }
    ExpandedFit(gs, width, bits);
    ParsedFlatten(encoded, bits);
    WriteTokens(w, encoded, codes, bits, gs);
    Chain(start, s1, s2, w.Stream(), Lead(bits, recursive), Headers(codes, lengths), TokenBits(gs, codes));
    SectionBitsOf(sec, bits, recursive, start, w.Stream());
    outcome := Written;
  }
}
