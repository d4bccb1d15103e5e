/**
 * How a Huffman code is sent ahead of the data it codes. There are three
 * forms. With no live symbol, the empty form is sent. With one or two live
 * symbols below 256, the simple form lists those symbols. Otherwise the
 * full form sends every symbol's length, itself Huffman coded with a code
 * over the 19 length slots.
 */
module HuffmanHeader {
  import opened WebPTypes
  import opened Bits
  import opened BitWriter
  import opened Huffman
  import opened PrefixCode

  /** The order in which the lengths of the 19 length-slot codes are sent. */
  const LengthCodeOrder: seq<nat> := [17, 18, 0, 1, 2, 3, 4, 5, 16, 6, 7, 8, 9, 10, 11, 12, 13, 14, 15]

  /** Where each length slot sits in LengthCodeOrder. */
  const LengthCodePosition: seq<nat> := [2, 3, 4, 5, 6, 7, 9, 10, 11, 12, 13, 14, 15, 16, 17, 18, 8, 0, 1]

  lemma LengthCodeOrderInverse(s: nat)
    requires s < 19
    ensures LengthCodePosition[s] < 19 && LengthCodeOrder[LengthCodePosition[s]] == s
  {
  }

  lemma LengthCodePositionOf(i: nat)
    requires i < 19
    ensures LengthCodeOrder[i] < 19 && LengthCodePosition[LengthCodeOrder[i]] == i
  {
  }

  lemma LengthCodeOrderBounded(i: nat)
    requires i < 19
    ensures LengthCodeOrder[i] < 19
  {
  }

  lemma LengthCodeOrderBelow()
    ensures |LengthCodeOrder| == 19 && forall i :: 0 <= i < 19 ==> LengthCodeOrder[i] < 19
  {
  }

  // ---------------------------------------------------------------------
  // Choosing the form
  // ---------------------------------------------------------------------

  /** The symbols of the live codes (nonzero depth), in table order. */
  function Coded(codes: seq<HuffmanCode>): (syms: seq<nat>)
    ensures |syms| <= |codes|
  {
    if codes == [] then []
    else Coded(codes[..|codes| - 1]) + (if codes[|codes| - 1].depth != 0 then [codes[|codes| - 1].symbol] else [])
  }

  lemma CodedStep(codes: seq<HuffmanCode>, i: nat)
    requires i < |codes|
    ensures Coded(codes[..i + 1]) == Coded(codes[..i]) + (if codes[i].depth != 0 then [codes[i].symbol] else [])
  {
    PrefixOfPrefix(codes, i, i + 1);
  }

  lemma {:induction false} CodedPrefix(codes: seq<HuffmanCode>, i: nat)
    requires i <= |codes|
    ensures Coded(codes[..i]) <= Coded(codes)
    decreases |codes| - i
  {
    if i < |codes| {
      CodedStep(codes, i);
      CodedPrefix(codes, i + 1);
    } else {
      assert codes[..i] == codes;
    }
  }

  /** Symbols the simple form can carry: one or two, each below 256. */
  predicate SimpleSymbols(syms: seq<nat>) {
    1 <= |syms| <= 2 && forall k :: 0 <= k < |syms| ==> syms[k] < 256
  }

  datatype Form = EmptyForm | SimpleForm(symbols: seq<nat>) | FullForm

  /** The form the writer picks for a code table. */
  function FormOf(codes: seq<HuffmanCode>): (f: Form)
    ensures f.EmptyForm? <==> Coded(codes) == []
    ensures f.SimpleForm? <==> SimpleSymbols(Coded(codes))
    ensures f.SimpleForm? ==> f.symbols == Coded(codes)
  {
    var live := Coded(codes);
    if live == [] then EmptyForm
    else if SimpleSymbols(live) then SimpleForm(live)
    else FullForm
  }

  // ---------------------------------------------------------------------
  // The empty and simple forms, and their reader
  // ---------------------------------------------------------------------

  /**
   * The simple form: a marker, the symbol count less one, whether the first
   * symbol takes 8 bits rather than 1, the first symbol, and the second in 8 bits.
   */
  function SimpleBits(syms: seq<nat>): (bs: seq<bool>)
    requires SimpleSymbols(syms)
  {
    [true] + LsbBits(|syms| - 1, 1) + [syms[0] > 1] + LsbBits(syms[0], if syms[0] <= 1 then 1 else 8)
    + (if |syms| == 2 then LsbBits(syms[1], 8) else [])
  }

  /** The empty form. */
  const EmptyBits: seq<bool> := [true] + LsbBits(0, 3)

  /** A reader of the simple form: the symbols and the number of bits they took. */
  function ReadSimple(bs: seq<bool>): (r: Option<(seq<nat>, nat)>)
    ensures r.Some? ==> r.value.1 <= |bs|
  {
    if |bs| < 4 || !bs[0] then None
    else
      var n := if bs[1] then 2 else 1;
      var first := if bs[2] then 8 else 1;
      var end := 3 + first + 8 * (n - 1);
      if |bs| < end then None
      else if n == 1 then Some(([FromBits(bs[3..3 + first])], end))
      else Some(([FromBits(bs[3..3 + first]), FromBits(bs[3 + first..end])], end))
  }

  /** The empty form reads as the simple form of the single symbol 0. */
  lemma EmptyIsSymbolZero()
    ensures SimpleSymbols([0]) && EmptyBits == SimpleBits([0])
    ensures ReadSimple(EmptyBits) == Some(([0], 4))
  {
    assert LsbBits(0, 3) == [false, false, false];
    assert SimpleBits([0]) == [true, false, false, false];
  }

  /** The simple form, followed by anything, reads back as its symbols. */
  lemma SimpleRoundTrip(syms: seq<nat>, rest: seq<bool>)
    requires SimpleSymbols(syms)
    ensures ReadSimple(SimpleBits(syms) + rest) == Some((syms, |SimpleBits(syms)|))
  {
    var bs := SimpleBits(syms) + rest;
    var first := if syms[0] <= 1 then 1 else 8;
    var head := [true] + LsbBits(|syms| - 1, 1) + [first == 8];
    Pow2Byte();
    assert Pow2(1) == 2;
    ReadBack(syms[0], first);
    assert SimpleBits(syms) == head + LsbBits(syms[0], first) + (if |syms| == 2 then LsbBits(syms[1], 8) else []);
    assert bs[1] == (|syms| == 2);
    assert bs[2] == (first == 8);
    assert bs[3..3 + first] == LsbBits(syms[0], first);
    if |syms| == 2 {
      ReadBack(syms[1], 8);
      assert bs[3 + first..3 + first + 8] == LsbBits(syms[1], 8);
      assert [syms[0], syms[1]] == syms;
    } else {
      assert [syms[0]] == syms;
    }
  }

  // ---------------------------------------------------------------------
  // The full form
  // ---------------------------------------------------------------------

  /**
   * The length slot a code is counted in: its depth, or 1 for the zero-bit
   * marker -1 (a one-symbol code, which a reader treats as a single length).
   * None where the source would index out of range.
   */
  function Slot(depth: int): (r: Option<nat>)
    ensures r.Some? ==> r.value < 19
    ensures depth >= 0 ==> (r.Some? <==> depth < 19) && (r.Some? ==> r.value == depth)
  {
    if depth == -1 then Some(1) else if 0 <= depth < 19 then Some(depth) else None
  }

  /** The slot exactly as the source computes it: histo[c.Depth], out of range for -1. */
  function SlotAsWritten(depth: int): (r: Option<nat>)
    ensures r.Some? <==> 0 <= depth < 19
  {
    if 0 <= depth < 19 then Some(depth) else None
  }

  /**
   * The 3-bit field sent for a length-slot code: its depth, or 1 for the
   * zero-bit marker -1. None where the value does not fit three bits.
   */
  function Field(depth: int): (r: Option<nat>)
    ensures r.Some? ==> r.value < 8
    ensures depth >= 0 ==> (r.Some? <==> depth < 8) && (r.Some? ==> r.value == depth)
  {
    if depth == -1 then Some(1) else if 0 <= depth < 8 then Some(depth) else None
  }

  /** The field exactly as the source computes it: uint64(Depth) in 3 bits, too wide for -1. */
  function FieldAsWritten(depth: int): (r: Option<nat>)
    ensures r.Some? <==> 0 <= depth < 8
  {
    if 0 <= depth < 8 then Some(depth) else None
  }

  predicate SlotsOk(codes: seq<HuffmanCode>) {
    forall k :: 0 <= k < |codes| ==> Slot(codes[k].depth).Some?
  }

  /** Every depth indexes the source's slot histogram (no -1 among them). */
  predicate SlotsAsWritten(codes: seq<HuffmanCode>) {
    forall k :: 0 <= k < |codes| ==> SlotAsWritten(codes[k].depth).Some?
  }

  /** The slot of every code, in table order. */
  function Slots(codes: seq<HuffmanCode>): (slots: seq<nat>)
    requires SlotsOk(codes)
    ensures |slots| == |codes| && SlotList(slots)
    ensures forall k :: 0 <= k < |codes| ==> slots[k] == Slot(codes[k].depth).value
  {
    if codes == [] then []
    else Slots(codes[..|codes| - 1]) + [Slot(codes[|codes| - 1].depth).value]
  }

  /** A list of slots, each one of the 19. */
  predicate SlotList(slots: seq<nat>) {
    forall k :: 0 <= k < |slots| ==> slots[k] < 19
  }

  /** How often each of the 19 slots occurs. */
  function Tally(slots: seq<nat>): (histo: seq<nat>)
    requires SlotList(slots)
    ensures |histo| == 19
  {
    if slots == [] then seq(19, _ => 0)
    else
      var h := Tally(slots[..|slots| - 1]);
      var s := slots[|slots| - 1];
      h[s := h[s] + 1]
  }

  /** Every slot that occurs has a positive count. */
  lemma {:induction false} TallyCounts(slots: seq<nat>, k: nat)
    requires SlotList(slots) && k < |slots|
    ensures Tally(slots)[slots[k]] > 0
  {
    var n := |slots| - 1;
    if k < n {
      TallyCounts(slots[..n], k);
    }
  }

  /** The histogram of slots over a code table. */
  function DepthHisto(codes: seq<HuffmanCode>): (histo: seq<nat>)
    requires SlotsOk(codes)
    ensures |histo| == 19
  {
    Tally(Slots(codes))
  }

  /**
   * How many length fields are sent, after looking at the first i slots of
   * LengthCodeOrder: up to the last slot with a positive count, and at least 4.
   */
  function LengthCount(histo: seq<nat>, i: nat): nat
    requires |histo| == 19 && i <= 19
  {
    if i == 0 then 0
    else if histo[LengthCodeOrder[i - 1]] > 0 then (if i > 4 then i else 4)
    else LengthCount(histo, i - 1)
  }

  /** The count is 0 or between 4 and 19, and it covers every slot with a positive count. */
  lemma {:induction false} LengthCountCovers(histo: seq<nat>, i: nat)
    requires |histo| == 19 && i <= 19
    ensures LengthCount(histo, i) <= 19
    ensures LengthCount(histo, i) == 0 || LengthCount(histo, i) >= 4
    ensures forall j :: 0 <= j < i && histo[LengthCodeOrder[j]] > 0 ==> 4 <= LengthCount(histo, i) && j < LengthCount(histo, i)
  {
    if i > 0 {
      LengthCountCovers(histo, i - 1);
    }
  }

  /** The fields of the first n slots in LengthCodeOrder all fit three bits. */
  predicate FieldsOk(lengths: seq<HuffmanCode>, n: nat) {
    |lengths| == 19 && n <= 19 &&
    forall i :: 0 <= i < n ==> Field(lengths[LengthCodeOrder[i]].depth).Some?
  }

  /** The first n fields fit three bits as the source sends them (no -1 among them). */
  predicate FieldsAsWritten(lengths: seq<HuffmanCode>, n: nat) {
    |lengths| == 19 && n <= 19 &&
    forall i :: 0 <= i < n ==> FieldAsWritten(lengths[LengthCodeOrder[i]].depth).Some?
  }

  /** The 3-bit fields of the first n slots in LengthCodeOrder. */
  function FieldBits(lengths: seq<HuffmanCode>, n: nat): (bs: seq<bool>)
    requires FieldsOk(lengths, n)
    ensures |bs| == 3 * n
  {
    if n == 0 then []
    else FieldBits(lengths, n - 1) + LsbBits(Field(lengths[LengthCodeOrder[n - 1]].depth).value, 3)
  }

  lemma FieldBitsLast(lengths: seq<HuffmanCode>, n: nat)
    requires FieldsOk(lengths, n) && n >= 1
    ensures FieldsOk(lengths, n - 1)
    ensures FieldBits(lengths, n) == FieldBits(lengths, n - 1) + LsbBits(Field(lengths[LengthCodeOrder[n - 1]].depth).value, 3)
  {
  }

  lemma SliceLeft(a: seq<bool>, b: seq<bool>, i: nat, j: nat)
    requires i <= j <= |a|
    ensures (a + b)[i..j] == a[i..j]
  {
  }

  lemma SliceRight(a: seq<bool>, b: seq<bool>)
    ensures (a + b)[|a|..|a| + |b|] == b
  {
  }

  /** Field i of the first n sits at bits 3i to 3i + 3. */
  lemma {:induction false} FieldBitsAt(lengths: seq<HuffmanCode>, n: nat, i: nat)
    requires FieldsOk(lengths, n) && i < n
    ensures FieldBits(lengths, n)[3 * i..3 * i + 3] == LsbBits(Field(lengths[LengthCodeOrder[i]].depth).value, 3)
  {
    LengthCodeOrderBelow();
    FieldBitsLast(lengths, n);
    var prev := FieldBits(lengths, n - 1);
    var last := LsbBits(Field(lengths[LengthCodeOrder[n - 1]].depth).value, 3);
    if i < n - 1 {
      FieldBitsAt(lengths, n - 1, i);
      SliceLeft(prev, last, 3 * i, 3 * i + 3);
    } else {
      SliceRight(prev, last);
    }
  }

  /** A nonempty table with every depth in range has a live slot, so at least four fields are sent. */
  lemma SomeFieldSent(codes: seq<HuffmanCode>)
    requires |codes| >= 1 && SlotsOk(codes)
    ensures 4 <= LengthCount(DepthHisto(codes), 19) <= 19
  {
    var slots := Slots(codes);
    TallyCounts(slots, 0);
    LengthCodeOrderInverse(slots[0]);
    LengthCountCovers(DepthHisto(codes), 19);
  }

  /**
   * What the full form needs of a code table and the length-slot code built
   * for it: every depth has a slot, some code is live, exactly the slots that
   * occur have a length-slot code, and every sent field fits three bits.
   */
  ghost predicate FullWritable(codes: seq<HuffmanCode>, lengths: seq<HuffmanCode>) {
    |codes| >= 1 && SlotsOk(codes) && |lengths| == 19 &&
    (forall s :: 0 <= s < 19 ==> (lengths[s].depth != 0 <==> DepthHisto(codes)[s] > 0)) &&
    FieldsOk(lengths, LengthCount(DepthHisto(codes), 19))
  }

  /**
   * What the source's writeFullhuffmanCode needs to finish without a panic:
   * the full form can be written, no code has the zero-bit marker -1 (which
   * it would count at histo[-1]), and no sent field is -1 (which it would
   * send as uint64(-1) in three bits).
   */
  ghost predicate FullSendable(codes: seq<HuffmanCode>, lengths: seq<HuffmanCode>) {
    FullWritable(codes, lengths) && SlotsAsWritten(codes) &&
    FieldsAsWritten(lengths, LengthCount(DepthHisto(codes), 19))
  }

  /** Under FullWritable at least four fields are sent and every code's slot has a code. */
  lemma FullWritableFacts(codes: seq<HuffmanCode>, lengths: seq<HuffmanCode>)
    requires FullWritable(codes, lengths)
    ensures 4 <= LengthCount(DepthHisto(codes), 19) <= 19
    ensures AllCoded(BookOf(lengths), Slots(codes))
  {
    SomeFieldSent(codes);
    SlotsCoded(codes, lengths);
  }

  /**
   * The full form: a 0 marker, the field count less 4, the fields in
   * LengthCodeOrder, a 0 marker (no maximum symbol), then each code's slot
   * coded with the length-slot code.
   */
  function FullBits(codes: seq<HuffmanCode>, lengths: seq<HuffmanCode>): seq<bool>
    requires FullWritable(codes, lengths)
  {
    FullWritableFacts(codes, lengths);
    var cnt := LengthCount(DepthHisto(codes), 19);
    [false] + LsbBits(cnt - 4, 4) + FieldBits(lengths, cnt) + [false] + EncodeSymbols(BookOf(lengths), Slots(codes))
  }

  /**
   * The fields as a reader stores them: the i-th 3-bit field read belongs to
   * slot LengthCodeOrder[i]; slots whose field is not sent stay 0.
   */
  function ReadFields(bs: seq<bool>, n: nat): (fields: seq<nat>)
    requires n <= 19 && |bs| >= 3 * n
    ensures |fields| == 19
  {
    if n == 0 then seq(19, _ => 0)
    else
      LengthCodeOrderBounded(n - 1);
      ReadFields(bs, n - 1)[LengthCodeOrder[n - 1] := FromBits(bs[3 * (n - 1)..3 * n])]
  }

  /**
   * What a reader takes from the full form: the number of fields, the bits
   * of the fields, each code's slot, and the bits taken in all.
   */
  datatype FullRead = FullRead(count: nat, fieldBits: seq<bool>, slots: seq<nat>, taken: nat)

  /** A reader of the full form, handed the length-slot codebook and the number of codes. */
  function ReadFull(bs: seq<bool>, book: Codebook, n: nat): (r: Option<FullRead>)
    ensures r.Some? ==> r.value.count <= 19 && |r.value.fieldBits| == 3 * r.value.count
    ensures r.Some? ==> |r.value.slots| == n && r.value.taken <= |bs|
  {
    if |bs| < 5 || bs[0] then None
    else
      var cnt := FromBits(bs[1..5]) + 4;
      var end := 5 + 3 * cnt;
      if cnt > 19 || |bs| <= end || bs[end] then None
      else match DecodeSymbols(book, bs[end + 1..], n)
        case None => None
        case Some((slots, used)) => Some(FullRead(cnt, bs[5..end], slots, end + 1 + used))
  }

  /** A stream laid out as the full form: markers, a field count, the fields, then the rest. */
  predicate FullLaidOut(bs: seq<bool>, cnt: nat, fields: seq<bool>, tail: seq<bool>) {
    4 <= cnt <= 19 && |bs| > 5 + 3 * cnt && !bs[0] && FromBits(bs[1..5]) == cnt - 4 &&
    bs[5..5 + 3 * cnt] == fields && !bs[5 + 3 * cnt] && bs[5 + 3 * cnt + 1..] == tail
  }

  /** The full form's parts, put together, are laid out as FullLaidOut says. */
  lemma FullLayout(count: seq<bool>, fields: seq<bool>, symbols: seq<bool>, rest: seq<bool>, cnt: nat)
    requires 4 <= cnt <= 19 && |count| == 4 && FromBits(count) == cnt - 4 && |fields| == 3 * cnt
    ensures FullLaidOut([false] + count + fields + [false] + (symbols + rest), cnt, fields, symbols + rest)
  {
    var bs := [false] + count + fields + [false] + (symbols + rest);
    assert bs[1..5] == count;
    assert bs[5..5 + 3 * cnt] == fields;
    assert bs[5 + 3 * cnt + 1..] == symbols + rest;
  }

  /** What ReadFull returns when the stream is well formed. */
  lemma ReadFullOf(bs: seq<bool>, book: Codebook, n: nat, cnt: nat, slots: seq<nat>, used: nat)
    requires 4 <= cnt <= 19 && |bs| > 5 + 3 * cnt && !bs[0] && FromBits(bs[1..5]) == cnt - 4 && !bs[5 + 3 * cnt]
    requires DecodeSymbols(book, bs[5 + 3 * cnt + 1..], n) == Some((slots, used))
    ensures ReadFull(bs, book, n) == Some(FullRead(cnt, bs[5..5 + 3 * cnt], slots, 5 + 3 * cnt + 1 + used))
  {
  }

  /** A stream laid out as the full form reads back as its parts. */
  lemma ReadLaidOut(bs: seq<bool>, book: Codebook, n: nat, cnt: nat, fields: seq<bool>, slots: seq<nat>, symbols: seq<bool>, rest: seq<bool>)
    requires FullLaidOut(bs, cnt, fields, symbols + rest)
    requires DecodeSymbols(book, symbols + rest, n) == Some((slots, |symbols|))
    ensures ReadFull(bs, book, n) == Some(FullRead(cnt, fields, slots, 5 + 3 * cnt + 1 + |symbols|))
  {
    ReadFullOf(bs, book, n, cnt, slots, |symbols|);
  }

  /** LengthCodePosition undoes LengthCodeOrder. */
  lemma LengthCodeOrderPosition(p: nat)
    requires p < 19
    ensures LengthCodeOrder[p] < 19 && LengthCodePosition[LengthCodeOrder[p]] == p
  {
  }

  /** Reading one more field sets its slot and leaves the others alone. */
  lemma ReadFieldsStep(bs: seq<bool>, n: nat)
    requires 1 <= n <= 19 && |bs| >= 3 * n
    ensures LengthCodeOrder[n - 1] < 19
    ensures ReadFields(bs, n)[LengthCodeOrder[n - 1]] == FromBits(bs[3 * (n - 1)..3 * n])
    ensures forall s :: 0 <= s < 19 && s != LengthCodeOrder[n - 1] ==> ReadFields(bs, n)[s] == ReadFields(bs, n - 1)[s]
  {
    LengthCodeOrderBounded(n - 1);
  }

  /** The 19 fields after reading i of them: those slots hold their fields and the rest hold 0. */
  ghost predicate ReadSoFar(lengths: seq<HuffmanCode>, fields: seq<nat>, i: nat)
    requires |lengths| == 19 && |fields| == 19
  {
    forall s :: 0 <= s < 19 ==> SlotRead(lengths, fields, i, s)
  }

  /** Slot s after reading i fields: its field if it was among them, 0 otherwise. */
  ghost predicate SlotRead(lengths: seq<HuffmanCode>, fields: seq<nat>, i: nat, s: nat)
    requires |lengths| == 19 && |fields| == 19 && s < 19
  {
    if LengthCodePosition[s] < i then Field(lengths[s].depth) == Some(fields[s]) else fields[s] == 0
  }

  /** Storing field q at its slot extends ReadSoFar by one. */
  lemma ReadSoFarStep(lengths: seq<HuffmanCode>, before: seq<nat>, after: seq<nat>, q: nat, v: nat)
    requires |lengths| == 19 && |before| == 19 && |after| == 19 && q < 19
    requires ReadSoFar(lengths, before, q)
    requires after[LengthCodeOrder[q]] == v && Field(lengths[LengthCodeOrder[q]].depth) == Some(v)
    requires forall s :: 0 <= s < 19 && s != LengthCodeOrder[q] ==> after[s] == before[s]
    ensures ReadSoFar(lengths, after, q + 1)
  {
    var slot := LengthCodeOrder[q];
    LengthCodePositionOf(q);
    var i := q + 1;
    forall s | 0 <= s < 19
      ensures SlotRead(lengths, after, i, s)
    {
      assert SlotRead(lengths, before, q, s);
      LengthCodeOrderInverse(s);
      if s != slot {
        assert LengthCodePosition[s] != q;
      }
    }
  }

  /** Reading the first i sent fields places each at its slot. */
  lemma FieldsReadBack(lengths: seq<HuffmanCode>, cnt: nat, bs: seq<bool>, i: nat)
    requires FieldsOk(lengths, cnt) && bs == FieldBits(lengths, cnt) && i <= cnt
    ensures ReadSoFar(lengths, ReadFields(bs, i), i)
  {
    NothingRead(lengths, bs);
    var j := 0;
    while j < i
      invariant j <= i && ReadSoFar(lengths, ReadFields(bs, j), j)
    {
      j := j + 1;
      FieldReadStep(lengths, cnt, bs, j);
    }
  }

  /** Before any field is read, every slot holds 0. */
  lemma NothingRead(lengths: seq<HuffmanCode>, bs: seq<bool>)
    requires |lengths| == 19
    ensures ReadSoFar(lengths, ReadFields(bs, 0), 0)
  {
    var fields := ReadFields(bs, 0);
    forall s | 0 <= s < 19
      ensures SlotRead(lengths, fields, 0, s)
    {
      assert fields[s] == 0;
    }
  }

  /** Reading field i - 1 stores the value the writer sent for it. */
  lemma FieldReadStep(lengths: seq<HuffmanCode>, cnt: nat, bs: seq<bool>, i: nat)
    requires FieldsOk(lengths, cnt) && bs == FieldBits(lengths, cnt) && 1 <= i <= cnt
    requires ReadSoFar(lengths, ReadFields(bs, i - 1), i - 1)
    ensures ReadSoFar(lengths, ReadFields(bs, i), i)
  {
    var q := i - 1;
    LengthCodeOrderBounded(q);
    var slot := LengthCodeOrder[q];
    var v := Field(lengths[slot].depth).value;
    var before, after := ReadFields(bs, q), ReadFields(bs, i);
    assert after[slot] == v by {
      ReadFieldsStep(bs, i);
      var lo, hi := 3 * q, 3 * i;
      assert hi == lo + 3;
      FieldBitsAt(lengths, cnt, q);
      ReadBack(v, 3);
    }
    assert forall s :: 0 <= s < 19 && s != slot ==> after[s] == before[s] by {
      ReadFieldsStep(bs, i);
    }
    ReadSoFarStep(lengths, before, after, q, v);
  }

  /** Every field the reader recovers is the one of the slot's code. */
  lemma FieldsRoundTrip(lengths: seq<HuffmanCode>, cnt: nat)
    requires FieldsOk(lengths, cnt)
    requires forall s :: 0 <= s < 19 && LengthCodePosition[s] >= cnt ==> lengths[s].depth == 0
    ensures forall s :: 0 <= s < 19 ==> Field(lengths[s].depth) == Some(ReadFields(FieldBits(lengths, cnt), cnt)[s])
  {
    FieldsReadBack(lengths, cnt, FieldBits(lengths, cnt), cnt);
    var fields := ReadFields(FieldBits(lengths, cnt), cnt);
    forall s | 0 <= s < 19
      ensures Field(lengths[s].depth) == Some(fields[s])
    {
      assert SlotRead(lengths, fields, cnt, s);
    }
  }

  /** Slots placed after the sent fields have no length-slot code. */
  lemma UnsentSlotsUnused(codes: seq<HuffmanCode>, lengths: seq<HuffmanCode>)
    requires FullWritable(codes, lengths)
    ensures forall s :: 0 <= s < 19 && LengthCodePosition[s] >= LengthCount(DepthHisto(codes), 19) ==> lengths[s].depth == 0
  {
    var histo := DepthHisto(codes);
    LengthCountCovers(histo, 19);
    forall s | 0 <= s < 19 && LengthCodePosition[s] >= LengthCount(histo, 19)
      ensures lengths[s].depth == 0
    {
      LengthCodeOrderInverse(s);
    }
  }

  /** The field count, sent in four bits, reads back. */
  lemma CountReadBack(cnt: nat)
    requires 4 <= cnt <= 19
    ensures FromBits(LsbBits(cnt - 4, 4)) == cnt - 4
  {
    assert Pow2(4) == 16;
    ReadBack(cnt - 4, 4);
  }

  /** Where the parts of the full form sit in the stream. */
  lemma FullBitsLayout(codes: seq<HuffmanCode>, lengths: seq<HuffmanCode>, rest: seq<bool>)
    requires FullWritable(codes, lengths)
    ensures 4 <= LengthCount(DepthHisto(codes), 19) <= 19
    ensures AllCoded(BookOf(lengths), Slots(codes))
    ensures var cnt := LengthCount(DepthHisto(codes), 19);
      var symbols := EncodeSymbols(BookOf(lengths), Slots(codes));
      |FullBits(codes, lengths)| == 5 + 3 * cnt + 1 + |symbols| &&
      FullLaidOut(FullBits(codes, lengths) + rest, cnt, FieldBits(lengths, cnt), symbols + rest)
  {
    var cnt := LengthCount(DepthHisto(codes), 19);
    FullBitsParts(codes, lengths, cnt);
    var count := LsbBits(cnt - 4, 4);
    var fields := FieldBits(lengths, cnt);
    var symbols := EncodeSymbols(BookOf(lengths), Slots(codes));
    AppendAssoc([false] + count + fields + [false], symbols, rest);
    CountReadBack(cnt);
    FullLayout(count, fields, symbols, rest, cnt);
  }

  /** The full form, followed by anything, reads back as every slot's field and every code's slot. */
  lemma FullRoundTrip(codes: seq<HuffmanCode>, lengths: seq<HuffmanCode>, rest: seq<bool>)
    requires FullWritable(codes, lengths) && Decodable(BookOf(lengths))
    ensures var r := ReadFull(FullBits(codes, lengths) + rest, BookOf(lengths), |codes|);
      r.Some? && r.value.slots == Slots(codes) && r.value.taken == |FullBits(codes, lengths)| &&
      forall s :: 0 <= s < 19 ==> Field(lengths[s].depth) == Some(ReadFields(r.value.fieldBits, r.value.count)[s])
  {
    FullWritableFacts(codes, lengths);
    var cnt := LengthCount(DepthHisto(codes), 19);
    var book := BookOf(lengths);
    var slots := Slots(codes);
    var fields := FieldBits(lengths, cnt);
    var symbols := EncodeSymbols(book, slots);
    var bs := FullBits(codes, lengths) + rest;
    var taken: nat := 5 + 3 * cnt + 1 + |symbols|;
    FullBitsLayout(codes, lengths, rest);
    DecodeEncoded(book, slots, rest);
    ReadLaidOut(bs, book, |codes|, cnt, fields, slots, symbols, rest);
    UnsentSlotsUnused(codes, lengths);
    FieldsRoundTrip(lengths, cnt);
  }

  // ---------------------------------------------------------------------
  // Reading any of the three forms
  // ---------------------------------------------------------------------

  /** What a reader takes from a header: the symbols of the simple form, or the full form. */
  datatype HeaderRead = SimpleRead(symbols: seq<nat>, taken: nat) | FullHeaderRead(full: FullRead)

  /**
   * A reader of a header: a 1 bit starts the simple form (the empty form
   * among them), a 0 bit the full form. The reader is handed the book of the
   * length codes rather than rebuilding it from the length-code fields it
   * reads; the model's read-back stops at that boundary.
   */
  function ReadHeader(bs: seq<bool>, book: Codebook, n: nat): (r: Option<HeaderRead>)
    ensures r.Some? && r.value.SimpleRead? ==> 1 <= |r.value.symbols| <= 2 && r.value.taken <= |bs|
    ensures r.Some? && r.value.FullHeaderRead? ==> |r.value.full.slots| == n && r.value.full.taken <= |bs|
  {
    if |bs| >= 1 && bs[0] then
      match ReadSimple(bs)
      case None => None
      case Some((syms, taken)) => Some(SimpleRead(syms, taken))
    else
      match ReadFull(bs, book, n)
      case None => None
      case Some(full) => Some(FullHeaderRead(full))
  }

  /**
   * What a header writer needs once the zero-bit marker -1 is counted in slot
   * 1 and sent as field 1: the full form only when that form is chosen.
   */
  ghost predicate HeaderWritable(codes: seq<HuffmanCode>, lengths: seq<HuffmanCode>) {
    FormOf(codes).FullForm? ==> FullWritable(codes, lengths)
  }

  /** What the source's header writer needs to finish: FullSendable when the full form is chosen. */
  ghost predicate HeaderSendable(codes: seq<HuffmanCode>, lengths: seq<HuffmanCode>) {
    FormOf(codes).FullForm? ==> FullSendable(codes, lengths)
  }

  /** The bits sent ahead of the data for a code table. */
  function HeaderBits(codes: seq<HuffmanCode>, lengths: seq<HuffmanCode>): seq<bool>
    requires HeaderWritable(codes, lengths)
  {
    match FormOf(codes)
    case EmptyForm => EmptyBits
    case SimpleForm(syms) => SimpleBits(syms)
    case FullForm => FullBits(codes, lengths)
  }

  /**
   * A header, followed by anything, reads back: the empty form as the single
   * symbol 0, the simple form as the live symbols, the full form as every
   * slot's field and every code's slot; in each case with the bits it took.
   * The reader is given the length codes' book; no lemma shows that the
   * fields read select that book on their own.
   */
  lemma HeaderRoundTrip(codes: seq<HuffmanCode>, lengths: seq<HuffmanCode>, rest: seq<bool>)
    requires HeaderWritable(codes, lengths)
    requires FormOf(codes).FullForm? ==> Decodable(BookOf(lengths))
    ensures var r := ReadHeader(HeaderBits(codes, lengths) + rest, BookOf(lengths), |codes|);
      r.Some? &&
      (FormOf(codes).EmptyForm? ==> r.value == SimpleRead([0], |HeaderBits(codes, lengths)|)) &&
      (FormOf(codes).SimpleForm? ==> r.value == SimpleRead(Coded(codes), |HeaderBits(codes, lengths)|)) &&
      (FormOf(codes).FullForm? ==>
        r.value.FullHeaderRead? && r.value.full.slots == Slots(codes) &&
        r.value.full.taken == |HeaderBits(codes, lengths)| &&
        forall s :: 0 <= s < 19 ==> Field(lengths[s].depth) == Some(ReadFields(r.value.full.fieldBits, r.value.full.count)[s]))
  {
    var bs := HeaderBits(codes, lengths) + rest;
    match FormOf(codes)
    case EmptyForm =>
      EmptyIsSymbolZero();
      SimpleRoundTrip([0], rest);
    case SimpleForm(syms) =>
      SimpleRoundTrip(syms, rest);
    case FullForm =>
      FullRoundTrip(codes, lengths, rest);
      assert !bs[0] by {
        FullBitsLayout(codes, lengths, rest);
      }
  }

  // ---------------------------------------------------------------------
  // The writer
  // ---------------------------------------------------------------------

  lemma CountPositiveAtMost(histo: seq<nat>)
    ensures CountPositive(histo) <= |histo|
  {
    if histo != [] {
      CountPositiveAtMost(histo[..|histo| - 1]);
    }
  }

  /**
   * What BuildCodes promises of the length-slot code it builds over a slot
   * histogram, as far as the full form needs it.
   */
  ghost predicate LengthCodeFor(histo: seq<nat>, lengths: seq<HuffmanCode>) {
    |histo| == 19 && |lengths| == 19 &&
    (forall s :: 0 <= s < 19 ==> (lengths[s].depth != 0 <==> Used(histo, s))) &&
    (CountPositive(histo) <= 1 ==> forall s: nat :: Used(histo, s) ==> lengths[s] == HuffmanCode(s, 0, -1)) &&
    (CountPositive(histo) >= 2 ==> forall s :: 0 <= s < 19 && Used(histo, s) ==> 1 <= lengths[s].depth < CountPositive(histo)) &&
    (forall s :: 0 <= s < 19 ==> lengths[s].depth < 19) &&
    Decodable(BookOf(lengths))
  }

  lemma SlotsStep(codes: seq<HuffmanCode>, i: nat)
    requires i < |codes| && SlotsOk(codes[..i]) && Slot(codes[i].depth).Some?
    ensures SlotsOk(codes[..i + 1])
    ensures Slots(codes[..i + 1]) == Slots(codes[..i]) + [Slot(codes[i].depth).value]
  {
    PrefixOfPrefix(codes, i, i + 1);
  }

  /** A depth outside the slot histogram, where the source's histo[c.Depth] panics. */
  lemma NoSlot(codes: seq<HuffmanCode>, i: nat)
    requires i < |codes| && SlotAsWritten(codes[i].depth).None?
    ensures !SlotsAsWritten(codes)
  {
  }

  /** One more code counted in the slot histogram, at its depth. */
  lemma HistoStep(codes: seq<HuffmanCode>, i: nat, histo: seq<nat>)
    requires i < |codes| && SlotsOk(codes[..i]) && SlotsAsWritten(codes[..i])
    requires histo == Tally(Slots(codes[..i])) && SlotAsWritten(codes[i].depth).Some?
    ensures 0 <= codes[i].depth < 19 == |histo|
    ensures SlotsOk(codes[..i + 1]) && SlotsAsWritten(codes[..i + 1])
    ensures histo[codes[i].depth := histo[codes[i].depth] + 1] == Tally(Slots(codes[..i + 1]))
  {
    var s := codes[i].depth;
    SlotsStep(codes, i);
    PrefixOfPrefix(codes, i, i + 1);
    TallyStep(Slots(codes[..i]), s);
  }

  lemma TallyStep(slots: seq<nat>, s: nat)
    requires SlotList(slots) && s < 19
    ensures SlotList(slots + [s])
    ensures Tally(slots + [s]) == Tally(slots)[s := Tally(slots)[s] + 1]
  {
    SnocParts(slots, s);
  }

  /**
   * The slot histogram of a table (the source's histo loop): fails exactly
   * where the source indexes histo out of range, at a depth of -1 or of 19
   * and more.
   */
  method SlotHistogram(codes: seq<HuffmanCode>) returns (ok: bool, histo: seq<nat>)
    ensures ok <==> SlotsAsWritten(codes)
    ensures ok ==> SlotsOk(codes) && histo == DepthHisto(codes)
  {
    histo := Tally([]);  // 19 zero counts
    var i := 0;
    while i < |codes|
      invariant i <= |codes| && SlotsOk(codes[..i]) && SlotsAsWritten(codes[..i])
      invariant histo == Tally(Slots(codes[..i]))
    {
      match SlotAsWritten(codes[i].depth)
      case None =>
        NoSlot(codes, i);
        ok := false;
        return;
      case Some(s) =>
        HistoStep(codes, i, histo);
        histo := histo[s := histo[s] + 1];
      i := i + 1;
    }
    PrefixOfPrefix(codes, i, i);
    ok := true;
  }

  /** How many fields are sent (the source's cnt loop). */
  method SentCount(histo: seq<nat>) returns (cnt: nat)
    requires |histo| == 19
    ensures cnt == LengthCount(histo, 19)
    ensures cnt == 0 || 4 <= cnt <= 19
    ensures forall j :: 0 <= j < 19 && histo[LengthCodeOrder[j]] > 0 ==> j < cnt
    ensures cnt > 4 ==> histo[LengthCodeOrder[cnt - 1]] > 0
  {
    LengthCodeOrderBelow();
    cnt := 0;
    var i := 0;
    while i < 19
      invariant i <= 19 && cnt == LengthCount(histo, i)
      invariant cnt > 4 ==> cnt <= i && histo[LengthCodeOrder[cnt - 1]] > 0
    {
      if histo[LengthCodeOrder[i]] > 0 {
        cnt := if i + 1 > 4 then i + 1 else 4;
      }
      i := i + 1;
    }
    LengthCountCovers(histo, 19);
  }

  lemma SmallPowers()
    ensures Pow2(1) == 2 && Pow2(3) == 8 && Pow2(4) == 16 && Pow2(8) == 256
  {
    Pow2Byte();
  }

  lemma SingleBits()
    ensures LsbBits(0, 1) == [false] && LsbBits(1, 1) == [true]
  {
  }

  /** Appending to a stream already extended by sent extends it by the longer run. */
  lemma AppendAssoc(start: seq<bool>, sent: seq<bool>, more: seq<bool>)
    ensures start + sent + more == start + (sent + more)
  {
  }

  /** One more field sent, as the source sends it. */
  lemma FieldStep(lengths: seq<HuffmanCode>, i: nat, v: nat)
    requires i < 19 && FieldsOk(lengths, i) && FieldsAsWritten(lengths, i)
    requires FieldAsWritten(lengths[LengthCodeOrder[i]].depth) == Some(v)
    ensures FieldsOk(lengths, i + 1) && FieldsAsWritten(lengths, i + 1)
    ensures FieldBits(lengths, i + 1) == FieldBits(lengths, i) + LsbBits(v, 3)
  {
    FieldBitsLast(lengths, i + 1);
  }

  /**
   * Sends the first cnt fields in LengthCodeOrder; fails on the first that is
   * not a value of three bits, where the source's writeBits panics.
   */
  method WriteFields(w: BitWriter, lengths: seq<HuffmanCode>, cnt: nat) returns (ok: bool)
    requires w.Valid() && |lengths| == 19 && cnt <= 19
    modifies w
    ensures w.Valid()
    ensures ok <==> FieldsAsWritten(lengths, cnt)
    ensures ok ==> FieldsOk(lengths, cnt) && w.Stream() == old(w.Stream()) + FieldBits(lengths, cnt)
  {
    SmallPowers();
    LengthCodeOrderBelow();
    ghost var start := w.Stream();
    var i := 0;
    while i < cnt
      invariant i <= cnt && FieldsOk(lengths, i) && FieldsAsWritten(lengths, i) && w.Valid()
      invariant w.Stream() == start + FieldBits(lengths, i)
    {
      match FieldAsWritten(lengths[LengthCodeOrder[i]].depth)
      case None =>
        ok := false;
        return;
      case Some(v) =>
        w.WriteBits(v, 3);
        FieldStep(lengths, i, v);
        AppendAssoc(start, FieldBits(lengths, i), LsbBits(v, 3));
      i := i + 1;
    }
    ok := true;
  }

  /** Sends each code's slot, its depth, with the length-slot code. */
  method WriteSlots(w: BitWriter, codes: seq<HuffmanCode>, lengths: seq<HuffmanCode>)
    requires w.Valid() && SlotsOk(codes) && SlotsAsWritten(codes) && |lengths| == 19
    requires AllCoded(BookOf(lengths), Slots(codes))
    requires forall s :: 0 <= s < 19 ==> lengths[s].depth < 19
    modifies w
    ensures w.Valid()
    ensures w.Stream() == old(w.Stream()) + EncodeSymbols(BookOf(lengths), Slots(codes))
  {
    var book := BookOf(lengths);
    ghost var start := w.Stream();
    var i := 0;
    while i < |codes|
      invariant i <= |codes| && w.Valid()
      invariant SlotsOk(codes[..i]) && AllCoded(book, Slots(codes[..i]))
      invariant w.Stream() == start + EncodeSymbols(book, Slots(codes[..i]))
    {
      var s := codes[i].depth;
      SlotsStep(codes, i);
      assert Slots(codes)[i] == s;
      EncodeSymbolsSnoc(book, Slots(codes[..i]), s);
      w.WriteCode(lengths[s]);
      AppendAssoc(start, EncodeSymbols(book, Slots(codes[..i])), book[s].value);
      i := i + 1;
    }
    assert codes[..i] == codes;
  }

  /**
   * Sends the full form (the source's writeFullhuffmanCode), building the
   * length-slot code with BuildCodes at depth limit 7. Fails exactly where the
   * source panics: a depth outside the slot histogram (-1 among them), an
   * empty table, a sent field that is not a value of three bits (-1 among
   * them).
   */
  method WriteFullCode(w: BitWriter, codes: seq<HuffmanCode>) returns (ok: bool, ghost lengths: seq<HuffmanCode>)
    requires w.Valid()
    modifies w
    ensures w.Valid()
    ensures ok <==> FullSendable(codes, lengths)
    ensures ok ==> w.Stream() == old(w.Stream()) + FullBits(codes, lengths)
    ensures |codes| >= 1 && SlotsAsWritten(codes) ==> SlotsOk(codes) && LengthCodeFor(DepthHisto(codes), lengths)
  {
    lengths := [];
    var histoOk, histo := SlotHistogram(codes);
    if !histoOk {
      ok := false;
      return;
    }
    var cnt := SentCount(histo);
    if |codes| == 0 {
      // no slot occurs: the count less 4 does not fit four bits
      NoFieldSent(codes);
      w.WriteBits(0, 1);
      ok := false;
      return;
    }
    ok, lengths := WriteFullCodeOf(w, codes, histo, cnt);
  }

  /** The full form once the slot histogram and the field count are known. */
  method WriteFullCodeOf(w: BitWriter, codes: seq<HuffmanCode>, histo: seq<nat>, cnt: nat) returns (ok: bool, ghost lengths: seq<HuffmanCode>)
    requires w.Valid() && |codes| >= 1 && SlotsOk(codes) && SlotsAsWritten(codes)
    requires histo == DepthHisto(codes) && cnt == LengthCount(histo, 19)
    modifies w
    ensures w.Valid()
    ensures ok <==> FullSendable(codes, lengths)
    ensures ok ==> w.Stream() == old(w.Stream()) + FullBits(codes, lengths)
    ensures LengthCodeFor(histo, lengths)
  {
    SomeFieldSent(codes);
    SmallPowers();
    SingleBits();
    ghost var start := w.Stream();
    w.WriteBits(0, 1);
    w.WriteBits(cnt - 4, 4);
    AppendAssoc(start, [false], LsbBits(cnt - 4, 4));
    var lens;
    ghost var order;
    lens, order := BuildCodes(histo, 7);
    lengths := lens;
    LengthCodeBuilt(codes, histo, lens, order);
    SlotsCoded(codes, lens);
    FullWritableIff(codes, lens, cnt);
    ok := WriteFieldsAndSlots(w, codes, lens, cnt, start, [false] + LsbBits(cnt - 4, 4));
    if ok {
      FullBitsParts(codes, lengths, cnt);
    }
  }

  /**
   * The rest of the full form: the fields, a 0 marker, then each code's slot.
   * Fails exactly where a sent field is not a value of three bits.
   */
  method WriteFieldsAndSlots(w: BitWriter, codes: seq<HuffmanCode>, lengths: seq<HuffmanCode>, cnt: nat,
                             ghost start: seq<bool>, ghost sent: seq<bool>) returns (ok: bool)
    requires w.Valid() && w.Stream() == start + sent
    requires SlotsOk(codes) && SlotsAsWritten(codes) && |lengths| == 19 && cnt <= 19
    requires AllCoded(BookOf(lengths), Slots(codes))
    requires forall s :: 0 <= s < 19 ==> lengths[s].depth < 19
    modifies w
    ensures w.Valid()
    ensures ok <==> FieldsAsWritten(lengths, cnt)
    ensures ok ==> FieldsOk(lengths, cnt) && w.Stream() == start + (sent + FieldBits(lengths, cnt) + [false] + EncodeSymbols(BookOf(lengths), Slots(codes)))
  {
    ok := WriteFields(w, lengths, cnt);
    if !ok {
      return;
    }
    AppendAssoc(start, sent, FieldBits(lengths, cnt));
    ghost var more := sent + FieldBits(lengths, cnt);
    SingleBits();
    w.WriteBits(0, 1);
    AppendAssoc(start, more, [false]);
    more := more + [false];
    WriteSlots(w, codes, lengths);
    AppendAssoc(start, more, EncodeSymbols(BookOf(lengths), Slots(codes)));
  }

  /** Every code's slot has a length-slot code when exactly the occurring slots have one. */
  lemma SlotsCoded(codes: seq<HuffmanCode>, lengths: seq<HuffmanCode>)
    requires SlotsOk(codes) && |lengths| == 19
    requires forall s :: 0 <= s < 19 ==> (lengths[s].depth != 0 <==> DepthHisto(codes)[s] > 0)
    ensures AllCoded(BookOf(lengths), Slots(codes))
  {
    var slots := Slots(codes);
    forall k | 0 <= k < |slots|
      ensures BookOf(lengths)[slots[k]].Some?
    {
      TallyCounts(slots, k);
    }
  }

  /**
   * With the rest of FullWritable in hand, it comes down to the sent fields
   * fitting; with no -1 depth among the codes, FullSendable comes down to the
   * sent fields fitting as the source sends them.
   */
  lemma FullWritableIff(codes: seq<HuffmanCode>, lengths: seq<HuffmanCode>, cnt: nat)
    requires |codes| >= 1 && SlotsOk(codes) && |lengths| == 19
    requires forall s :: 0 <= s < 19 ==> (lengths[s].depth != 0 <==> DepthHisto(codes)[s] > 0)
    requires cnt == LengthCount(DepthHisto(codes), 19)
    ensures FullWritable(codes, lengths) <==> FieldsOk(lengths, cnt)
    ensures SlotsAsWritten(codes) ==> (FullSendable(codes, lengths) <==> FieldsAsWritten(lengths, cnt))
  {
  }

  /** The empty table sends no field (the source then fails to write the count). */
  lemma NoFieldSent(codes: seq<HuffmanCode>)
    requires |codes| == 0
    ensures SlotsOk(codes) && LengthCount(DepthHisto(codes), 19) == 0
  {
    var histo := DepthHisto(codes);
    assert histo == seq(19, _ => 0);
    LengthCountCovers(histo, 19);
    forall j | 0 <= j < 19
      ensures histo[LengthCodeOrder[j]] == 0
    {
      LengthCodeOrderBounded(j);
    }
    NoLiveSlot(histo, 19);
  }

  lemma {:induction false} NoLiveSlot(histo: seq<nat>, i: nat)
    requires |histo| == 19 && i <= 19
    requires forall j :: 0 <= j < 19 ==> histo[LengthCodeOrder[j]] == 0
    ensures LengthCount(histo, i) == 0
  {
    if i > 0 {
      NoLiveSlot(histo, i - 1);
    }
  }

  /** The full form is its five parts in order. */
  lemma FullBitsParts(codes: seq<HuffmanCode>, lengths: seq<HuffmanCode>, cnt: nat)
    requires FullWritable(codes, lengths) && cnt == LengthCount(DepthHisto(codes), 19)
    ensures 4 <= cnt <= 19 && AllCoded(BookOf(lengths), Slots(codes))
    ensures FullBits(codes, lengths) ==
      [false] + LsbBits(cnt - 4, 4) + FieldBits(lengths, cnt) + [false] + EncodeSymbols(BookOf(lengths), Slots(codes))
  {
    FullWritableFacts(codes, lengths);
  }

  /** The facts about the length-slot code the full form relies on. */
  lemma LengthCodeBuilt(codes: seq<HuffmanCode>, histo: seq<nat>, lengths: seq<HuffmanCode>, order: seq<HuffmanCode>)
    requires |codes| >= 1 && SlotsOk(codes) && histo == DepthHisto(codes)
    requires |lengths| == |histo|
    requires forall s: nat :: s < |histo| ==> (lengths[s].depth != 0 <==> Used(histo, s))
    requires CountPositive(histo) <= 1 ==> forall s: nat :: Used(histo, s) ==> lengths[s] == HuffmanCode(s, 0, -1)
    requires CountPositive(histo) >= 2 ==>
      (forall s: nat :: Used(histo, s) ==> lengths[s].symbol == s && 1 <= lengths[s].depth < CountPositive(histo))
    requires PrefixFree(lengths)
    ensures LengthCodeFor(histo, lengths)
    ensures forall s :: 0 <= s < 19 ==> (lengths[s].depth != 0 <==> histo[s] > 0)
  {
    TallyCounts(Slots(codes), 0);
    CountPositiveOne(histo, Slots(codes)[0]);
    CountPositiveAtMost(histo);
    BuiltCodesDecodable(histo, lengths);
  }

  /** Sends the simple form of one or two symbols below 256. */
  method WriteSimple(w: BitWriter, syms: seq<nat>)
    requires w.Valid() && SimpleSymbols(syms)
    modifies w
    ensures w.Valid()
    ensures w.Stream() == old(w.Stream()) + SimpleBits(syms)
  {
    SmallPowers();
    SingleBits();
    ghost var start := w.Stream();
    w.WriteBits(1, 1);
    w.WriteBits(|syms| - 1, 1);
    ghost var sent := [true] + LsbBits(|syms| - 1, 1);
    AppendAssoc(start, [true], LsbBits(|syms| - 1, 1));
    var first := 1;
    if syms[0] <= 1 {
      w.WriteBits(0, 1);
    } else {
      w.WriteBits(1, 1);
      first := 8;
    }
    AppendAssoc(start, sent, [syms[0] > 1]);
    sent := sent + [syms[0] > 1];
    w.WriteBits(syms[0], first);
    AppendAssoc(start, sent, LsbBits(syms[0], first));
    sent := sent + LsbBits(syms[0], first);
    if |syms| > 1 {
      w.WriteBits(syms[1], 8);
      AppendAssoc(start, sent, LsbBits(syms[1], 8));
    } else {
      assert sent + [] == sent;
    }
  }

  /**
   * The live symbols the header writer looks at (the source's first loop):
   * up to the first two, and whether there are more than two.
   */
  method LiveSymbols(codes: seq<HuffmanCode>) returns (cnt: nat, symbols: seq<nat>)
    ensures cnt == if |Coded(codes)| > 2 then 3 else |Coded(codes)|
    ensures |symbols| == 2
    ensures forall k :: 0 <= k < 2 ==> symbols[k] == if k < |Coded(codes)| then Coded(codes)[k] else 0
  {
    symbols := [0, 0];
    cnt := 0;
    var i := 0;
    while i < |codes|
      invariant i <= |codes| && |symbols| == 2
      invariant cnt == |Coded(codes[..i])| && cnt <= 2
      invariant forall k :: 0 <= k < 2 ==> symbols[k] == if k < cnt then Coded(codes[..i])[k] else 0
    {
      CodedStep(codes, i);
      if codes[i].depth != 0 {
        if cnt < 2 {
          symbols := symbols[cnt := codes[i].symbol];
        }
        cnt := cnt + 1;
      }
      if cnt > 2 {
        CodedPrefix(codes, i + 1);
        CodedPrefix(codes, i);
        return;
      }
      i := i + 1;
    }
    assert codes[..i] == codes;
  }

  /**
   * Sends a code table ahead of the data it codes (the source's
   * writehuffmanCodes): the empty form when no code is live, the simple form
   * for one or two live symbols below 256, the full form otherwise. Fails
   * exactly where the source's full form panics; lengths is the length-slot
   * code the full form built.
   */
  method WriteHuffmanCodes(w: BitWriter, codes: seq<HuffmanCode>) returns (ok: bool, ghost lengths: seq<HuffmanCode>)
    requires w.Valid()
    modifies w
    ensures w.Valid()
    ensures ok <==> HeaderSendable(codes, lengths)
    ensures ok ==> w.Stream() == old(w.Stream()) + HeaderBits(codes, lengths)
    ensures FormOf(codes).FullForm? && SlotsAsWritten(codes) ==> SlotsOk(codes) && LengthCodeFor(DepthHisto(codes), lengths)
  {
    lengths := [];
    var cnt, symbols := LiveSymbols(codes);
    ghost var live, form := Coded(codes), FormOf(codes);
    if cnt == 0 {
      assert form == EmptyForm;
      ghost var start := w.Stream();
      SingleBits();
      w.WriteBits(1, 1);
      w.WriteBits(0, 3);
      AppendAssoc(start, [true], LsbBits(0, 3));
      ok := true;
    } else if cnt <= 2 && symbols[0] < 256 && symbols[1] < 256 {
      assert live == symbols[..cnt];
      assert form == SimpleForm(live);
      WriteSimple(w, symbols[..cnt]);
      ok := true;
    } else {
      assert form == FullForm;
      ok, lengths := WriteFullCode(w, codes);
    }
  }

  // ---------------------------------------------------------------------
  // Two inputs on which the source's writeFullhuffmanCode panics
  // ---------------------------------------------------------------------

  /** A live code's symbol is among the live symbols. */
  lemma CodedHas(codes: seq<HuffmanCode>, k: nat)
    requires k < |codes| && codes[k].depth != 0
    ensures codes[k].symbol in Coded(codes)
  {
    CodedStep(codes, k);
    CodedPrefix(codes, k + 1);
    assert Coded(codes[..k + 1])[|Coded(codes[..k + 1])| - 1] == codes[k].symbol;
  }

  /**
   * A table whose only live code is the zero-bit code of a symbol at or above
   * 256 (what BuildCodes returns when the only positive count lies there)
   * takes the full form, where the source counts that code at index -1 of its
   * slot histogram, so no length-slot code makes the header sendable. The
   * corrected slot is 1.
   */
  lemma LoneHighSymbol(codes: seq<HuffmanCode>, k: nat, lengths: seq<HuffmanCode>)
    requires k < |codes| && codes[k].depth == -1 && codes[k].symbol >= 256
    ensures FormOf(codes).FullForm?
    ensures SlotAsWritten(codes[k].depth).None? && Slot(codes[k].depth) == Some(1)
    ensures !HeaderSendable(codes, lengths)
  {
    CodedHas(codes, k);
  }

  /** The tally of slots that are all 0 but one 1. */
  lemma {:induction false} TallyOfLone(slots: seq<nat>, k: nat)
    requires k < |slots| && slots[k] == 1
    requires forall j :: 0 <= j < |slots| && j != k ==> slots[j] == 0
    ensures SlotList(slots)
    ensures Tally(slots)[0] == |slots| - 1 && Tally(slots)[1] == 1
    ensures forall s :: 2 <= s < 19 ==> Tally(slots)[s] == 0
  {
    var n := |slots| - 1;
    if k < n {
      TallyOfLone(slots[..n], k);
    } else {
      TallyOfSame(slots[..n], 0);
    }
  }

  /** The tally of slots that are all t. */
  lemma {:induction false} TallyOfSame(slots: seq<nat>, t: nat)
    requires t < 19 && forall j :: 0 <= j < |slots| ==> slots[j] == t
    ensures SlotList(slots)
    ensures Tally(slots)[t] == |slots|
    ensures forall s :: 0 <= s < 19 && s != t ==> Tally(slots)[s] == 0
  {
    if slots != [] {
      TallyOfSame(slots[..|slots| - 1], t);
    }
  }

  /** Counting the positive entries of a histogram whose positive entries all sit below lo. */
  lemma {:induction false} CountPositiveUpTo(histo: seq<nat>, lo: nat, i: nat)
    requires lo <= i <= |histo|
    requires forall s :: lo <= s < |histo| ==> histo[s] == 0
    ensures CountPositive(histo[..i]) == CountPositive(histo[..lo])
  {
    if i > lo {
      CountPositiveUpTo(histo, lo, i - 1);
      assert histo[..i][..i - 1] == histo[..i - 1];
    }
  }

  /** The table with one zero-bit code and the rest unused has two live slots, 0 and 1. */
  lemma LoneSlots(codes: seq<HuffmanCode>, k: nat)
    requires 2 <= |codes| && k < |codes| && codes[k].depth == -1
    requires forall j :: 0 <= j < |codes| && j != k ==> codes[j].depth == 0
    ensures SlotsOk(codes)
    ensures DepthHisto(codes)[0] > 0 && DepthHisto(codes)[1] > 0
    ensures forall s :: 2 <= s < 19 ==> DepthHisto(codes)[s] == 0
    ensures CountPositive(DepthHisto(codes)) == 2
  {
    assert SlotsOk(codes);
    var slots := Slots(codes);
    TallyOfLone(slots, k);
    var histo := DepthHisto(codes);
    CountPositiveUpTo(histo, 2, 19);
    assert histo[..19] == histo;
    CountPositiveFirstTwo(histo);
  }

  lemma CountPositiveFirstTwo(histo: seq<nat>)
    requires |histo| >= 2 && histo[0] > 0 && histo[1] > 0
    ensures CountPositive(histo[..2]) == 2
  {
    var h2 := histo[..2];
    assert h2[..1] == histo[..1];
    assert histo[..1][..0] == [];
    assert CountPositive(histo[..1]) == 1;
    assert CountPositive(h2) == CountPositive(h2[..1]) + 1;
  }

  /**
   * With the corrected slot, the table LoneHighSymbol describes can be sent in
   * the full form: the length-slot code has two one-bit codes and four fields
   * are sent.
   */
  lemma LoneHighSymbolFixed(codes: seq<HuffmanCode>, k: nat, lengths: seq<HuffmanCode>)
    requires 2 <= |codes| && k < |codes| && codes[k].depth == -1
    requires forall j :: 0 <= j < |codes| && j != k ==> codes[j].depth == 0
    requires SlotsOk(codes) && LengthCodeFor(DepthHisto(codes), lengths)
    ensures LengthCount(DepthHisto(codes), 19) == 4
    ensures FullWritable(codes, lengths)
  {
    LoneSlots(codes, k);
    var histo := DepthHisto(codes);
    assert histo[LengthCodeOrder[2]] > 0;
    assert LengthCount(histo, 19) == 4 by {
      NoLaterSlot(histo, 4, 19);
    }
    forall i | 0 <= i < 4
      ensures Field(lengths[LengthCodeOrder[i]].depth).Some?
    {
      LengthCodeOrderBounded(i);
      assert Used(histo, 0) && Used(histo, 1);
    }
  }

  /** Slots that do not occur past position lo leave the count as it was at lo. */
  lemma {:induction false} NoLaterSlot(histo: seq<nat>, lo: nat, i: nat)
    requires |histo| == 19 && lo <= i <= 19
    requires forall j :: lo <= j < 19 ==> histo[LengthCodeOrder[j]] == 0
    ensures LengthCount(histo, i) == LengthCount(histo, lo)
  {
    if i > lo {
      NoLaterSlot(histo, lo, i - 1);
    }
  }

  /**
   * A table whose codes all have the same depth (256 codes of depth 8, say)
   * fills a single slot, so BuildCodes gives that slot the zero-bit marker -1
   * and the source sends it among the fields as uint64(-1) in three bits: the
   * full form of such a table is never sendable.
   */
  lemma UniformDepths(codes: seq<HuffmanCode>, lengths: seq<HuffmanCode>, t: nat)
    requires |codes| >= 1 && t < 19
    requires forall j :: 0 <= j < |codes| ==> Slot(codes[j].depth) == Some(t)
    requires LengthCodeFor(DepthHisto(codes), lengths)
    ensures LengthCodePosition[t] < LengthCount(DepthHisto(codes), 19)
    ensures FieldAsWritten(lengths[t].depth).None?
    ensures Field(lengths[t].depth) == Some(1)
    ensures !FullSendable(codes, lengths)
  {
    SameSlot(codes, t);
    var histo := DepthHisto(codes);
    LengthCodeOrderInverse(t);
    LengthCountCovers(histo, 19);
  }

  lemma SameSlot(codes: seq<HuffmanCode>, t: nat)
    requires |codes| >= 1 && t < 19
    requires forall j :: 0 <= j < |codes| ==> Slot(codes[j].depth) == Some(t)
    ensures SlotsOk(codes)
    ensures DepthHisto(codes)[t] > 0
    ensures forall s :: 0 <= s < 19 && s != t ==> DepthHisto(codes)[s] == 0
    ensures CountPositive(DepthHisto(codes)) == 1
  {
    var slots := Slots(codes);
    TallyOfSame(slots, t);
    var histo := DepthHisto(codes);
    CountPositiveUpTo(histo, t + 1, 19);
    assert histo[..19] == histo;
    CountPositiveBelow(histo, t);
    assert histo[..t + 1][..t] == histo[..t];
  }

  lemma {:induction false} CountPositiveBelow(histo: seq<nat>, i: nat)
    requires i <= |histo| && forall s :: 0 <= s < i ==> histo[s] == 0
    ensures CountPositive(histo[..i]) == 0
  {
    if i > 0 {
      CountPositiveBelow(histo, i - 1);
      assert histo[..i][..i - 1] == histo[..i - 1];
    }
  }

  /** With the corrected field, the table UniformDepths describes can be sent in the full form. */
  lemma UniformDepthsFixed(codes: seq<HuffmanCode>, lengths: seq<HuffmanCode>, t: nat)
    requires |codes| >= 1 && t < 19
    requires forall j :: 0 <= j < |codes| ==> Slot(codes[j].depth) == Some(t)
    requires LengthCodeFor(DepthHisto(codes), lengths)
    ensures FullWritable(codes, lengths)
  {
    SameSlot(codes, t);
    var histo := DepthHisto(codes);
    LengthCountCovers(histo, 19);
    forall i | 0 <= i < 19
      ensures Field(lengths[LengthCodeOrder[i]].depth).Some?
    {
      LengthCodeOrderBounded(i);
    }
  }
}
