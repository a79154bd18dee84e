/** hm_fragment: one incoming handshake message under reassembly, with a bitmask of
    the body bytes received so far (d1_both.cc). */
module DtlsFragment {
  import opened Basics
  import opened Bits
  import opened DtlsCodec

  // ---- What a partly received message is ---------------------------------

  /** covered is the set of body bytes received, epochs the read epochs in which the
      message was created and fragments of it were stored. Memory not yet received is zero. */
  datatype Incoming = Incoming(typ: byte, msgLen: nat, seqNum: nat, covered: set<nat>, body: bytes, epochs: set<nat>) {
    predicate Ok() {
      |body| == msgLen && forall i :: i in covered ==> i < msgLen
    }

    predicate Complete() {
      AllIn(covered, msgLen)
    }

    /** The message as the sender serialised it: one fragment from offset 0. */
    function Raw(): bytes {
      EncodeHeader(Header(typ, msgLen, seqNum, 0, msgLen)) + body
    }
  }

  predicate AllIn(covered: set<nat>, n: nat) {
    forall i: nat :: i < n ==> i in covered
  }

  /** A message of which only a header has been seen. */
  function Fresh(h: Header, epoch: nat): (m: Incoming)
    ensures m.Ok()
  {
    Incoming(h.typ, h.msgLen, h.seqNum, {}, seq(h.msgLen, _ => 0), {epoch})
  }

  function Range(start: nat, end: nat): (s: set<nat>)
    ensures forall i :: i in s <==> start <= i < end
    decreases end - start
  {
    if start >= end then {} else {start} + Range(start + 1, end)
  }

  function Splice(body: bytes, off: nat, b: bytes): (r: bytes)
    requires off + |b| <= |body|
    ensures |r| == |body|
    ensures forall i :: 0 <= i < |r| ==> r[i] == if off <= i < off + |b| then b[i - off] else body[i]
  {
    body[..off] + b + body[off + |b|..]
  }

  /** Receipt of body bytes b at offset off; a complete message takes no more. */
  function Absorb(m: Incoming, off: nat, b: bytes, epoch: nat): (r: Incoming)
    requires m.Ok() && off + |b| <= m.msgLen
    ensures r.Ok()
  {
    if m.Complete() then m
    else m.(covered := m.covered + Range(off, off + |b|), body := Splice(m.body, off, b), epochs := m.epochs + {epoch})
  }

  /** Body bytes of a fragment and where they go. */
  datatype Piece = Piece(off: nat, body: bytes, epoch: nat)

  predicate PiecesFit(ps: seq<Piece>, msgLen: nat) {
    forall i :: 0 <= i < |ps| ==> ps[i].off + |ps[i].body| <= msgLen
  }

  function AbsorbAll(m: Incoming, ps: seq<Piece>): (r: Incoming)
    requires m.Ok() && PiecesFit(ps, m.msgLen)
    ensures r.Ok() && r.msgLen == m.msgLen
    decreases |ps|
  {
    if ps == [] then m else AbsorbAll(Absorb(m, ps[0].off, ps[0].body, ps[0].epoch), ps[1..])
  }

  function Union(ps: seq<Piece>): set<nat> {
    if ps == [] then {} else Range(ps[0].off, ps[0].off + |ps[0].body|) + Union(ps[1..])
  }

  lemma {:induction false} UnionInRange(ps: seq<Piece>, msgLen: nat)
    requires PiecesFit(ps, msgLen)
    ensures forall i :: i in Union(ps) ==> i < msgLen
  {
    if ps != [] { UnionInRange(ps[1..], msgLen); }
  }

  /** Whatever the order, overlap and repetition of the fragments, a byte is marked
      exactly when some fragment carried it; so the message is complete from exactly
      the fragment on that finishes the cover. */
  lemma {:induction false} AbsorbAllCovers(m: Incoming, ps: seq<Piece>)
    requires m.Ok() && PiecesFit(ps, m.msgLen)
    ensures AbsorbAll(m, ps).covered == m.covered + Union(ps)
    ensures AbsorbAll(m, ps).Complete() <==> AllIn(m.covered + Union(ps), m.msgLen)
    decreases |ps|
  {
    if ps == [] {
      assert m.covered + Union(ps) == m.covered;
    } else {
      var next := Absorb(m, ps[0].off, ps[0].body, ps[0].epoch);
      AbsorbAllCovers(next, ps[1..]);
      UnionInRange(ps, m.msgLen);
      assert next.covered + Union(ps[1..]) == m.covered + Union(ps);
    }
  }

  // ---- The bitmask -------------------------------------------------------

  /** bit_range: bits start, inclusive, to end, exclusive, as a byte; computed in
      w-bit unsigned arithmetic. */
  function BitRange(start: nat, end: nat, w: nat := 32): (r: byte)
    requires start <= end <= 8 <= w
  {
    Pow2Mono(start, w);
    var mask := And(Pow2(w) - 1 - (Pow2(start) - 1), Pow2(end) - 1);
    assert Low(mask, 8) < 256 by { LowBound(mask, 8); assert Pow2(8) == 256; }
    Low(mask, 8)
  }

  lemma {:induction false} BitRangeBit(start: nat, end: nat, w: nat, i: nat)
    requires start <= end <= 8 <= w
    ensures Bit(BitRange(start, end, w), i) <==> start <= i < end
  {
    Pow2Mono(start, w);
    var high, low := Pow2(w) - 1 - (Pow2(start) - 1), Pow2(end) - 1;
    LowBit(And(high, low), 8, i);
    AndBit(high, low, i);
    NotBit(Pow2(start) - 1, w, i);
    OnesBit(start, i);
    OnesBit(end, i);
  }

  lemma {:induction false} NotBit(n: nat, w: nat, i: nat)
    requires n < Pow2(w)
    ensures Bit(Pow2(w) - 1 - n, i) == (i < w && !Bit(n, i))
    decreases w
  {
    if w == 0 {
      BitZero(i);
    } else {
      assert (Pow2(w) - 1 - n) / 2 == Pow2(w - 1) - 1 - n / 2;
      if i > 0 { NotBit(n / 2, w - 1, i - 1); }
    }
  }

  lemma {:induction false} Pow2Mono(a: nat, b: nat)
    requires a <= b
    ensures Pow2(a) <= Pow2(b)
    decreases b
  {
    if a < b { Pow2Mono(a, b - 1); }
  }

  /** Bit b of byte k stands for body byte 8k + b. */
  ghost predicate MaskIs(mask: seq<byte>, covered: set<nat>) {
    forall k: nat, b: nat {:trigger Bit(mask[k], b)} :: k < |mask| && b < 8 ==>
      (Bit(mask[k], b) <==> 8 * k + b in covered)
  }

  /** after is before with the bits of [start, end) set as well. */
  ghost predicate Sets(before: seq<byte>, after: seq<byte>, start: nat, end: nat) {
    && |after| == |before|
    && forall k: nat, b: nat {:trigger Bit(after[k], b)} :: k < |after| && b < 8 ==>
      (Bit(after[k], b) <==> Bit(before[k], b) || start <= 8 * k + b < end)
  }

  lemma OrRange(mask: seq<byte>, k: nat, start: nat, end: nat)
    requires k < |mask| && start <= end <= 8
    ensures Or(mask[k], BitRange(start, end)) < 256
    ensures Sets(mask, mask[k := Or(mask[k], BitRange(start, end))], 8 * k + start, 8 * k + end)
  {
    assert Pow2(8) == 256;
    OrBound(mask[k], BitRange(start, end), 8);
    var x: byte := Or(mask[k], BitRange(start, end));
    forall j: nat, b: nat {:trigger Bit(mask[k := x][j], b)} | j < |mask| && b < 8
      ensures Bit(mask[k := x][j], b) <==> Bit(mask[j], b) || 8 * k + start <= 8 * j + b < 8 * k + end
    {
      if j == k {
        OrBit(mask[k], BitRange(start, end), b);
        BitRangeBit(start, end, 32, b);
      }
    }
  }

  lemma FillByte(mask: seq<byte>, k: nat)
    requires k < |mask|
    ensures Sets(mask, mask[k := 0xff], 8 * k, 8 * k + 8)
  {
    forall j: nat, b: nat {:trigger Bit(mask[k := 0xff][j], b)} | j < |mask| && b < 8
      ensures Bit(mask[k := 0xff][j], b) <==> Bit(mask[j], b) || 8 * k <= 8 * j + b < 8 * k + 8
    {
      if j == k { OnesAreSet(b); }
    }
  }

  lemma {:induction false} OnesAreSet(b: nat)
    ensures Bit(0xff, b) <==> b < 8
  {
    assert Pow2(8) == 256;
    OnesBit(8, b);
  }

  lemma SetsMore(m0: seq<byte>, m1: seq<byte>, m2: seq<byte>, a: nat, b: nat, c: nat)
    requires a <= b <= c && Sets(m0, m1, a, b) && Sets(m1, m2, b, c)
    ensures Sets(m0, m2, a, c)
  {}

  /** Marking a range in the mask adds it to the set. */
  lemma {:induction false} MaskGrows(before: seq<byte>, after: seq<byte>, covered: set<nat>, start: nat, end: nat)
    requires MaskIs(before, covered) && Sets(before, after, start, end)
    ensures MaskIs(after, covered + Range(start, end))
  {}

  ghost predicate Covers(covered: set<nat>, from: nat, to: nat) {
    forall i: nat :: from <= i < to ==> i in covered
  }

  /** A byte with nothing above bit r is full exactly when it equals bit_range(0, r). */
  lemma FullByte(mask: seq<byte>, covered: set<nat>, k: nat, r: nat)
    requires MaskIs(mask, covered) && k < |mask| && r <= 8
    requires r == 8 || forall i :: i in covered ==> i < 8 * k + r
    ensures mask[k] == BitRange(0, r) <==> Covers(covered, 8 * k, 8 * k + r)
  {
    if mask[k] == BitRange(0, r) {
      forall i: nat | 8 * k <= i < 8 * k + r ensures i in covered {
        BitRangeBit(0, r, 32, i - 8 * k);
        assert Bit(mask[k], i - 8 * k);
      }
    }
    if Covers(covered, 8 * k, 8 * k + r) {
      CoveredByte(mask, covered, k, r);
    }
  }

  lemma CoveredByte(mask: seq<byte>, covered: set<nat>, k: nat, r: nat)
    requires MaskIs(mask, covered) && k < |mask| && r <= 8
    requires r == 8 || forall i :: i in covered ==> i < 8 * k + r
    requires Covers(covered, 8 * k, 8 * k + r)
    ensures mask[k] == BitRange(0, r)
  {
    forall b: nat | b < 8 ensures Bit(mask[k], b) == Bit(BitRange(0, r), b) {
      BitRangeBit(0, r, 32, b);
      assert Bit(mask[k], b) <==> 8 * k + b in covered;
    }
    assert Pow2(8) == 256;
    SameBits(mask[k], BitRange(0, r), 8);
  }

  lemma FullIsOnes()
    ensures BitRange(0, 8) == 0xff
  {
    assert Pow2(8) == 256;
    forall b: nat | b < 8 ensures Bit(0xff, b) == Bit(BitRange(0, 8), b) {
      BitRangeBit(0, 8, 32, b);
      OnesAreSet(b);
    }
    SameBits(0xff, BitRange(0, 8), 8);
  }

  /** hm_fragment. covered and epochs are history; the mask holds covered while the
      message is incomplete, and is gone once it is complete. */
  class HmFragment {
    const typ: byte
    const seqNum: nat
    const msgLen: nat
    const data: array<byte>
    var reassembly: array?<byte>
    ghost var covered: set<nat>
    ghost var epochs: set<nat>

    ghost function Repr(): set<object>
      reads this
    {
      {this, data} + if reassembly == null then {} else {reassembly}
    }

    ghost predicate Valid()
      reads this, data, reassembly
    {
      && data.Length == HM_HEADER_LENGTH + msgLen
      && data[..HM_HEADER_LENGTH] == EncodeHeader(Header(typ, msgLen, seqNum, 0, msgLen))
      && (forall i :: i in covered ==> i < msgLen)
      && (reassembly == null <==> View().Complete())
      && (reassembly != null ==>
           && reassembly != data && reassembly.Length == (msgLen + 7) / 8
           && MaskIs(reassembly[..], covered))
    }

    ghost function View(): Incoming
      requires data.Length == HM_HEADER_LENGTH + msgLen
      reads this, data
    {
      Incoming(typ, msgLen, seqNum, covered, data[HM_HEADER_LENGTH..], epochs)
    }

    /** dtls1_hm_fragment_new: an empty message has no bitmask. */
    constructor (h: Header, ghost epoch: nat)
      ensures Valid() && View() == Fresh(h, epoch) && fresh(Repr())
    {
      typ, seqNum, msgLen := h.typ, h.seqNum, h.msgLen;
      var header := EncodeHeader(Header(h.typ, h.msgLen, h.seqNum, 0, h.msgLen));
      var d := new byte[HM_HEADER_LENGTH + h.msgLen]
        (i requires 0 <= i < HM_HEADER_LENGTH + h.msgLen => if i < HM_HEADER_LENGTH then header[i] else 0);
      data := d;
      covered, epochs := {}, {epoch};
      var mask: array?<byte> := null;
      if h.msgLen > 0 {
        mask := new byte[(h.msgLen + 7) / 8] (_ => 0);
      }
      reassembly := mask;
      new;
      assert data[HM_HEADER_LENGTH..] == Fresh(h, epoch).body;
      assert msgLen > 0 ==> 0 !in covered;
      forall b: nat ensures !Bit(0, b) { BitZero(b); }
    }

    /** The mask update of dtls1_hm_fragment_mark. */
    method SetBits(mask: array<byte>, start: nat, end: nat)
      requires start < end <= 8 * mask.Length
      modifies mask
      ensures Sets(old(mask[..]), mask[..], start, end)
    {
      var first, last := start / 8, end / 8;
      ghost var before := mask[..];
      if first == last {
        OrRange(mask[..], first, start % 8, end % 8);
        mask[first] := Or(mask[first], BitRange(start % 8, end % 8));
        assert mask[..] == before[first := mask[first]];
      } else {
        OrRange(mask[..], first, start % 8, 8);
        mask[first] := Or(mask[first], BitRange(start % 8, 8));
        assert mask[..] == before[first := mask[first]];
        var i := first + 1;
        while i < last
          invariant first < i <= last && Sets(before, mask[..], start, 8 * i)
        {
          ghost var m := mask[..];
          FillByte(m, i);
          mask[i] := 0xff;
          assert mask[..] == m[i := 0xff];
          SetsMore(before, m, mask[..], start, 8 * i, 8 * (i + 1));
          i := i + 1;
        }
        if end % 8 != 0 {
          ghost var m := mask[..];
          OrRange(m, last, 0, end % 8);
          mask[last] := Or(mask[last], BitRange(0, end % 8));
          assert mask[..] == m[last := mask[last]];
          SetsMore(before, m, mask[..], start, 8 * last, end);
        }
      }
    }

    /** The completeness check of dtls1_hm_fragment_mark. */
    method AllReceived(mask: array<byte>) returns (r: bool)
      requires mask.Length == (msgLen + 7) / 8 && MaskIs(mask[..], covered)
      requires forall i :: i in covered ==> i < msgLen
      ensures r <==> AllIn(covered, msgLen)
    {
      FullIsOnes();
      var i := 0;
      while i < msgLen / 8
        invariant i <= msgLen / 8 && forall j: nat :: j < 8 * i ==> j in covered
      {
        FullByte(mask[..], covered, i, 8);
        if mask[i] != 0xff { return false; }
        i := i + 1;
      }
      if msgLen % 8 != 0 {
        FullByte(mask[..], covered, i, msgLen % 8);
        if mask[i] != BitRange(0, msgLen % 8) { return false; }
      }
      return true;
    }

    /** dtls1_hm_fragment_mark: the message becomes complete, and the mask is freed,
        exactly when the last missing byte arrives. */
    method Mark(start: nat, end: nat)
      requires reassembly != null && start <= end <= msgLen
      requires reassembly.Length == (msgLen + 7) / 8 && MaskIs(reassembly[..], covered)
      requires !AllIn(covered, msgLen) && forall i :: i in covered ==> i < msgLen
      modifies `reassembly, `covered, reassembly
      ensures covered == old(covered) + Range(start, end)
      ensures reassembly == null <==> AllIn(covered, msgLen)
      ensures reassembly != null ==> reassembly == old(reassembly) && MaskIs(reassembly[..], covered)
    {
      if start == end {
        assert covered + Range(start, end) == covered;
        return;
      }
      var mask := reassembly;
      ghost var before := mask[..];
      SetBits(mask, start, end);
      MaskGrows(before, mask[..], covered, start, end);
      covered := covered + Range(start, end);
      var done := AllReceived(mask);
      if done { reassembly := null; }
    }

    /** What dtls1_open_handshake does with the fragment's body: copy it in and mark it,
        unless the message is already assembled. */
    method Store(off: nat, body: bytes, ghost epoch: nat)
      requires Valid() && off + |body| <= msgLen
      modifies `reassembly, `covered, `epochs, data, reassembly
      ensures Valid() && View() == Absorb(old(View()), off, body, epoch)
      ensures reassembly == null || reassembly == old(reassembly)
    {
      if reassembly == null { return; }
      CopyIn(off, body);
      Mark(off, off + |body|);
      epochs := epochs + {epoch};
    }

    /** The memcpy into the message buffer. */
    method CopyIn(off: nat, body: bytes)
      requires data.Length == HM_HEADER_LENGTH + msgLen && off + |body| <= msgLen
      modifies data
      ensures data[..HM_HEADER_LENGTH] == old(data[..HM_HEADER_LENGTH])
      ensures data[HM_HEADER_LENGTH..] == Splice(old(data[HM_HEADER_LENGTH..]), off, body)
    {
      var i := 0;
      while i < |body|
        invariant i <= |body|
        invariant forall j :: 0 <= j < data.Length ==>
          data[j] == if 0 <= j - HM_HEADER_LENGTH - off < i then body[j - HM_HEADER_LENGTH - off] else old(data[j])
      {
        data[HM_HEADER_LENGTH + off + i] := body[i];
        i := i + 1;
      }
    }
  }
}
