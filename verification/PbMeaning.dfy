/** What a message on the wire means: an independent reading of its fields as literal values,
    and the proof that the decoder stores exactly that, or fails exactly where it does not fit. */
module PbMeaning {
  import opened Basics
  import opened Bits
  import opened PbVarint
  import opened PbTypes
  import opened PbEncodeSpec
  import opened PbDecodeSpec
  import opened PbValid
  import opened PbWire
  import opened PbRoundTrip
  import opened PbOrder

  // ---- One value ---------------------------------------------------------

  /** Half the number of values that n bytes can hold. */
  function Half(n: nat): int {
    if n == 1 then 0x80 else if n == 2 then 0x8000 else if n == 4 then 0x8000_0000
    else 0x8000_0000_0000_0000
  }

  /** The 64-bit word that a varint stands for. */
  function Word(g: bytes): nat {
    GroupsValue(g) % 0x1_0000_0000_0000_0000
  }

  /** As a two's complement number of 64 bits, or of the low 32. */
  function Signed(u: nat, wide: bool): int {
    if wide then if u < 0x8000_0000_0000_0000 then u else u - 0x1_0000_0000_0000_0000
    else if u % 0x1_0000_0000 < 0x8000_0000 then u % 0x1_0000_0000 else u % 0x1_0000_0000 - 0x1_0000_0000
  }

  /** Alternating between the signs: 0, -1, 1, -2, ... */
  function Alternating(u: nat): int {
    if u % 2 == 0 then u / 2 else -(u / 2) - 1
  }

  /** Four bytes, least significant first. */
  function FourOf(b: bytes): nat
    requires |b| == 4
  {
    var b0: nat, b1: nat, b2: nat, b3: nat := b[0], b[1], b[2], b[3];
    b0 + 0x100 * b1 + 0x1_0000 * b2 + 0x100_0000 * b3
  }

  /** The number on the wire. */
  function NumberOn(f: Field, w: Wire): int
    requires Kind(f.l, w) && w.Ok() && !w.L?
  {
    match f.l
    case Varint => Signed(Word(w.groups), f.dataSize == 8)
    case UVarint => Word(w.groups)
    case SVarint => Alternating(Word(w.groups))
    case Fixed32 => FourOf(w.word)
    case Fixed64 => FourOf(w.word[..4]) + 0x1_0000_0000 * FourOf(w.word[4..])
  }

  /** Whether the member can hold it. */
  predicate InRange(f: Field, w: Wire)
    requires Kind(f.l, w) && w.Ok() && !f.l.Submessage?
  {
    match f.l
    case Varint | SVarint => |w.groups| <= 10 && -Half(f.dataSize) <= NumberOn(f, w) < Half(f.dataSize)
    case UVarint => |w.groups| <= 10 && NumberOn(f, w) < 2 * Half(f.dataSize)
    case Fixed32 | Fixed64 => true
    case Bytes | String => |w.body| < f.dataSize
    case FixedLengthBytes => |w.body| == 0 || |w.body| == f.dataSize
  }

  /** v is what the wire says: a number, the bytes and their number, the text and its
      terminator, the bytes of an inline array or zeros. */
  predicate Means(f: Field, w: Wire, v: Value)
    requires Kind(f.l, w) && w.Ok() && !f.l.Submessage?
  {
    match f.l
    case Bytes => v.Blob? && v.size == |w.body| <= |v.buf| == f.dataSize - 1 && v.buf[..v.size] == w.body
    case String => v.Text? && |w.body| < |v.buf| == f.dataSize && v.buf[..|w.body|] == w.body && v.buf[|w.body|] == 0
    case FixedLengthBytes =>
      && v.Inline? && |v.buf| == f.dataSize
      && (if w.body == [] then forall x :: x in v.buf ==> x == 0 else v.buf == w.body)
    case Varint | UVarint | SVarint | Fixed32 | Fixed64 => v == Int(NumberOn(f, w))
  }

  lemma ModulusIsTwoHalves(n: nat)
    requires IntSize(n)
    ensures Modulus(n) == 2 * Half(n)
  {}

  lemma {:induction false} WordIsLow(g: bytes)
    ensures Low(GroupsValue(g), 64) == Word(g) < TWO_64
  {
    LowValue(GroupsValue(g), 64);
    PowersOfTwo();
  }

  lemma {:induction false} VarintReads(w: Wire, rest: bytes)
    requires w.V? && w.Ok()
    ensures DecodeVarint(w.Raw() + rest) == if |w.groups| <= 10 then Done(Word(w.groups), rest) else Fail
  {
    var g := w.groups;
    GroupsLength(g, rest);
    assert (g + rest)[..|g|] == g && (g + rest)[|g|..] == rest;
    WordIsLow(g);
  }

  lemma SignedIs(u: nat, wide: bool)
    requires u < TWO_64
    ensures ToSigned(u, if wide then TWO_64 else TWO_32) == Signed(u, wide)
  {}

  lemma UnZigZagIs(u: nat)
    requires u < TWO_64
    ensures UnZigZag(u) == Alternating(u)
  {}

  lemma {:induction false} ClampsSigned(n: nat, v: int)
    requires IntSize(n)
    ensures ClampSigned(n, v) == if -Half(n) <= v < Half(n) then Some(Int(v)) else None
  {
    var m := 2 * Half(n);
    ModulusIsTwoHalves(n);
    if -Half(n) <= v < Half(n) { SignedWord(v, m); }
  }

  lemma {:induction false} FourBytes(b: bytes)
    requires |b| == 4
    ensures FromLittleEndian(b) == FourOf(b)
  {
    var b1, b2, b3 := b[1..], b[1..][1..], b[1..][1..][1..];
    assert b3[1..] == [] && FromLittleEndian(b3) == b3[0];
    assert FromLittleEndian(b2) == b2[0] + 256 * FromLittleEndian(b3);
    assert FromLittleEndian(b1) == b1[0] + 256 * FromLittleEndian(b2);
  }

  lemma {:induction false} LittleEndianSplit(b: bytes)
    requires |b| == 8
    ensures FromLittleEndian(b) == FromLittleEndian(b[..4]) + 0x1_0000_0000 * FromLittleEndian(b[4..])
  {
    var n := 4;
    var lo, hi := b[..4], b[4..];
    assert b == lo + hi;
    LittleEndianAppend(lo, hi);
    assert Pow2(8 * 4) == TWO_32 by { PowersOfTwo(); }
  }

  lemma {:induction false} LittleEndianAppend(a: bytes, b: bytes)
    ensures FromLittleEndian(a + b) == FromLittleEndian(a) + Pow2(8 * |a|) * FromLittleEndian(b)
    decreases |a|
  {
    if a == [] {
      assert a + b == b;
    } else {
      LittleEndianAppend(a[1..], b);
      assert (a + b)[1..] == a[1..] + b && (a + b)[0] == a[0];
      Pow2Add(8, 8 * |a[1..]|);
      assert Pow2(8) == 256 by { PowersOfTwo(); }
      Scaled(Pow2(8 * |a[1..]|), FromLittleEndian(b));
    }
  }

  lemma Scaled(p: nat, x: nat)
    ensures 256 * (p * x) == (256 * p) * x
  {}

  lemma {:induction false} FixedReads(f: Field, w: Wire, rest: bytes)
    requires Kind(f.l, w) && w.Ok() && (f.l.Fixed32? || f.l.Fixed64?)
    ensures Read(w.Raw() + rest, |w.word|) == Done(w.word, rest)
    ensures FromLittleEndian(w.word) == NumberOn(f, w)
  {
    var b := w.word;
    assert (b + rest)[..|b|] == b && (b + rest)[|b|..] == rest;
    if f.l.Fixed32? {
      FourBytes(b);
    } else {
      LittleEndianSplit(b);
      FourBytes(b[..4]);
      FourBytes(b[4..]);
    }
  }

  /** Decoding a value of any type but a submessage: the number or the bytes on the wire,
      exactly when the member can hold them. */
  lemma {:induction false} ValueExactly(f: Field, w: Wire, prior: Value, rest: bytes)
    requires WellFormedField(f) && Kind(f.l, w) && w.Ok() && !f.l.Submessage?
    ensures var r := DecodeValue(f, w.Raw() + rest, prior);
      && (r.Done? <==> InRange(f, w))
      && (r.Done? ==> r.rest == rest && Means(f, w, r.value))
  {
    match f.l {
      case Varint | UVarint | SVarint =>
        VarintReads(w, rest);
        var u := Word(w.groups);
        SignedIs(u, f.dataSize == 8);
        UnZigZagIs(u);
        ClampsSigned(f.dataSize, NumberOn(f, w));
        ModulusIsTwoHalves(f.dataSize);
      case Fixed32 | Fixed64 => FixedReads(f, w, rest);
      case _ => BufferExactly(f, w, prior, rest);
    }
  }

  lemma {:induction false} BufferExactly(f: Field, w: Wire, prior: Value, rest: bytes)
    requires WellFormedField(f) && Kind(f.l, w) && w.Ok() && (f.l.Bytes? || f.l.String? || f.l.FixedLengthBytes?)
    ensures var r := DecodeValue(f, w.Raw() + rest, prior);
      && (r.Done? <==> InRange(f, w))
      && (r.Done? ==> r.rest == rest && Means(f, w, r.value))
  {
    DelimitedReads(w, rest);
  }

  /** And a buffer keeps what it held behind the bytes and the terminator written to it. */
  lemma {:induction false} BufferKeeps(f: Field, w: Wire, prior: Value, rest: bytes)
    requires WellFormedField(f) && Kind(f.l, w) && w.Ok() && (f.l.Bytes? || f.l.String?) && InRange(f, w)
    requires if f.l.Bytes? then prior.Blob? && |prior.buf| == f.dataSize - 1
      else prior.Text? && |prior.buf| == f.dataSize
    ensures var r := DecodeValue(f, w.Raw() + rest, prior);
      var n := if f.l.Bytes? then |w.body| else |w.body| + 1;
      r.Done? && |r.value.buf| == |prior.buf| && r.value.buf[n..] == prior.buf[n..]
  {
    DelimitedReads(w, rest);
  }

  // ---- One field ---------------------------------------------------------

  /** Types whose arrays may be packed. */
  predicate Scalar(l: LType) {
    l !in {Bytes, String, Submessage, FixedLengthBytes}
  }

  /** Values of the member's own layout, packed only into an array of scalars. */
  predicate Suits(f: Field, c: Content) {
    c.Ok() && match c
      case One(w) => Kind(f.l, w)
      case Packed(_, ws) => f.h.Repeated? && Scalar(f.l) && forall i :: 0 <= i < |ws| ==> Kind(f.l, ws[i])
  }

  /** All of them fit. */
  predicate AllInRange(f: Field, ws: seq<Wire>)
    requires Scalar(f.l) && forall i :: 0 <= i < |ws| ==> ws[i].Ok() && Kind(f.l, ws[i])
  {
    forall i :: 0 <= i < |ws| ==> InRange(f, ws[i])
  }

  /** after is before with the given values at position at and behind, and nothing else changed. */
  predicate StoredAt(f: Field, ws: seq<Wire>, at: nat, before: seq<Value>, after: seq<Value>)
    requires Scalar(f.l) && forall i :: 0 <= i < |ws| ==> ws[i].Ok() && Kind(f.l, ws[i])
  {
    && |after| == |before| && (ws != [] ==> at + |ws| <= |after|)
    && (forall i :: 0 <= i < |ws| ==> Means(f, ws[i], after[at + i]))
    && forall j :: 0 <= j < |after| && !(at <= j < at + |ws|) ==> after[j] == before[j]
  }

  lemma StoredAtCons(f: Field, ws: seq<Wire>, at: nat, before: seq<Value>, v: Value, after: seq<Value>)
    requires Scalar(f.l) && ws != [] && at < |before|
    requires forall i :: 0 <= i < |ws| ==> ws[i].Ok() && Kind(f.l, ws[i])
    requires Means(f, ws[0], v) && StoredAt(f, ws[1..], at + 1, before[at := v], after)
    ensures StoredAt(f, ws, at, before, after)
  {
    hide Means;
    forall i | 0 <= i < |ws| ensures Means(f, ws[i], after[at + i]) {
      if i > 0 { assert ws[i] == ws[1..][i - 1] && Means(f, ws[1..][i - 1], after[at + 1 + (i - 1)]); }
    }
  }

  lemma RangeCons(f: Field, ws: seq<Wire>)
    requires Scalar(f.l) && ws != [] && forall i :: 0 <= i < |ws| ==> ws[i].Ok() && Kind(f.l, ws[i])
    ensures AllInRange(f, ws) <==> InRange(f, ws[0]) && AllInRange(f, ws[1..])
  {
    hide InRange;
    if InRange(f, ws[0]) && AllInRange(f, ws[1..]) {
      forall i | 0 <= i < |ws| ensures InRange(f, ws[i]) {
        if i > 0 { assert ws[i] == ws[1..][i - 1]; }
      }
    }
  }

  /** The packed loop: every value in its place, in order, exactly when all fit the member
      and the array. */
  lemma {:induction false} PackedExactly(f: Field, ws: seq<Wire>, items: seq<Value>, count: nat)
    requires WellFormedField(f) && Scalar(f.l) && |items| == f.arraySize
    requires forall i :: 0 <= i < |ws| ==> ws[i].Ok() && Kind(f.l, ws[i])
    ensures var r := DecodePacked(f, RawAll(ws), items, count);
      && (r.Some? <==> (ws == [] || count + |ws| <= f.arraySize) && AllInRange(f, ws))
      && (r.Some? ==> r.value.Array? && r.value.count == count + |ws| && StoredAt(f, ws, count, items, r.value.items))
    decreases |ws|
  {
    hide DecodeValue, Means, InRange;
    if ws != [] {
      assert ws[0].Raw() != [];
      RangeCons(f, ws);
      if count < f.arraySize {
        ValueExactly(f, ws[0], items[count], RawAll(ws[1..]));
        var r := DecodeValue(f, RawAll(ws), items[count]);
        if r.Done? {
          var more := items[count := r.value];
          PackedExactly(f, ws[1..], more, count + 1);
          var next := DecodePacked(f, RawAll(ws[1..]), more, count + 1);
          if next.Some? { StoredAtCons(f, ws, count, items, r.value, next.value.items); }
        }
      }
    }
  }

  /** What the bytes of a submessage make of a value: an array entry and a union member start
      from defaults, any other member goes on from what it holds. */
  function Inner(f: Field, body: bytes, prior: Value): Parsed<Message>
    requires f.l.Submessage? && f.ptr.SubFields?
  {
    match f.h
    case Required | Optional => if prior.Sub? then DecodeNoinit(f.ptr.fields, body, prior.m) else Fail
    case Repeated => DecodeMessage(f.ptr.fields, body, if prior.Sub? then prior.m else [])
    case Oneof => DecodeMessage(f.ptr.fields, body, ZeroFrom(f.ptr.fields, 0))
  }

  predicate Fits(f: Field, w: Wire, prior: Value)
    requires WellFormedField(f) && Kind(f.l, w) && w.Ok()
  {
    if f.l.Submessage? then Inner(f, w.body, prior).Done? else InRange(f, w)
  }

  predicate Holds(f: Field, w: Wire, prior: Value, v: Value)
    requires WellFormedField(f) && Kind(f.l, w) && w.Ok()
  {
    if f.l.Submessage?
    then v.Sub? && Inner(f, w.body, prior).Done? && Inner(f, w.body, prior).value == v.m
    else Means(f, w, v)
  }

  lemma {:induction false} EntryExactly(f: Field, w: Wire, prior: Value, rest: bytes)
    requires WellFormedField(f) && Kind(f.l, w) && w.Ok()
    ensures var r := DecodeValue(f, w.Raw() + rest,
                                 if f.h.Oneof? && f.l.Submessage? then DefaultValue(f, ZeroValue(f)) else prior);
      && (r.Done? <==> Fits(f, w, prior))
      && (r.Done? ==> r.rest == rest && Holds(f, w, prior, r.value))
  {
    if f.l.Submessage? {
      DelimitedReads(w, rest);
    } else {
      ValueExactly(f, w, prior, rest);
    }
  }

  /** Whether the slot has room for what the wire brings. */
  predicate Takes(f: Field, c: Content, slot: Slot)
    requires WellFormedField(f) && Suits(f, c)
  {
    match f.h
    case Required | Optional => slot.Single? && Fits(f, c.w, slot.v)
    case Oneof => slot.Union? && Fits(f, c.w, slot.v)
    case Repeated =>
      && slot.Array? && |slot.items| == f.arraySize
      && match c
         case One(w) => slot.count < f.arraySize && Fits(f, w, slot.items[slot.count])
         case Packed(_, ws) => (ws == [] || slot.count + |ws| <= f.arraySize) && AllInRange(f, ws)
  }

  /** got is slot with what the wire brings: the value, and has_ if the struct has it; the
      next entry or entries of an array, and the count; the tag and the value of a union. */
  predicate Puts(f: Field, c: Content, slot: Slot, got: Slot)
    requires WellFormedField(f) && Suits(f, c)
  {
    match f.h
    case Required | Optional =>
      && slot.Single? && got.Single? && Holds(f, c.w, slot.v, got.v)
      && got.has == (slot.has || (f.h.Optional? && f.sizeOffset != 0))
    case Oneof => slot.Union? && got.Union? && got.which == f.tag && Holds(f, c.w, slot.v, got.v)
    case Repeated =>
      && slot.Array? && got.Array? && got.count == slot.count + |c.Values()|
      && match c
         case One(w) =>
           && slot.count < |slot.items| == |got.items| && Holds(f, w, slot.items[slot.count], got.items[slot.count])
           && forall j :: 0 <= j < |got.items| && j != slot.count ==> got.items[j] == slot.items[j]
         case Packed(_, ws) => StoredAt(f, ws, slot.count, slot.items, got.items)
  }

  predicate SizedFor(f: Field, slot: Slot) {
    f.h.Repeated? && slot.Array? ==> |slot.items| == f.arraySize
  }

  lemma {:induction false} OneExactly(f: Field, w: Wire, rest: bytes, slot: Slot)
    requires WellFormedField(f) && Suits(f, One(w)) && SizedFor(f, slot)
    ensures var r := DecodeStatic(f, w.Code(), w.Raw() + rest, slot);
      && (r.Done? <==> Takes(f, One(w), slot))
      && (r.Done? ==> r.rest == rest && Puts(f, One(w), slot, r.value))
  {
    hide DecodeValue, Fits, Holds, Payload, DecodePacked, DefaultValue, ZeroValue;
    if slot.Single? || slot.Union? {
      EntryExactly(f, w, slot.v, rest);
    } else if slot.Array? && slot.count < |slot.items| {
      EntryExactly(f, w, slot.items[slot.count], rest);
    }
  }

  lemma {:induction false} ManyExactly(f: Field, len: bytes, ws: seq<Wire>, rest: bytes, slot: Slot)
    requires WellFormedField(f) && Suits(f, Packed(len, ws)) && SizedFor(f, slot)
    ensures var c := Packed(len, ws);
      var r := DecodeStatic(f, c.Code(), c.Raw() + rest, slot);
      && (r.Done? <==> Takes(f, c, slot))
      && (r.Done? ==> r.rest == rest && Puts(f, c, slot, r.value))
  {
    hide DecodeValue, StoredAt, AllInRange, Payload, DecodePacked, DefaultValue, ZeroValue;
    DelimitedReads(L(len, RawAll(ws)), rest);
    if slot.Array? { PackedExactly(f, ws, slot.items, slot.count); }
  }

  /** decode_static_field on content of the member's own layout. */
  lemma {:induction false} StaticExactly(f: Field, c: Content, rest: bytes, slot: Slot)
    requires WellFormedField(f) && Suits(f, c) && SizedFor(f, slot)
    ensures var r := DecodeStatic(f, c.Code(), c.Raw() + rest, slot);
      && (r.Done? <==> Takes(f, c, slot))
      && (r.Done? ==> r.rest == rest && Puts(f, c, slot, r.value))
  {
    hide DecodeStatic, Takes, Puts;
    match c {
      case One(w) => OneExactly(f, w, rest, slot);
      case Packed(len, ws) => ManyExactly(f, len, ws, rest, slot);
    }
  }

  // ---- One record --------------------------------------------------------

  /** A field whose content has the layout of its table entry, or one without an entry. */
  predicate Typed(fields: seq<Field>, r: Rec) {
    && r.Ok() && (r.tag != 0 || (fields != [] && r.what.Code() != 0))
    && forall k :: 0 <= k < |fields| && fields[k].tag == r.tag ==> Suits(fields[k], r.what)
  }

  /** Arrays have the size the table gives them. */
  predicate Sized(fields: seq<Field>, m: Message) {
    |m| == |fields| && forall k :: 0 <= k < |fields| ==> SizedFor(fields[k], m[SlotIndex(fields, k)])
  }

  /** Entries of the fixed-count array k that the present run has brought. */
  function Counter(k: nat, st: LoopState): nat {
    if st.fixed == Some(k) then st.fixedSize else 0
  }

  /** The slot of entry k as the field finds it. */
  function SlotFor(fields: seq<Field>, k: nat, st: LoopState): Slot
    requires k < |fields| && SlotIndex(fields, k) < |st.msg|
  {
    var slot := st.msg[SlotIndex(fields, k)];
    if FixedCount(fields[k]) && slot.Array? then slot.(count := Counter(k, st)) else slot
  }

  /** The field goes to its slot and nowhere else; the count of a fixed-count array is kept
      in the loop; a required field is marked. */
  predicate Took(fields: seq<Field>, k: nat, c: Content, st: LoopState, st': LoopState)
    requires WellFormed(fields) && k < |fields| && Suits(fields[k], c)
  {
    var f, s := fields[k], SlotIndex(fields, k);
    && StateOk(fields, st') && s < |st.msg| == |st'.msg| && st'.msg == st.msg[s := st'.msg[s]] && st'.pos == k
    && st'.seen == st.seen + (if Tracked(fields, k) then {RequiredIndex(fields, k)} else {})
    && (if FixedCount(f) then
          && st.msg[s].Array? && st'.msg[s].Array? && st'.msg[s].count == st.msg[s].count && st'.fixed == Some(k)
          && Puts(f, c, SlotFor(fields, k, st), st'.msg[s].(count := st'.fixedSize))
        else
          st'.fixed == st.fixed && st'.fixedSize == st.fixedSize && Puts(f, c, st.msg[s], st'.msg[s]))
  }

  /** No run of another fixed-count array is left incomplete. */
  predicate MayBegin(fields: seq<Field>, k: nat, st: LoopState)
    requires k < |fields| && StateOk(fields, st)
  {
    FixedCount(fields[k]) && st.fixed != Some(k) ==> FixedDone(fields, st)
  }

  lemma {:induction false} FoundExactly(fields: seq<Field>, k: nat, c: Content, rest: bytes, st: LoopState)
    requires WellFormed(fields) && k < |fields| && Suits(fields[k], c) && StateOk(fields, st) && Sized(fields, st.msg)
    ensures var r := FoundField(fields, k, c.Code(), c.Raw() + rest, st);
      && (r.Next? <==> MayBegin(fields, k, st) && Takes(fields[k], c, SlotFor(fields, k, st)))
      && (r.Next? ==> r.rest == rest && Took(fields, k, c, st, r.st))
  {
    hide DecodeStatic, Puts, Takes;
    assert WellFormedField(fields[k]);
    assert SizedFor(fields[k], st.msg[SlotIndex(fields, k)]);
    StaticExactly(fields[k], c, rest, SlotFor(fields, k, st));
    FoundStores(fields, k, c.Code(), c.Raw() + rest, st);
  }

  lemma {:induction false} FoundStores(fields: seq<Field>, k: nat, wt: nat, bs: bytes, st: LoopState)
    requires k < |fields| && StateOk(fields, st) && SlotIndex(fields, k) < |st.msg|
    ensures var d, r := DecodeStatic(fields[k], wt, bs, SlotFor(fields, k, st)), FoundField(fields, k, wt, bs, st);
      && (r.Next? <==> MayBegin(fields, k, st) && d.Done?)
      && (r.Next? ==>
            && r.rest == d.rest && StateOk(fields, r.st) && r.st.pos == k
            && r.st.seen == st.seen + (if Tracked(fields, k) then {RequiredIndex(fields, k)} else {})
            && r.st.msg == st.msg[SlotIndex(fields, k) := r.st.msg[SlotIndex(fields, k)]])
      && (r.Next? && FixedCount(fields[k]) ==>
            var slot, got := st.msg[SlotIndex(fields, k)], r.st.msg[SlotIndex(fields, k)];
            && slot.Array? && got.Array? && got.count == slot.count && r.st.fixed == Some(k)
            && got.(count := r.st.fixedSize) == d.value)
      && (r.Next? && !FixedCount(fields[k]) ==>
            r.st.fixed == st.fixed && r.st.fixedSize == st.fixedSize && r.st.msg[SlotIndex(fields, k)] == d.value)
  {
    hide DecodeValue, DecodePacked, Payload;
  }
}
