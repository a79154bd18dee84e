/** Well-formed descriptors, valid structs, freshly defaulted structs, and when
    two structs carry the same message. */
module PbValid {
  import opened PbVarint
  import opened PbTypes
  import opened PbEncodeSpec
  import opened PbDecodeSpec

  predicate HasLess(f: Field) {
    f.h.Optional? && f.sizeOffset == 0
  }

  function TagAt(fields: seq<Field>, k: nat): nat
    requires k < |fields|
  {
    fields[k].tag
  }

  predicate DistinctTags(fields: seq<Field>) {
    forall i: nat, j: nat {:trigger TagAt(fields, i), TagAt(fields, j)} :: i < j < |fields| ==>
      TagAt(fields, i) != TagAt(fields, j)
  }

  /** What the generator guarantees of a static table entry; and a submessage without
      has_ holds no fixed-count array. */
  predicate WellFormedField(f: Field)
    decreases f
  {
    && (f.h.Oneof? ==> f.sizeOffset != 0)
    && (match f.l
        case Varint | UVarint | SVarint => IntSize(f.dataSize)
        case Fixed32 => f.dataSize == 4
        case Fixed64 => f.dataSize == 8
        case Bytes | String => f.dataSize >= 1
        case Submessage =>
          && f.ptr.SubFields? && WellFormed(f.ptr.fields)
          && (HasLess(f) ==> forall g | g in f.ptr.fields :: !FixedCount(g))
        case FixedLengthBytes => true)
  }

  predicate WellFormed(fields: seq<Field>)
    decreases fields
  {
    DistinctTags(fields) && forall i :: 0 <= i < |fields| ==> WellFormedField(fields[i])
  }

  // ---- Valid structs -----------------------------------------------------

  predicate ValidValue(f: Field, v: Value)
    decreases f, 0
  {
    match f.l
    case Varint | SVarint => v.Int? && -(Modulus(f.dataSize) / 2) <= v.v < Modulus(f.dataSize) / 2
    case UVarint => v.Int? && 0 <= v.v < Modulus(f.dataSize)
    case Fixed32 => v.Int? && 0 <= v.v < TWO_32
    case Fixed64 => v.Int? && 0 <= v.v < TWO_64
    case Bytes => v.Blob? && |v.buf| == f.dataSize - 1 && v.size <= |v.buf|
    case String => v.Text? && |v.buf| == f.dataSize && StrLen(v.buf) < f.dataSize
    case Submessage => v.Sub? && f.ptr.SubFields? && ValidMessage(f.ptr.fields, v.m)
    case FixedLengthBytes => v.Inline? && |v.buf| == f.dataSize
  }

  /** Entries of an array slot that are part of the message. */
  function Entries(f: Field, slot: Slot): nat
    requires slot.Array?
  {
    if FixedCount(f) then f.arraySize else slot.count
  }

  predicate ValidSlot(f: Field, slot: Slot)
    decreases f, 1
  {
    match f.h
    case Required => slot.Single? && ValidValue(f, slot.v)
    case Optional => slot.Single? && ((f.sizeOffset == 0 || slot.has) ==> ValidValue(f, slot.v))
    case Repeated =>
      && slot.Array? && |slot.items| == f.arraySize && Entries(f, slot) <= f.arraySize
      && forall i :: 0 <= i < Entries(f, slot) ==> ValidValue(f, slot.items[i])
    case Oneof => slot.Union? && (slot.which == f.tag ==> ValidValue(f, slot.v))
  }

  /** Position k is the member that a union's which_ field selects. */
  predicate Selects(fields: seq<Field>, s: nat, which: nat, k: nat)
    requires k < |fields|
  {
    SlotIndex(fields, k) == s && fields[k].tag == which
  }

  /** One of the first n positions is selected. */
  predicate Selected(fields: seq<Field>, s: nat, which: nat, n: nat)
    requires n <= |fields|
  {
    n > 0 && (Selects(fields, s, which, n - 1) || Selected(fields, s, which, n - 1))
  }

  lemma {:induction false} SelectedAt(fields: seq<Field>, s: nat, which: nat, n: nat) returns (k: nat)
    requires n <= |fields| && Selected(fields, s, which, n)
    ensures k < n && Selects(fields, s, which, k)
  {
    if Selects(fields, s, which, n - 1) { k := n - 1; } else { k := SelectedAt(fields, s, which, n - 1); }
  }

  predicate ValidMessage(fields: seq<Field>, m: Message)
    decreases fields, 2
  {
    && |m| == |fields|
    && (forall k :: 0 <= k < |fields| ==> ValidSlot(fields[k], m[SlotIndex(fields, k)]))
    && (forall k :: 0 <= k < |fields| && fields[k].h.Oneof? && m[SlotIndex(fields, k)].which != 0 ==>
          Selected(fields, SlotIndex(fields, k), m[SlotIndex(fields, k)].which, |fields|))
  }

  // ---- Same message ------------------------------------------------------

  /** Equal up to bytes behind a string's terminator, unused buffer and array
      entries, and the contents of absent members. */
  predicate SameValue(f: Field, a: Value, b: Value)
    decreases f, 0
  {
    match f.l
    case Bytes =>
      && a.Blob? && b.Blob? && a.size == b.size && a.size <= |a.buf| && b.size <= |b.buf|
      && |a.buf| == |b.buf| && a.buf[..a.size] == b.buf[..b.size]
    case String =>
      && a.Text? && b.Text? && |a.buf| == |b.buf|
      && a.buf[..StrLen(a.buf)] == b.buf[..StrLen(b.buf)]
    case Submessage => a.Sub? && b.Sub? && f.ptr.SubFields? && SameMessage(f.ptr.fields, a.m, b.m)
    case _ => a == b
  }

  predicate SameSlot(f: Field, a: Slot, b: Slot)
    decreases f, 1
  {
    match f.h
    case Required => a.Single? && b.Single? && SameValue(f, a.v, b.v)
    case Optional =>
      && a.Single? && b.Single?
      && (if f.sizeOffset == 0 then SameValue(f, a.v, b.v)
          else a.has == b.has && (a.has ==> SameValue(f, a.v, b.v)))
    case Repeated =>
      && a.Array? && b.Array? && |a.items| == |b.items| == f.arraySize
      && Entries(f, a) == Entries(f, b) <= f.arraySize
      && forall i :: 0 <= i < Entries(f, a) ==> SameValue(f, a.items[i], b.items[i])
    case Oneof =>
      && a.Union? && b.Union? && a.which == b.which
      && (a.which == f.tag ==> SameValue(f, a.v, b.v))
  }

  predicate SameMessage(fields: seq<Field>, a: Message, b: Message)
    decreases fields, 2
  {
    && |a| == |b| == |fields|
    && forall k :: 0 <= k < |fields| ==>
         SameSlot(fields[k], a[SlotIndex(fields, k)], b[SlotIndex(fields, k)])
  }

  // ---- What decoding an encoded struct gives -----------------------------

  /** A member without has_ that the encoder leaves out; submessages are looked into. */
  predicate LeftOut(f: Field, v: Value) {
    HasLess(f) && !f.l.Submessage? && IsZero(f, v)
  }

  /** got is what decoding makes of an encoded v: the same, except that members the
      encoder leaves out hold their default. */
  predicate CarriedValue(f: Field, got: Value, v: Value)
    decreases f, 0
  {
    if f.l.Submessage? then got.Sub? && v.Sub? && f.ptr.SubFields? && CarriedMessage(f.ptr.fields, got.m, v.m)
    else SameValue(f, got, v)
  }

  predicate CarriedSlot(f: Field, got: Slot, slot: Slot)
    decreases f, 1
  {
    match f.h
    case Required => got.Single? && slot.Single? && CarriedValue(f, got.v, slot.v)
    case Optional =>
      && got.Single? && slot.Single?
      && (if f.sizeOffset != 0 then got.has == slot.has && (slot.has ==> CarriedValue(f, got.v, slot.v))
          else if LeftOut(f, slot.v) then got.v == DefaultValue(f, ZeroValue(f))
          else CarriedValue(f, got.v, slot.v))
    case Repeated =>
      && got.Array? && slot.Array? && |got.items| == |slot.items| == f.arraySize
      && Entries(f, got) == Entries(f, slot) <= f.arraySize
      && forall i :: 0 <= i < Entries(f, slot) ==> CarriedValue(f, got.items[i], slot.items[i])
    case Oneof =>
      && got.Union? && slot.Union? && got.which == slot.which
      && (slot.which == f.tag ==> CarriedValue(f, got.v, slot.v))
  }

  predicate CarriedMessage(fields: seq<Field>, got: Message, m: Message)
    decreases fields, 2
  {
    && |got| == |m| == |fields|
    && forall k :: 0 <= k < |fields| ==>
         CarriedSlot(fields[k], got[SlotIndex(fields, k)], m[SlotIndex(fields, k)])
  }

  /** No explicit default takes the place of a member that the encoder leaves out. */
  predicate SurvivesValue(f: Field, v: Value)
    decreases f, 0
  {
    f.l.Submessage? ==> v.Sub? && f.ptr.SubFields? && Survives(f.ptr.fields, v.m)
  }

  predicate SurvivesSlot(f: Field, slot: Slot)
    decreases f, 1
  {
    match f.h
    case Required => slot.Single? && SurvivesValue(f, slot.v)
    case Optional =>
      && slot.Single?
      && (if f.sizeOffset != 0 then slot.has ==> SurvivesValue(f, slot.v)
          else if LeftOut(f, slot.v) then SameValue(f, DefaultValue(f, ZeroValue(f)), slot.v)
          else SurvivesValue(f, slot.v))
    case Repeated =>
      slot.Array? && forall i :: 0 <= i < Entries(f, slot) && i < |slot.items| ==> SurvivesValue(f, slot.items[i])
    case Oneof => slot.Union? && (slot.which == f.tag ==> SurvivesValue(f, slot.v))
  }

  predicate Survives(fields: seq<Field>, m: Message)
    decreases fields, 2
  {
    |m| == |fields| && forall k :: 0 <= k < |fields| ==> SurvivesSlot(fields[k], m[SlotIndex(fields, k)])
  }

  lemma {:induction false} SurvivesValueExactly(f: Field, got: Value, v: Value)
    requires CarriedValue(f, got, v)
    ensures SameValue(f, got, v) <==> SurvivesValue(f, v)
    decreases f, 0
  {
    if f.l.Submessage? { SurvivesExactly(f.ptr.fields, got.m, v.m); }
  }

  lemma {:induction false} SurvivesSlotExactly(f: Field, got: Slot, slot: Slot)
    requires CarriedSlot(f, got, slot)
    ensures SameSlot(f, got, slot) <==> SurvivesSlot(f, slot)
    decreases f, 1
  {
    match f.h {
      case Required => SurvivesValueExactly(f, got.v, slot.v);
      case Optional =>
        if (if f.sizeOffset != 0 then slot.has else !LeftOut(f, slot.v)) { SurvivesValueExactly(f, got.v, slot.v); }
      case Repeated =>
        forall i | 0 <= i < Entries(f, slot)
          ensures SameValue(f, got.items[i], slot.items[i]) <==> SurvivesValue(f, slot.items[i])
        {
          SurvivesValueExactly(f, got.items[i], slot.items[i]);
        }
      case Oneof => if slot.which == f.tag { SurvivesValueExactly(f, got.v, slot.v); }
    }
  }

  /** What was decoded is the message that was encoded exactly when no default got in its way. */
  lemma {:induction false} SurvivesExactly(fields: seq<Field>, got: Message, m: Message)
    requires CarriedMessage(fields, got, m)
    ensures SameMessage(fields, got, m) <==> Survives(fields, m)
    decreases fields, 2
  {
    forall k | 0 <= k < |fields|
      ensures SameSlot(fields[k], got[SlotIndex(fields, k)], m[SlotIndex(fields, k)])
        <==> SurvivesSlot(fields[k], m[SlotIndex(fields, k)])
    {
      SurvivesSlotExactly(fields[k], got[SlotIndex(fields, k)], m[SlotIndex(fields, k)]);
    }
  }

  // ---- Freshly defaulted structs -----------------------------------------

  predicate FreshValue(f: Field, v: Value)
    decreases f, 0
  {
    if f.l.Submessage? then v.Sub? && f.ptr.SubFields? && FreshMessage(f.ptr.fields, v.m)
    else HasLess(f) ==> v == DefaultValue(f, ZeroValue(f))
  }

  predicate FreshSlot(f: Field, slot: Slot)
    decreases f, 1
  {
    match f.h
    case Required => slot.Single? && FreshValue(f, slot.v)
    case Optional => slot.Single? && (f.sizeOffset != 0 ==> !slot.has) && FreshValue(f, slot.v)
    case Repeated => slot.Array? && slot.count == 0 && |slot.items| == f.arraySize
    case Oneof => slot.Union? && slot.which == 0
  }

  predicate FreshMessage(fields: seq<Field>, m: Message)
    decreases fields, 2
  {
    && |m| == |fields|
    && forall k :: 0 <= k < |fields| ==> FreshSlot(fields[k], m[SlotIndex(fields, k)])
  }

  lemma {:induction false} DefaultsAt(fields: seq<Field>, prior: Message, from: nat, k: nat)
    requires from <= k < |fields|
    ensures DefaultsFrom(fields, prior, from)[k - from]
         == if InUnion(fields, k) then Shared else DefaultSlot(fields[k], SlotAt(prior, k))
    decreases k - from
  {
    if from < k {
      DefaultsAt(fields, prior, from + 1, k);
      assert DefaultsFrom(fields, prior, from)[1..] == DefaultsFrom(fields, prior, from + 1);
    }
  }

  /** An entry is stored in the slot of the entry its union begins with: exactly the entries
      after that one, up to it, carry the offset that marks the later members of a union. */
  lemma {:induction false} SlotIsLeader(fields: seq<Field>, k: nat)
    requires k < |fields|
    ensures !InUnion(fields, SlotIndex(fields, k))
    ensures SlotIndex(fields, SlotIndex(fields, k)) == SlotIndex(fields, k)
    ensures forall j :: SlotIndex(fields, k) < j <= k ==> InUnion(fields, j)
    ensures forall j :: SlotIndex(fields, k) < j <= k ==> fields[j].h.Oneof? && fields[j].dataOffset == 255
    ensures var s := SlotIndex(fields, k);
      s > 0 && fields[s - 1].h.Oneof? && fields[s].h.Oneof? ==> fields[s].dataOffset != 255
    decreases k
  {
    if InUnion(fields, k) { SlotIsLeader(fields, k - 1); }
  }

  /** pb_message_set_to_defaults produces a fresh struct whatever memory it starts from. */
  lemma {:induction false} SetDefaultsFresh(fields: seq<Field>, prior: Message)
    requires WellFormed(fields)
    ensures FreshMessage(fields, SetDefaults(fields, prior))
    decreases fields, 1
  {
    var m := SetDefaults(fields, prior);
    forall k | 0 <= k < |fields|
      ensures FreshSlot(fields[k], m[SlotIndex(fields, k)])
    {
      var s := SlotIndex(fields, k);
      SlotIsLeader(fields, k);
      DefaultsAt(fields, prior, 0, s);
      if s == k {
        assert WellFormedField(fields[k]);
        DefaultSlotFresh(fields[k], SlotAt(prior, k));
      }
    }
  }

  lemma {:induction false} DefaultSlotFresh(f: Field, prior: Slot)
    requires WellFormedField(f)
    ensures FreshSlot(f, DefaultSlot(f, prior))
    decreases f, 1
  {
    match f.h
    case Required | Optional => DefaultValueFresh(f, if prior.Single? then prior.v else ZeroValue(f));
    case Repeated => assert ZeroSlot(f).Array?;
    case Oneof =>
  }

  lemma {:induction false} DefaultValueFresh(f: Field, prior: Value)
    requires WellFormedField(f)
    ensures FreshValue(f, DefaultValue(f, prior))
    decreases f, 0
  {
    if f.l.Submessage? {
      SetDefaultsFresh(f.ptr.fields, if prior.Sub? then prior.m else []);
    }
  }

  /** What a fresh struct holds is what decoding gives for a member the encoder omits. */
  lemma {:induction false} OmittedValue(f: Field, blank: Value, v: Value)
    requires WellFormedField(f) && HasLess(f) && f.l.Submessage?
    requires ValidValue(f, v) && FreshValue(f, blank) && IsZero(f, v)
    ensures CarriedValue(f, blank, v)
    decreases f, 0
  {
    AllDefaultAt(f.ptr.fields, v.m, 0);
    forall k | 0 <= k < |f.ptr.fields|
      ensures CarriedSlot(f.ptr.fields[k], blank.m[SlotIndex(f.ptr.fields, k)], v.m[SlotIndex(f.ptr.fields, k)])
    {
      var g, s := f.ptr.fields[k], SlotIndex(f.ptr.fields, k);
      assert g in f.ptr.fields && WellFormedField(g);
      OmittedSlot(g, blank.m[s], v.m[s]);
    }
  }

  lemma {:induction false} OmittedSlot(f: Field, blank: Slot, slot: Slot)
    requires WellFormedField(f) && !FixedCount(f)
    requires ValidSlot(f, slot) && FreshSlot(f, blank) && IsDefault(f, slot)
    ensures CarriedSlot(f, blank, slot)
    decreases f, 1
  {
    if HasLess(f) && f.l.Submessage? { OmittedValue(f, blank.v, slot.v); }
  }

  lemma {:induction false} AllDefaultAt(fields: seq<Field>, m: Message, from: nat)
    requires from <= |fields| && AllDefault(fields, m, from)
    ensures forall k :: from <= k < |fields| ==> IsDefault(fields[k], SlotAt(m, SlotIndex(fields, k)))
    decreases |fields| - from
  {
    if from < |fields| { AllDefaultAt(fields, m, from + 1); }
  }
}
