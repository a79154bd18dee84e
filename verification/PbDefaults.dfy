/** Explicit defaults: the encoder never reads them, and a descriptor without them
    loses nothing. */
module PbDefaults {
  import opened PbTypes
  import opened PbEncodeSpec
  import opened PbDecodeSpec
  import opened PbValid

  /** The table entry without its explicit default. */
  function NoDefault(f: Field): Field
    decreases f
  {
    f.(ptr := match f.ptr case SubFields(fields) => SubFields(NoDefaults(fields)) case _ => Null)
  }

  function NoDefaults(fields: seq<Field>): (r: seq<Field>)
    ensures |r| == |fields|
    decreases fields
  {
    if fields == [] then [] else [NoDefault(fields[0])] + NoDefaults(fields[1..])
  }

  lemma {:induction false} NoDefaultsAt(fields: seq<Field>, k: nat)
    requires k < |fields|
    ensures NoDefaults(fields)[k] == NoDefault(fields[k])
    decreases k
  {
    if k > 0 { NoDefaultsAt(fields[1..], k - 1); }
  }

  lemma {:induction false} SameSlots(fields: seq<Field>, k: nat)
    requires k < |fields|
    ensures SlotIndex(NoDefaults(fields), k) == SlotIndex(fields, k)
    decreases k
  {
    NoDefaultsAt(fields, k);
    if k > 0 {
      NoDefaultsAt(fields, k - 1);
      SameSlots(fields, k - 1);
    }
  }

  // ---- The encoder -------------------------------------------------------

  lemma {:induction false} SameZero(f: Field, v: Value)
    ensures IsZero(NoDefault(f), v) == IsZero(f, v)
    decreases f, 0
  {
    if f.l.Submessage? && f.ptr.SubFields? && v.Sub? { SameAllDefault(f.ptr.fields, v.m, 0); }
  }

  lemma {:induction false} SameDefault(f: Field, slot: Slot)
    ensures IsDefault(NoDefault(f), slot) == IsDefault(f, slot)
    decreases f, 1
  {
    if slot.Single? { SameZero(f, slot.v); }
  }

  lemma {:induction false} SameAllDefault(fields: seq<Field>, m: Message, k: nat)
    requires k <= |fields|
    ensures AllDefault(NoDefaults(fields), m, k) == AllDefault(fields, m, k)
    decreases fields, |fields| - k
  {
    if k < |fields| {
      NoDefaultsAt(fields, k);
      SameSlots(fields, k);
      SameDefault(fields[k], SlotAt(m, SlotIndex(fields, k)));
      SameAllDefault(fields, m, k + 1);
    }
  }

  lemma {:induction false} SameEncoding(f: Field, v: Value)
    ensures EncodeValue(NoDefault(f), v) == EncodeValue(f, v)
    ensures TaggedValue(NoDefault(f), v) == TaggedValue(f, v)
    decreases f, 0
  {
    if f.l.Submessage? && f.ptr.SubFields? && v.Sub? { SameEncodingFrom(f.ptr.fields, v.m, 0); }
  }

  lemma {:induction false} SameItemEncodings(f: Field, items: seq<Value>)
    ensures EncodeItems(NoDefault(f), items) == EncodeItems(f, items)
    ensures EncodeTagged(NoDefault(f), items) == EncodeTagged(f, items)
    decreases f, 1, |items|
  {
    if items != [] {
      SameEncoding(f, items[0]);
      SameItemEncodings(f, items[1..]);
    }
  }

  lemma {:induction false} SameFieldEncoding(f: Field, slot: Slot)
    ensures EncodeField(NoDefault(f), slot) == EncodeField(f, slot)
    decreases f, 2
  {
    SameDefault(f, slot);
    match slot
    case Single(_, v) => SameEncoding(f, v);
    case Union(_, v) => SameEncoding(f, v);
    case Array(count, items) =>
      var n := if f.sizeOffset != 0 then count else f.arraySize;
      if n <= |items| { SameItemEncodings(f, items[..n]); }
    case Shared =>
  }

  lemma {:induction false} SameEncodingFrom(fields: seq<Field>, m: Message, k: nat)
    requires k <= |fields|
    ensures EncodeFrom(NoDefaults(fields), m, k) == EncodeFrom(fields, m, k)
    decreases fields, |fields| - k
  {
    if k < |fields| {
      NoDefaultsAt(fields, k);
      SameSlots(fields, k);
      SameFieldEncoding(fields[k], SlotAt(m, SlotIndex(fields, k)));
      SameEncodingFrom(fields, m, k + 1);
    }
  }

  /** pb_encode writes the same bytes whatever defaults the table has. */
  lemma {:induction false} EncoderIgnoresDefaults(fields: seq<Field>, m: Message)
    ensures EncodeMessage(NoDefaults(fields), m) == EncodeMessage(fields, m)
  {
    SameEncodingFrom(fields, m, 0);
  }

  // ---- Descriptors and structs -------------------------------------------

  lemma {:induction false} StaysWellFormedField(f: Field)
    requires WellFormedField(f)
    ensures WellFormedField(NoDefault(f))
    decreases f
  {
    if f.l.Submessage? {
      StaysWellFormed(f.ptr.fields);
      forall g | HasLess(f) && g in NoDefaults(f.ptr.fields)
        ensures !FixedCount(g)
      {
        var k :| 0 <= k < |f.ptr.fields| && NoDefaults(f.ptr.fields)[k] == g;
        NoDefaultsAt(f.ptr.fields, k);
        assert f.ptr.fields[k] in f.ptr.fields;
      }
    }
  }

  lemma {:induction false} StaysWellFormed(fields: seq<Field>)
    requires WellFormed(fields)
    ensures WellFormed(NoDefaults(fields))
    decreases fields
  {
    forall k | 0 <= k < |fields|
      ensures TagAt(NoDefaults(fields), k) == TagAt(fields, k) && WellFormedField(NoDefaults(fields)[k])
    {
      NoDefaultsAt(fields, k);
      StaysWellFormedField(fields[k]);
    }
  }

  lemma {:induction false} StaysValidValue(f: Field, v: Value)
    requires ValidValue(f, v)
    ensures ValidValue(NoDefault(f), v)
    decreases f, 0
  {
    if f.l.Submessage? { StaysValid(f.ptr.fields, v.m); }
  }

  lemma {:induction false} StaysValidSlot(f: Field, slot: Slot)
    requires ValidSlot(f, slot)
    ensures ValidSlot(NoDefault(f), slot)
    decreases f, 1
  {
    match f.h {
      case Required => StaysValidValue(f, slot.v);
      case Optional => if f.sizeOffset == 0 || slot.has { StaysValidValue(f, slot.v); }
      case Repeated =>
        forall i | 0 <= i < Entries(f, slot) ensures ValidValue(NoDefault(f), slot.items[i]) {
          StaysValidValue(f, slot.items[i]);
        }
      case Oneof => if slot.which == f.tag { StaysValidValue(f, slot.v); }
    }
  }

  lemma {:induction false} StaysSelected(fields: seq<Field>, s: nat, which: nat, n: nat)
    requires n <= |fields|
    ensures Selected(NoDefaults(fields), s, which, n) <==> Selected(fields, s, which, n)
    decreases n
  {
    if n > 0 {
      StaysSelected(fields, s, which, n - 1);
      NoDefaultsAt(fields, n - 1);
      SameSlots(fields, n - 1);
    }
  }

  lemma {:induction false} StaysValid(fields: seq<Field>, m: Message)
    requires ValidMessage(fields, m)
    ensures ValidMessage(NoDefaults(fields), m)
    decreases fields, 2
  {
    var r := NoDefaults(fields);
    forall k | 0 <= k < |fields|
      ensures ValidSlot(r[k], m[SlotIndex(r, k)])
      ensures r[k].h == fields[k].h && SlotIndex(r, k) == SlotIndex(fields, k)
    {
      NoDefaultsAt(fields, k);
      SameSlots(fields, k);
      StaysValidSlot(fields[k], m[SlotIndex(fields, k)]);
    }
    forall k | 0 <= k < |fields| && r[k].h.Oneof? && m[SlotIndex(r, k)].which != 0
      ensures Selected(r, SlotIndex(r, k), m[SlotIndex(r, k)].which, |r|)
    {
      StaysSelected(fields, SlotIndex(fields, k), m[SlotIndex(fields, k)].which, |fields|);
    }
  }

  lemma {:induction false} SameMeaningValue(f: Field, a: Value, b: Value)
    requires SameValue(NoDefault(f), a, b)
    ensures SameValue(f, a, b)
    decreases f, 0
  {
    if f.l.Submessage? { SameMeaning(f.ptr.fields, a.m, b.m); }
  }

  lemma {:induction false} SameMeaningSlot(f: Field, a: Slot, b: Slot)
    requires SameSlot(NoDefault(f), a, b)
    ensures SameSlot(f, a, b)
    decreases f, 1
  {
    match f.h {
      case Required => SameMeaningValue(f, a.v, b.v);
      case Optional => if f.sizeOffset == 0 || a.has { SameMeaningValue(f, a.v, b.v); }
      case Repeated =>
        forall i | 0 <= i < Entries(f, a) ensures SameValue(f, a.items[i], b.items[i]) {
          SameMeaningValue(f, a.items[i], b.items[i]);
        }
      case Oneof => if a.which == f.tag { SameMeaningValue(f, a.v, b.v); }
    }
  }

  lemma {:induction false} SameMeaning(fields: seq<Field>, a: Message, b: Message)
    requires SameMessage(NoDefaults(fields), a, b)
    ensures SameMessage(fields, a, b)
    decreases fields, 2
  {
    var r := NoDefaults(fields);
    forall k | 0 <= k < |fields|
      ensures SameSlot(fields[k], a[SlotIndex(fields, k)], b[SlotIndex(fields, k)])
    {
      NoDefaultsAt(fields, k);
      SameSlots(fields, k);
      assert SameSlot(r[k], a[SlotIndex(r, k)], b[SlotIndex(r, k)]);
      SameMeaningSlot(fields[k], a[SlotIndex(fields, k)], b[SlotIndex(fields, k)]);
    }
  }

  // ---- Without defaults every message survives ---------------------------

  lemma {:induction false} ZeroSurvives(f: Field, v: Value)
    requires WellFormedField(f) && ValidValue(f, v) && LeftOut(f, v) && !f.ptr.Default?
    ensures SameValue(f, DefaultValue(f, ZeroValue(f)), v)
  {
    var zero := DefaultValue(f, ZeroValue(f));
    if f.l.String? {
      assert StrLen(zero.buf) == 0 && StrLen(v.buf) == 0;
    } else if f.l.FixedLengthBytes? {
      assert v.buf == [] && zero.buf == [];
    }
  }

  lemma {:induction false} PlainSurvivesValue(f: Field, v: Value)
    requires WellFormedField(f) && ValidValue(f, v)
    ensures SurvivesValue(NoDefault(f), v)
    decreases f, 0
  {
    if f.l.Submessage? { PlainSurvives(f.ptr.fields, v.m); }
  }

  lemma {:induction false} PlainSurvivesSlot(f: Field, slot: Slot)
    requires WellFormedField(f) && ValidSlot(f, slot)
    ensures SurvivesSlot(NoDefault(f), slot)
    decreases f, 1
  {
    match f.h {
      case Required => PlainSurvivesValue(f, slot.v);
      case Optional =>
        if LeftOut(NoDefault(f), slot.v) && f.sizeOffset == 0 {
          StaysWellFormedField(f);
          StaysValidValue(f, slot.v);
          ZeroSurvives(NoDefault(f), slot.v);
        } else if f.sizeOffset == 0 || slot.has {
          PlainSurvivesValue(f, slot.v);
        }
      case Repeated =>
        forall i | 0 <= i < Entries(f, slot) ensures SurvivesValue(NoDefault(f), slot.items[i]) {
          PlainSurvivesValue(f, slot.items[i]);
        }
      case Oneof => if slot.which == f.tag { PlainSurvivesValue(f, slot.v); }
    }
  }

  lemma {:induction false} PlainSurvives(fields: seq<Field>, m: Message)
    requires WellFormed(fields) && ValidMessage(fields, m)
    ensures Survives(NoDefaults(fields), m)
    decreases fields, 2
  {
    var r := NoDefaults(fields);
    forall k | 0 <= k < |r|
      ensures SurvivesSlot(r[k], m[SlotIndex(r, k)])
    {
      NoDefaultsAt(fields, k);
      SameSlots(fields, k);
      assert WellFormedField(fields[k]) && ValidSlot(fields[k], m[SlotIndex(fields, k)]);
      PlainSurvivesSlot(fields[k], m[SlotIndex(fields, k)]);
    }
  }
}
