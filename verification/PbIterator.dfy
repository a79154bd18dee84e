/** pb_common.c: the cyclic field iterator, which keeps a table position and the
    addresses of that member's data and of its has/count/which member. */
module PbIterator {
  import opened PbTypes
  import opened PbDecodeSpec

  /** Bytes the iterator steps over when it leaves an entry. */
  function Extent(f: Field): nat {
    if f.h.Repeated? then f.dataSize * f.arraySize else f.dataSize
  }

  /** Address of the data of entry k in the struct at dest. */
  function DataAt(fields: seq<Field>, dest: int, k: nat): int
    requires k < |fields|
  {
    if k == 0 then dest + fields[0].dataOffset
    else if InUnion(fields, k) then DataAt(fields, dest, k - 1)
    else DataAt(fields, dest, k - 1) + Extent(fields[k - 1]) + fields[k].dataOffset
  }

  /** Address of the has, count or which member of entry k. */
  function SizeAt(fields: seq<Field>, dest: int, k: nat): int
    requires k < |fields|
  {
    var s := SlotIndex(fields, k);
    DataAt(fields, dest, s) + fields[s].sizeOffset
  }

  /** The position d steps after start, going round a table of n entries. */
  function Cyclic(start: nat, d: nat, n: nat): nat
    requires start < n && d < n
  {
    if start + d < n then start + d else start + d - n
  }

  class FieldIter {
    const fields: seq<Field>
    const dest: int
    var pos: nat
    var pData: int
    var pSize: int
    var requiredFieldIndex: nat

    /** The position alone determines everything else. */
    ghost predicate Valid()
      reads this
    {
      if fields == [] then pos == 0 && pData == pSize == dest && requiredFieldIndex == 0
      else
        && pos < |fields|
        && pData == DataAt(fields, dest, pos)
        && pSize == SizeAt(fields, dest, pos)
        && requiredFieldIndex == RequiredIndex(fields, pos)
    }

    constructor (fields: seq<Field>, dest: int)
      ensures Valid() && pos == 0 && this.fields == fields && this.dest == dest
    {
      this.fields := fields;
      this.dest := dest;
      pos := 0;
      requiredFieldIndex := 0;
      pData := dest + if fields == [] then 0 else fields[0].dataOffset;
      pSize := dest + if fields == [] then 0 else fields[0].dataOffset + fields[0].sizeOffset;
    }

    /** pb_field_iter_begin */
    method Begin() returns (ok: bool)
      modifies this
      ensures Valid() && pos == 0
      ensures ok <==> fields != []
    {
      pos := 0;
      requiredFieldIndex := 0;
      pData := dest + if fields == [] then 0 else fields[0].dataOffset;
      pSize := pData + if fields == [] then 0 else fields[0].sizeOffset;
      ok := fields != [];
    }

    /** pb_field_iter_next: false when it wraps to the first entry. */
    method Next() returns (more: bool)
      requires Valid()
      modifies this
      ensures Valid()
      ensures more <==> old(pos) + 1 < |fields|
      ensures pos == if more then old(pos) + 1 else 0
    {
      if fields == [] { return false; }
      var prev := fields[pos];
      pos := pos + 1;
      if pos == |fields| {
        var _ := Begin();
        return false;
      }
      var prevSize: int := prev.dataSize;
      if prev.h.Oneof? && fields[pos].h.Oneof? && fields[pos].dataOffset == PB_SIZE_MAX {
        return true;  // pointers do not advance inside unions
      } else if prev.h.Repeated? {
        prevSize := prevSize * prev.arraySize;
      }
      if prev.h.Required? {
        requiredFieldIndex := requiredFieldIndex + 1;
      }
      pData := pData + prevSize + fields[pos].dataOffset;
      pSize := pData + fields[pos].sizeOffset;
      return true;
    }

    /** pb_field_iter_find: stops at the first match going round from the current
        position, or back at that position when there is none. The terminator of an
        empty table has tag 0. */
    method Find(tag: nat) returns (found: bool)
      requires Valid()
      modifies this
      ensures Valid()
      ensures fields == [] ==> (found <==> tag == 0)
      ensures fields != [] ==>
        match PbDecodeSpec.Find(fields, old(pos), tag)
        case Some(k) => found && pos == k
        case None => !found && pos == old(pos)
    {
      var start := pos;
      if (if fields == [] then 0 else fields[pos].tag) == tag { return true; }
      var _ := Next();
      ghost var left := |fields| - 1;
      while pos != start
        invariant Valid() && start == old(pos)
        invariant fields != [] ==> 0 <= left < |fields| && start == Wrap(pos + left, |fields|)
        invariant fields != [] ==>
          PbDecodeSpec.Find(fields, start, tag) == FindFrom(fields, pos, left, tag)
        decreases left
      {
        if fields[pos].tag == tag { return true; }
        var _ := Next();
        left := left - 1;
      }
      return false;
    }
  }

  function Wrap(k: nat, n: nat): nat {
    if k >= n then k - n else k
  }

  // ---- What a search finds -----------------------------------------------

  /** The d-th entry from start on is the first with the given tag. */
  predicate FirstMatch(fields: seq<Field>, start: nat, d: nat, tag: nat)
    requires start < |fields| && d < |fields|
  {
    && fields[Cyclic(start, d, |fields|)].tag == tag
    && forall e: nat :: e < d ==> fields[Cyclic(start, e, |fields|)].tag != tag
  }

  lemma {:induction false} FindFromMeans(fields: seq<Field>, start: nat, from: nat, tag: nat)
    requires start < |fields| && from <= |fields|
    requires forall e: nat :: e < from ==> fields[Cyclic(start, e, |fields|)].tag != tag
    ensures var here := if from == |fields| then start else Cyclic(start, from, |fields|);
      match FindFrom(fields, here, |fields| - from, tag)
      case None => forall e: nat :: e < |fields| ==> fields[Cyclic(start, e, |fields|)].tag != tag
      case Some(k) =>
        exists d: nat :: d < |fields| && k == Cyclic(start, d, |fields|) && FirstMatch(fields, start, d, tag)
    decreases |fields| - from
  {
    if from < |fields| {
      var here := Cyclic(start, from, |fields|);
      if fields[here].tag == tag {
        assert FirstMatch(fields, start, from, tag);
      } else {
        FindFromMeans(fields, start, from + 1, tag);
      }
    }
  }

  /** Whatever the starting position, a search ends at the first match going round,
      and finds nothing only when no entry has the tag. */
  lemma FindIsFirstCyclicMatch(fields: seq<Field>, start: nat, tag: nat)
    requires start < |fields|
    ensures match Find(fields, start, tag)
      case None => forall j :: 0 <= j < |fields| ==> fields[j].tag != tag
      case Some(k) =>
        exists d: nat :: d < |fields| && k == Cyclic(start, d, |fields|) && FirstMatch(fields, start, d, tag)
  {
    FindFromMeans(fields, start, 0, tag);
    if Find(fields, start, tag).None? {
      forall j | 0 <= j < |fields|
        ensures fields[j].tag != tag
      {
        var e := if start <= j then j - start else j + |fields| - start;
        assert Cyclic(start, e, |fields|) == j;
      }
    }
  }

  // ---- Addresses and slots -----------------------------------------------

  /** Bytes from the start of one member's data to the start of the next one's. */
  function StepTo(fields: seq<Field>, i: nat): nat
    requires 0 < i < |fields|
  {
    if InUnion(fields, i) then 0 else Extent(fields[i - 1]) + fields[i].dataOffset
  }

  lemma {:induction false} DataAdvances(fields: seq<Field>, dest: int, j: nat, k: nat)
    requires j <= k < |fields|
    ensures DataAt(fields, dest, j) <= DataAt(fields, dest, k)
    ensures DataAt(fields, dest, j) == DataAt(fields, dest, k) <==> forall i :: j < i <= k ==> StepTo(fields, i) == 0
    decreases k
  {
    if j < k {
      DataAdvances(fields, dest, j, k - 1);
      assert DataAt(fields, dest, k) == DataAt(fields, dest, k - 1) + StepTo(fields, k);
    }
  }

  lemma {:induction false} SlotsAdvance(fields: seq<Field>, j: nat, k: nat)
    requires j <= k < |fields|
    ensures SlotIndex(fields, j) <= SlotIndex(fields, k)
    ensures SlotIndex(fields, j) == SlotIndex(fields, k) <==> forall i :: j < i <= k ==> InUnion(fields, i)
    decreases k
  {
    if j < k { SlotsAdvance(fields, j, k - 1); }
  }

  /** Two entries have the same address exactly when only members of one union and members
      without size lie between them; so where every member has a size, a struct is one slot
      per union or plain member. */
  lemma {:induction false} SameAddressIffSameSlot(fields: seq<Field>, dest: int, j: nat, k: nat)
    requires j <= k < |fields|
    ensures DataAt(fields, dest, j) == DataAt(fields, dest, k) <==> forall i :: j < i <= k ==> StepTo(fields, i) == 0
    ensures SlotIndex(fields, j) == SlotIndex(fields, k) <==> forall i :: j < i <= k ==> InUnion(fields, i)
    ensures (forall i :: j <= i < k ==> Extent(fields[i]) > 0) ==>
      (DataAt(fields, dest, j) == DataAt(fields, dest, k) <==> SlotIndex(fields, j) == SlotIndex(fields, k))
  {
    DataAdvances(fields, dest, j, k);
    SlotsAdvance(fields, j, k);
    if forall i :: j <= i < k ==> Extent(fields[i]) > 0 {
      forall i | j < i <= k ensures StepTo(fields, i) == 0 <==> InUnion(fields, i) {
        assert Extent(fields[i - 1]) > 0;
      }
    }
  }

  // ---- The struct a table describes --------------------------------------

  /** Where a member of the struct lies, how long it is, and where its has, count or which
      member lies; the member itself if there is none. */
  datatype Member = Member(offset: nat, size: nat, flag: int)

  /** Entry k says where member k lies, counted from the end of the one before it, except that
      a later member of a union carries a mark. */
  predicate DescribesAt(fields: seq<Field>, ms: seq<Member>, k: nat)
    requires k < |fields| == |ms|
  {
    && ms[k].size == (if fields[k].h.Repeated? then fields[k].dataSize * fields[k].arraySize else fields[k].dataSize)
    && ms[k].flag == ms[k].offset + fields[k].sizeOffset
    && (if k == 0 then ms[k].offset == fields[k].dataOffset
        else if fields[k - 1].h.Oneof? && fields[k].h.Oneof? && fields[k].dataOffset == 255 then
          ms[k].offset == ms[k - 1].offset && ms[k].flag == ms[k - 1].flag
        else ms[k].offset == ms[k - 1].offset + ms[k - 1].size + fields[k].dataOffset)
  }

  /** The iterator visits the members of the struct that the table was made for. */
  lemma {:induction false} VisitsMembers(fields: seq<Field>, ms: seq<Member>, dest: int, k: nat)
    requires k < |fields| == |ms| && forall j :: 0 <= j <= k ==> DescribesAt(fields, ms, j)
    ensures DataAt(fields, dest, k) == dest + ms[k].offset && SizeAt(fields, dest, k) == dest + ms[k].flag
    decreases k
  {
    assert DescribesAt(fields, ms, k);
    if k > 0 {
      VisitsMembers(fields, ms, dest, k - 1);
      assert DescribesAt(fields, ms, k - 1);
    }
  }
}
