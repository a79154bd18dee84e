/** d1_both.cc, receiving half: the ring of incoming messages updated in place,
    proved to do what DtlsWindow says. */
module DtlsReceiver {
  import opened Basics
  import opened DtlsCodec
  import opened DtlsFragment
  import opened DtlsReplay
  import opened DtlsWindow

  class Receiver {
    const incoming: array<HmFragment?>
    var readSeq: nat
    var epoch: nat
    var hasCcs: bool
    var hasMessage: bool
    ghost var Repr: set<object>

    /** Every message in the ring owns its buffers. */
    ghost predicate Owned()
      reads this, Repr
    {
      && this in Repr && incoming in Repr && incoming.Length == N
      && (forall k {:trigger incoming[k]} :: 0 <= k < N && incoming[k] != null ==>
           && incoming[k] in Repr && incoming[k].Repr() <= Repr && this !in incoming[k].Repr()
           && incoming !in incoming[k].Repr() && incoming[k].Valid())
      && (forall j, k {:trigger incoming[j], incoming[k]} ::
           0 <= j < k < N && incoming[j] != null && incoming[k] != null ==>
           incoming[j].Repr() !! incoming[k].Repr())
    }

    ghost function Slot(k: nat): Option<Incoming>
      requires Owned() && k < N
      reads this, Repr
    {
      if incoming[k] == null then None else Some(incoming[k].View())
    }

    ghost function View(): Rx
      requires Owned()
      reads this, Repr
    {
      Rx(seq(N, k requires 0 <= k < N && Owned() reads this, Repr => Slot(k)), readSeq, epoch, hasCcs, hasMessage)
    }

    ghost predicate Valid()
      reads this, Repr
    {
      Owned() && RxOk(View())
    }

    /** Changing only scalar fields leaves the ring as it was. */
    twostate lemma RingKept()
      requires old(Owned()) && Repr == old(Repr) && forall o :: o in Repr && o != this ==> unchanged(o)
      ensures Owned() && View().slots == old(View()).slots
    {
      forall k | 0 <= k < N ensures Slot(k) == old(Slot(k)) {
        if incoming[k] != null { assert incoming[k] in Repr && incoming[k].Repr() <= Repr; }
      }
    }

    constructor ()
      ensures Valid() && View() == InitialRx() && fresh(Repr)
    {
      var ring: array<HmFragment?> := new HmFragment?[N] (_ => null);
      incoming := ring;
      readSeq, epoch, hasCcs, hasMessage := 0, 0, false, false;
      Repr := {this, ring};
    }

    /** dtls1_is_current_message_complete */
    method CurrentIsComplete() returns (r: bool)
      requires Valid()
      ensures r <==> CurrentComplete(View())
    {
      var frag := incoming[readSeq % N];
      assert View().slots[readSeq % N] == Slot(readSeq % N);
      return frag != null && frag.reassembly == null;
    }

    /** A new message in an empty slot. */
    method Insert(k: nat, h: Header) returns (frag: HmFragment)
      requires Owned() && k < N && incoming[k] == null
      modifies `Repr, incoming
      ensures Owned() && fresh(Repr - old(Repr)) && frag == incoming[k]
      ensures View() == old(View()).(slots := old(View()).slots[k := Some(Fresh(h, epoch))])
    {
      ghost var before := View();
      frag := new HmFragment(h, epoch);
      incoming[k] := frag;
      Repr := Repr + frag.Repr();
      assert Owned();
      forall j | 0 <= j < N && j != k ensures Slot(j) == before.slots[j] {}
      assert View().slots == before.slots[k := Some(Fresh(h, epoch))];
    }

    /** dtls1_get_incoming_message: the message in the slot for h's number, made if the
        slot is empty; null when h does not fit the window or the message. */
    method GetIncoming(h: Header) returns (frag: HmFragment?)
      requires Valid() && h.Fits()
      modifies `Repr, incoming
      ensures Owned() && fresh(Repr - old(Repr))
      ensures frag == null <==> Refuses(old(View()), h)
      ensures frag == null ==> View() == old(View())
      ensures frag != null ==> frag == incoming[h.seqNum % N] && View() == WithSlot(old(View()), h)
    {
      if h.seqNum < readSeq || h.seqNum - readSeq >= N { return null; }
      var k := h.seqNum % N;
      frag := incoming[k];
      ghost var rx := View();
      assert rx.slots[k] == Slot(k);
      if frag != null {
        SlotNumber(rx, h.seqNum);
        assert frag.seqNum == h.seqNum;
        if frag.typ != h.typ || frag.msgLen != h.msgLen { return null; }
        assert rx.slots == rx.slots[k := rx.slots[k]];
        return;
      }
      frag := Insert(k, h);
    }

    /** Copies a fragment body into the message in slot k. */
    method StoreIn(k: nat, off: nat, body: bytes)
      requires Owned() && k < N && incoming[k] != null && off + |body| <= incoming[k].msgLen
      modifies incoming[k].Repr()
      ensures Owned() && Slot(k) == Some(Absorb(old(incoming[k].View()), off, body, epoch))
      ensures forall j {:trigger Slot(j)} :: 0 <= j < N && j != k ==> Slot(j) == old(Slot(j))
    {
      incoming[k].Store(off, body, epoch);
      OthersKept(k);
      OwnedAgain(k);
    }

    /** Storing into one message leaves the others alone: buffers are not shared. */
    twostate lemma OthersKept(k: nat)
      requires old(Owned()) && k < N && old(incoming[k]) != null && StoredOnly(k)
      ensures incoming[..] == old(incoming[..])
      ensures forall j {:trigger incoming[j]} :: 0 <= j < N && j != k && incoming[j] != null ==>
        incoming[j].Repr() == old(incoming[j].Repr()) && incoming[j].Valid() && Some(incoming[j].View()) == old(Slot(j))
    {
      forall j | 0 <= j < N && j != k && incoming[j] != null
        ensures incoming[j].Repr() == old(incoming[j].Repr()) && incoming[j].Valid()
        ensures Some(incoming[j].View()) == old(Slot(j))
      {
        assert old(incoming[j].Repr()) <= Repr && old(incoming[j].Repr()) !! old(incoming[k].Repr());
      }
    }

    /** Only what belonged to the message in slot k has changed. */
    twostate predicate StoredOnly(k: nat)
      requires old(Owned()) && k < N && old(incoming[k]) != null
      reads this, Repr
    {
      && Repr == old(Repr) && forall o :: o in Repr && o !in old(incoming[k].Repr()) ==> unchanged(o)
    }

    twostate lemma OwnedAgain(k: nat)
      requires old(Owned()) && k < N && old(incoming[k]) != null && Repr == old(Repr)
      requires incoming[..] == old(incoming[..]) && incoming[k].Valid() && incoming[k].Repr() <= old(incoming[k].Repr())
      requires forall j {:trigger incoming[j]} :: 0 <= j < N && j != k && incoming[j] != null ==>
        incoming[j].Repr() == old(incoming[j].Repr()) && incoming[j].Valid()
      ensures Owned()
    {
      forall j {:trigger incoming[j]} | 0 <= j < N && incoming[j] != null
        ensures incoming[j].Repr() <= old(incoming[j].Repr())
      {}
    }

    /** One round of the fragment loop in dtls1_open_handshake. */
    method TakeOne(f: Fragment, maxLen: nat) returns (ok: bool)
      requires Valid() && f.h.Fits() && |f.body| == f.h.fragLen
      modifies Repr
      ensures Valid() && fresh(Repr - old(Repr))
      ensures TakeFragment(old(View()), f, maxLen) == if ok then Fine(View()) else Bad(View())
    {
      ghost var rx := View();
      TakeFragmentOk(rx, f, maxLen);
      var h := f.h;
      if h.fragOff > h.msgLen || h.fragOff + h.fragLen > h.msgLen || h.msgLen > maxLen { return false; }
      if epoch == 1 && h.seqNum != readSeq { return false; }
      if h.seqNum < readSeq || h.seqNum > readSeq + N { return true; }
      var frag := GetIncoming(h);
      if frag == null { return false; }
      assert Slot(h.seqNum % N) == View().slots[h.seqNum % N];
      ghost var mid := View();
      StoreIn(h.seqNum % N, h.fragOff, f.body);
      assert forall j :: 0 <= j < N && j != h.seqNum % N ==> Slot(j) == mid.slots[j];
      assert View().slots == TakeFragment(rx, f, maxLen).rx.slots;
      return true;
    }

    /** The fragment loop of dtls1_open_handshake. */
    method OpenFragments(payload: bytes, maxLen: nat) returns (ok: bool)
      requires Valid()
      modifies Repr
      ensures Valid() && fresh(Repr - old(Repr))
      ensures TakeFragments(old(View()), payload, maxLen) == if ok then Fine(View()) else Bad(View())
    {
      var cbs := payload;
      while cbs != []
        invariant Valid() && fresh(Repr - old(Repr))
        invariant TakeFragments(old(View()), payload, maxLen) == TakeFragments(View(), cbs, maxLen)
        decreases |cbs|
      {
        var parsed := ParseFragment(cbs);
        if parsed.Fail? { return false; }
        ok := TakeOne(parsed.value, maxLen);
        if !ok { return; }
        cbs := parsed.rest;
      }
      return true;
    }

    /** dtls1_open_handshake on a record that dtls_open_record let through: ok covers
        success and discard. */
    method OpenHandshake(typ: byte, payload: bytes, nullCipher: bool, maxLen: nat) returns (ok: bool)
      requires Valid()
      modifies Repr
      ensures Valid() && fresh(Repr - old(Repr))
      ensures DtlsWindow.OpenHandshake(old(View()), typ, payload, nullCipher, maxLen)
        == if ok then Fine(View()) else Bad(View())
      ensures hasCcs <==> old(hasCcs) || (typ == 20 && payload == [1] && nullCipher)
      ensures ok <==>
        || (typ == 23 && !nullCipher) || (typ == 20 && payload == [1] && nullCipher)
        || (typ == 22 && TakeFragments(old(View()), payload, maxLen).Fine?)
    {
      OpenExactly(View(), typ, payload, nullCipher, maxLen);
      if typ == RT_APP_DATA { return !nullCipher; }
      if typ == RT_CCS {
        if !nullCipher || payload != [1] { return false; }
        hasCcs := true;
        RingKept();
        return true;
      }
      if typ != RT_HANDSHAKE { return false; }
      ok := OpenFragments(payload, maxLen);
    }

    /** dtls1_open_change_cipher_spec, given a record in case none was seen before: a
        ChangeCipherSpec is used up once; without one the record is discarded or refused. */
    method OpenChangeCipherSpec(typ: byte, payload: bytes, nullCipher: bool, maxLen: nat) returns (r: CcsResult)
      requires Valid()
      modifies Repr
      ensures Valid() && fresh(Repr - old(Repr))
      ensures (r, View()) == ChangeCipherSpec(old(View()), typ, payload, nullCipher, maxLen)
      ensures r.Used? <==> old(hasCcs) || (typ == 20 && payload == [1] && nullCipher)
      ensures !hasCcs && epoch == old(epoch) && readSeq == old(readSeq)
    {
      CcsExactly(View(), typ, payload, nullCipher, maxLen);
      if !hasCcs {
        var ok := OpenHandshake(typ, payload, nullCipher, maxLen);
        if !ok { return Refused; }
      }
      if hasCcs {
        UseUp();
        return Used;
      }
      return Discarded;
    }

    method UseUp()
      requires Valid()
      modifies `hasCcs
      ensures Valid() && Repr == old(Repr) && View() == old(View()).(hasCcs := false)
    {
      hasCcs := false;
      RingKept();
    }

    /** dtls1_get_message */
    method GetMessage() returns (ok: bool, raw: bytes)
      requires Valid()
      modifies `hasMessage
      ensures Valid() && Repr == old(Repr)
      ensures View() == DtlsWindow.GetMessage(old(View())).1
      ensures match DtlsWindow.GetMessage(old(View())).0 case None => !ok case Some(m) => ok && raw == m.Raw()
    {
      ghost var rx := View();
      var complete := CurrentIsComplete();
      if !complete { return false, []; }
      var frag := incoming[readSeq % N];
      assert rx.slots[readSeq % N] == Slot(readSeq % N);
      raw := frag.data[..];
      assert raw == frag.data[..HM_HEADER_LENGTH] + frag.data[HM_HEADER_LENGTH..];
      hasMessage := true;
      RingKept();
      assert View() == DtlsWindow.GetMessage(rx).1;
      return true, raw;
    }

    /** dtls1_next_message: a flight of ours that was complete has been answered. */
    method NextMessage(complete: bool, hasReply: bool) returns (hasReply': bool)
      requires Valid() && hasMessage
      modifies `readSeq, `hasMessage, incoming
      ensures Valid() && Repr == old(Repr) && View() == DtlsWindow.NextMessage(old(View()))
      ensures hasReply' <==> hasReply || complete
    {
      ghost var rx := View();
      Remove(readSeq % N);
      label removed:
      readSeq := (readSeq + 1) % TWO_16;
      hasMessage := false;
      RingKept@removed();
      assert View() == DtlsWindow.NextMessage(rx);
      hasReply' := if complete then true else hasReply;
    }

    method Remove(k: nat)
      requires Owned() && k < N
      modifies incoming
      ensures Owned() && View() == old(View()).(slots := old(View()).slots[k := None])
    {
      hide RxOk, SlotOk, EncodeHeader, MaskIs, AllIn;
      ghost var before := View();
      incoming[k] := null;
      forall j | 0 <= j < N && j != k ensures Slot(j) == before.slots[j] {}
      assert View().slots == before.slots[k := None];
    }

    /** dtls_has_unprocessed_handshake_data: skips the current message only. */
    method HasUnprocessedData() returns (r: bool)
      requires Valid()
      ensures r <==> HasUnprocessed(View())
    {
      ghost var rx := View();
      if hasCcs { return true; }
      var i := 0;
      while i < N
        invariant i <= N
        invariant forall j :: 0 <= j < i && incoming[j] != null ==> hasMessage && j == readSeq % N
      {
        if !(hasMessage && i == readSeq % N) && incoming[i] != null {
          assert rx.slots[i] == Slot(i);
          return true;
        }
        i := i + 1;
      }
      forall j | 0 <= j < N && rx.slots[j].Some? ensures hasMessage && j == readSeq % N {
        assert rx.slots[j] == Slot(j);
      }
      return false;
    }

    /** dtls1_set_read_state: refused while anything else is buffered; otherwise the record
        layer's replay map is cleared and its cipher changed as well. */
    method SetReadState(records: ReadState, version: nat) returns (ok: bool)
      requires Valid() && records !in Repr && records.Valid() && records.epoch == epoch
      modifies `epoch, records
      ensures Valid() && Repr == old(Repr) && records.Valid() && records.epoch == epoch
      ensures ok <==> !HasUnprocessed(old(View()))
      ensures View() == if ok then NextReadEpoch(old(View())) else old(View())
      ensures epoch == if ok then (old(epoch) + 1) % 0x1_0000 else old(epoch)
      ensures if ok then records.window == EMPTY && records.accepted == {} && records.version == Some(version)
        else unchanged(records)
    {
      var unprocessed := HasUnprocessedData();
      if unprocessed { return false; }
      MoveEpoch();
      label moved:
      records.NextEpoch(version);
      RingKept@moved();
      return true;
    }

    method MoveEpoch()
      requires Valid() && !HasUnprocessed(View())
      modifies `epoch
      ensures Valid() && Repr == old(Repr) && View() == NextReadEpoch(old(View()))
    {
      ghost var rx := View();
      epoch := (epoch + 1) % TWO_16;
      RingKept();
      assert View() == NextReadEpoch(rx);
    }
  }

  /** dtls1_get_incoming_message fails on h. */
  ghost predicate Refuses(rx: Rx, h: Header)
    requires RxOk(rx)
  {
    var m := rx.slots[h.seqNum % N];
    || h.seqNum < rx.readSeq || h.seqNum - rx.readSeq >= N
    || (m.Some? && (m.value.typ != h.typ || m.value.msgLen != h.msgLen))
  }

  /** The window with h's message in it, empty if it was not there. */
  ghost function WithSlot(rx: Rx, h: Header): Rx
    requires RxOk(rx)
  {
    var k := h.seqNum % N;
    rx.(slots := rx.slots[k := Some(if rx.slots[k].Some? then rx.slots[k].value else Fresh(h, rx.epoch))])
  }
}
