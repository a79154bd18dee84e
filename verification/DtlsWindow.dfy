/** The window of incoming handshake messages: what each step of d1_both.cc's
    receiving half does to it, on values. */
module DtlsWindow {
  import opened Basics
  import opened DtlsCodec
  import opened DtlsFragment

  /** SSL_MAX_HANDSHAKE_FLIGHT */
  const N: nat := 7

  /** The receiving half of a connection: a slot is a message under reassembly, or empty. */
  datatype Rx = Rx(slots: seq<Option<Incoming>>, readSeq: nat, epoch: nat, hasCcs: bool, hasMessage: bool)

  /** Every occupied slot k holds a message whose number is k modulo N and lies in
      [readSeq, readSeq + N); a message handed to the caller is complete. */
  ghost predicate RxOk(rx: Rx) {
    && |rx.slots| == N && rx.readSeq < TWO_16 && rx.epoch < TWO_16
    && (forall k {:trigger rx.slots[k]} :: 0 <= k < N && rx.slots[k].Some? ==> SlotOk(rx.slots[k].value, k, rx.readSeq))
    && (rx.hasMessage ==> CurrentComplete(rx))
  }

  ghost predicate SlotOk(m: Incoming, k: nat, readSeq: nat) {
    m.Ok() && m.seqNum % N == k && readSeq <= m.seqNum < readSeq + N && m.seqNum < TWO_16
  }

  function InitialRx(): Rx {
    Rx([None, None, None, None, None, None, None], 0, 0, false, false)
  }

  function Current(rx: Rx): Option<Incoming>
    requires |rx.slots| == N
  {
    rx.slots[rx.readSeq % N]
  }

  /** dtls1_is_current_message_complete */
  predicate CurrentComplete(rx: Rx)
    requires |rx.slots| == N
  {
    Current(rx).Some? && Current(rx).value.Complete()
  }

  // ---- Fragments ---------------------------------------------------------

  /** The state, and whether the connection goes on or fails. */
  datatype Verdict = Fine(rx: Rx) | Bad(rx: Rx)

  /** Checks of dtls1_open_handshake on a fragment header, before the sequence number. */
  predicate BadHeader(rx: Rx, h: Header, maxLen: nat) {
    || h.fragOff > h.msgLen || h.fragOff + h.fragLen > h.msgLen || h.msgLen > maxLen
    || (rx.epoch == 1 && h.seqNum != rx.readSeq)  // the encrypted epoch has one handshake message
  }

  /** One round of the fragment loop in dtls1_open_handshake. A number N ahead of the
      window passes the filter but is refused by dtls1_get_incoming_message. */
  function TakeFragment(rx: Rx, f: Fragment, maxLen: nat): Verdict
    requires RxOk(rx) && |f.body| == f.h.fragLen
  {
    var h := f.h;
    if BadHeader(rx, h, maxLen) then Bad(rx)
    else if h.seqNum < rx.readSeq || h.seqNum > rx.readSeq + N then Fine(rx)
    else if h.seqNum - rx.readSeq >= N then Bad(rx)
    else
      var k := h.seqNum % N;
      if rx.slots[k].Some? && (rx.slots[k].value.typ != h.typ || rx.slots[k].value.msgLen != h.msgLen) then Bad(rx)
      else
        var m := if rx.slots[k].Some? then rx.slots[k].value else Fresh(h, rx.epoch);
        Fine(rx.(slots := rx.slots[k := Some(Absorb(m, h.fragOff, f.body, rx.epoch))]))
  }

  /** The loop: every fragment of a handshake record in turn. */
  function TakeFragments(rx: Rx, bs: bytes, maxLen: nat): (v: Verdict)
    requires RxOk(rx)
    ensures RxOk(v.rx)
    decreases |bs|
  {
    if bs == [] then Fine(rx)
    else match ParseFragment(bs)
      case Fail => Bad(rx)
      case Done(f, rest) =>
        TakeFragmentOk(rx, f, maxLen);
        match TakeFragment(rx, f, maxLen)
        case Bad(rx') => Bad(rx')
        case Fine(rx') => TakeFragments(rx', rest, maxLen)
  }

  /** The assertion that a slot's message has the number that was looked up never fails. */
  lemma SlotNumber(rx: Rx, n: nat)
    requires RxOk(rx) && rx.readSeq <= n < rx.readSeq + N && rx.slots[n % N].Some?
    ensures rx.slots[n % N].value.seqNum == n
  {}

  lemma TakeFragmentOk(rx: Rx, f: Fragment, maxLen: nat)
    requires RxOk(rx) && |f.body| == f.h.fragLen && f.h.Fits()
    ensures RxOk(TakeFragment(rx, f, maxLen).rx)
  {}

  /** A fragment only ever touches the message with its own number: two different
      messages never share a slot, and other messages are left alone. */
  lemma NeverAliases(rx: Rx, f: Fragment, maxLen: nat, k: nat)
    requires RxOk(rx) && |f.body| == f.h.fragLen && k < N
    ensures var rx' := TakeFragment(rx, f, maxLen).rx;
      && |rx'.slots| == N && rx'.readSeq == rx.readSeq && rx'.epoch == rx.epoch
      && rx'.hasCcs == rx.hasCcs && rx'.hasMessage == rx.hasMessage
      && (rx'.slots[k] != rx.slots[k] ==>
           && rx'.slots[k].Some? && rx'.slots[k].value.seqNum == f.h.seqNum
           && (rx.slots[k].Some? ==> rx.slots[k].value.seqNum == f.h.seqNum && !rx.slots[k].value.Complete()))
  {}

  /** dtls1_open_handshake after dtls_open_record: Fine covers success and discard. */
  function OpenHandshake(rx: Rx, typ: byte, payload: bytes, nullCipher: bool, maxLen: nat): (v: Verdict)
    requires RxOk(rx)
    ensures RxOk(v.rx)
  {
    if typ == RT_APP_DATA then if nullCipher then Bad(rx) else Fine(rx)
    else if typ == RT_CCS then
      if !nullCipher || payload != [1] then Bad(rx) else Fine(rx.(hasCcs := true))
    else if typ == RT_HANDSHAKE then TakeFragments(rx, payload, maxLen)
    else Bad(rx)
  }

  /** Exactly when a fragment ends the connection: it reaches beyond its message, the message
      is too long, it is not the one message of the encrypted epoch, its number is seven ahead,
      which passes the first filter, or it contradicts the message in its slot. */
  lemma RefusedExactly(rx: Rx, f: Fragment, maxLen: nat)
    requires RxOk(rx) && |f.body| == f.h.fragLen
    ensures TakeFragment(rx, f, maxLen).Bad? <==>
      || f.h.fragOff + f.h.fragLen > f.h.msgLen
      || f.h.msgLen > maxLen
      || (rx.epoch == 1 && f.h.seqNum != rx.readSeq)
      || f.h.seqNum == rx.readSeq + 7
      || (rx.readSeq <= f.h.seqNum < rx.readSeq + 7
          && exists k :: 0 <= k < 7 && rx.slots[k].Some? && rx.slots[k].value.seqNum == f.h.seqNum
               && (rx.slots[k].value.typ != f.h.typ || rx.slots[k].value.msgLen != f.h.msgLen))
  {}

  /** A fragment of the window that is not refused goes into its message, whose bytes it marks
      and fills; one from outside changes nothing, and a refused one neither. */
  lemma TakenExactly(rx: Rx, f: Fragment, maxLen: nat)
    requires RxOk(rx) && |f.body| == f.h.fragLen
    ensures var v, k := TakeFragment(rx, f, maxLen), f.h.seqNum % 7;
      if v.Bad? || f.h.seqNum < rx.readSeq || f.h.seqNum > rx.readSeq + 7 then v.rx == rx
      else
        && v.rx.slots[k].Some? && v.rx == rx.(slots := rx.slots[k := v.rx.slots[k]])
        && var m := v.rx.slots[k].value;
           var had := if rx.slots[k].Some? then rx.slots[k].value.covered else {};
           && m.typ == f.h.typ && m.msgLen == f.h.msgLen && m.seqNum == f.h.seqNum
           && m.epochs == (if rx.slots[k].None? then {rx.epoch}
                           else rx.slots[k].value.epochs + if AllIn(had, f.h.msgLen) then {} else {rx.epoch})
           && (forall i: nat :: i in m.covered <==> i in had || f.h.fragOff <= i < f.h.fragOff + f.h.fragLen)
           && (forall i: nat :: f.h.fragOff <= i < f.h.fragOff + f.h.fragLen && !AllIn(had, f.h.msgLen) ==>
                 i < |m.body| && m.body[i] == f.body[i - f.h.fragOff])
           && (rx.slots[k].Some? ==> forall i: nat ::
                 i < |m.body| && (AllIn(had, f.h.msgLen) || !(f.h.fragOff <= i < f.h.fragOff + f.h.fragLen)) ==>
                   m.body[i] == rx.slots[k].value.body[i])
  {}

  /** The fragments in a handshake record, and the bytes behind them that make no fragment. */
  function FragmentsIn(bs: bytes): (r: (seq<Fragment>, bytes))
    ensures forall f :: f in r.0 ==> f.h.Fits() && |f.body| == f.h.fragLen
    decreases |bs|
  {
    match ParseFragment(bs)
    case Fail => ([], bs)
    case Done(f, rest) => ([f] + FragmentsIn(rest).0, FragmentsIn(rest).1)
  }

  /** Each in turn, up to the first that is refused. */
  function TakeEach(rx: Rx, fs: seq<Fragment>, maxLen: nat): (v: Verdict)
    requires RxOk(rx) && forall f :: f in fs ==> f.h.Fits() && |f.body| == f.h.fragLen
    ensures RxOk(v.rx)
    decreases |fs|
  {
    if fs == [] then Fine(rx)
    else
      TakeFragmentOk(rx, fs[0], maxLen);
      var v := TakeFragment(rx, fs[0], maxLen);
      if v.Bad? then v else TakeEach(v.rx, fs[1..], maxLen)
  }

  /** The loop takes every fragment of the record, and refuses a record with anything else in it. */
  lemma {:induction false} FragmentsExactly(rx: Rx, bs: bytes, maxLen: nat)
    requires RxOk(rx)
    ensures var v := TakeEach(rx, FragmentsIn(bs).0, maxLen);
      TakeFragments(rx, bs, maxLen) == if v.Fine? && FragmentsIn(bs).1 != [] then Bad(v.rx) else v
    decreases |bs|
  {
    if bs != [] && ParseFragment(bs).Done? {
      var f, rest := ParseFragment(bs).value, ParseFragment(bs).rest;
      var more := FragmentsIn(rest).0;
      assert ([f] + more)[1..] == more;
      TakeFragmentOk(rx, f, maxLen);
      var v := TakeFragment(rx, f, maxLen);
      if v.Fine? { FragmentsExactly(v.rx, rest, maxLen); }
    }
  }

  /** Fragments written one behind the other are found again. */
  lemma {:induction false} FragmentsFound(f: Fragment, bs: bytes)
    requires f.h.Fits() && |f.body| == f.h.fragLen
    ensures FragmentsIn(EncodeHeader(f.h) + f.body + bs) == ([f] + FragmentsIn(bs).0, FragmentsIn(bs).1)
  {
    FragmentRoundTrip(f, bs);
  }

  lemma {:induction false} FragmentsKeep(rx: Rx, bs: bytes, maxLen: nat)
    requires RxOk(rx)
    ensures var r := TakeFragments(rx, bs, maxLen).rx; r == rx.(slots := r.slots)
    decreases |bs|
  {
    if bs != [] && ParseFragment(bs).Done? {
      var f := ParseFragment(bs).value;
      TakeFragmentOk(rx, f, maxLen);
      NeverAliases(rx, f, maxLen, 0);
      var v := TakeFragment(rx, f, maxLen);
      if v.Fine? { FragmentsKeep(v.rx, ParseFragment(bs).rest, maxLen); }
    }
  }

  /** A ChangeCipherSpec in the clear. */
  predicate IsCcs(typ: byte, payload: bytes, nullCipher: bool) {
    typ == 20 && payload == [1] && nullCipher
  }

  /** What a record does: unencrypted application data, a ChangeCipherSpec that is encrypted or
      not one byte 1, an unknown type and a refused fragment end the connection; a proper
      ChangeCipherSpec is remembered, and only a handshake record changes messages. */
  lemma {:induction false} OpenExactly(rx: Rx, typ: byte, payload: bytes, nullCipher: bool, maxLen: nat)
    requires RxOk(rx)
    ensures var v := OpenHandshake(rx, typ, payload, nullCipher, maxLen);
      && (v.Bad? <==>
            || (typ == 23 && nullCipher)
            || (typ == 20 && !IsCcs(typ, payload, nullCipher))
            || (typ == 22 && TakeFragments(rx, payload, maxLen).Bad?)
            || typ !in {20, 22, 23})
      && v.rx.hasCcs == (rx.hasCcs || IsCcs(typ, payload, nullCipher))
      && v.rx.readSeq == rx.readSeq && v.rx.epoch == rx.epoch && v.rx.hasMessage == rx.hasMessage
      && v.rx.slots == if typ == 22 then TakeFragments(rx, payload, maxLen).rx.slots else rx.slots
  {
    if typ == 22 { FragmentsKeep(rx, payload, maxLen); }
  }

  /** What dtls1_open_change_cipher_spec makes of a record. */
  datatype CcsResult = Used | Discarded | Refused

  function ChangeCipherSpec(rx: Rx, typ: byte, payload: bytes, nullCipher: bool, maxLen: nat): (r: (CcsResult, Rx))
    requires RxOk(rx)
    ensures RxOk(r.1)
  {
    if rx.hasCcs then (Used, rx.(hasCcs := false))
    else match OpenHandshake(rx, typ, payload, nullCipher, maxLen)
      case Bad(rx') => (Refused, rx')
      case Fine(rx') => if rx'.hasCcs then (Used, rx'.(hasCcs := false)) else (Discarded, rx')
  }

  /** Asked for a ChangeCipherSpec: one is used exactly if it was remembered or is this record,
      and none is remembered after that. */
  lemma CcsExactly(rx: Rx, typ: byte, payload: bytes, nullCipher: bool, maxLen: nat)
    requires RxOk(rx)
    ensures var r := ChangeCipherSpec(rx, typ, payload, nullCipher, maxLen);
      && (r.0.Used? <==> rx.hasCcs || IsCcs(typ, payload, nullCipher))
      && (r.0.Refused? <==> !rx.hasCcs && OpenHandshake(rx, typ, payload, nullCipher, maxLen).Bad?)
      && !r.1.hasCcs && r.1.readSeq == rx.readSeq && r.1.epoch == rx.epoch && r.1.hasMessage == rx.hasMessage
      && (typ != 22 || rx.hasCcs ==> r.1.slots == rx.slots)
  {
    OpenExactly(rx, typ, payload, nullCipher, maxLen);
  }

  /** A record read for a handshake message or for a ChangeCipherSpec. */
  datatype Reading = Reading(forCcs: bool, typ: byte, payload: bytes, nullCipher: bool)

  function Read(rx: Rx, d: Reading, maxLen: nat): (r: (bool, Rx))
    requires RxOk(rx)
    ensures RxOk(r.1)
  {
    if d.forCcs then
      var (r, rx') := ChangeCipherSpec(rx, d.typ, d.payload, d.nullCipher, maxLen);
      (r.Used?, rx')
    else (false, OpenHandshake(rx, d.typ, d.payload, d.nullCipher, maxLen).rx)
  }

  /** How often a ChangeCipherSpec is used. */
  function Uses(rx: Rx, ds: seq<Reading>, maxLen: nat): nat
    requires RxOk(rx)
    decreases |ds|
  {
    if ds == [] then 0
    else (if Read(rx, ds[0], maxLen).0 then 1 else 0) + Uses(Read(rx, ds[0], maxLen).1, ds[1..], maxLen)
  }

  function ReadAll(rx: Rx, ds: seq<Reading>, maxLen: nat): Rx
    requires RxOk(rx)
    decreases |ds|
  {
    if ds == [] then rx else ReadAll(Read(rx, ds[0], maxLen).1, ds[1..], maxLen)
  }

  /** How often one comes in while none is remembered; reading for one forgets it. */
  function Comes(waiting: bool, ds: seq<Reading>): nat
    decreases |ds|
  {
    if ds == [] then 0
    else
      var d := ds[0];
      var ccs := IsCcs(d.typ, d.payload, d.nullCipher);
      (if ccs && !waiting then 1 else 0) + Comes(!d.forCcs && (waiting || ccs), ds[1..])
  }

  /** Over any records, read for either purpose: each ChangeCipherSpec that came in while none
      was waiting is used once, or still waits. */
  lemma {:induction false} UsedOnceEach(rx: Rx, ds: seq<Reading>, maxLen: nat)
    requires RxOk(rx)
    ensures Uses(rx, ds, maxLen) + (if ReadAll(rx, ds, maxLen).hasCcs then 1 else 0)
      == (if rx.hasCcs then 1 else 0) + Comes(rx.hasCcs, ds)
    decreases |ds|
  {
    if ds != [] {
      var d := ds[0];
      OpenExactly(rx, d.typ, d.payload, d.nullCipher, maxLen);
      CcsExactly(rx, d.typ, d.payload, d.nullCipher, maxLen);
      UsedOnceEach(Read(rx, d, maxLen).1, ds[1..], maxLen);
    }
  }

  /** While one waits there is unprocessed data, whatever is read for handshake messages and
      whatever messages are taken. */
  lemma CcsWaits(rx: Rx, typ: byte, payload: bytes, nullCipher: bool, maxLen: nat)
    requires RxOk(rx) && rx.hasCcs
    ensures HasUnprocessed(rx)
    ensures HasUnprocessed(OpenHandshake(rx, typ, payload, nullCipher, maxLen).rx)
    ensures OpenHandshake(rx, typ, payload, nullCipher, maxLen).rx.hasCcs
    ensures GetMessage(rx).1.hasCcs && (rx.hasMessage ==> NextMessage(rx).hasCcs)
  {
    OpenExactly(rx, typ, payload, nullCipher, maxLen);
  }

  // ---- Taking messages ---------------------------------------------------

  /** dtls1_get_message */
  function GetMessage(rx: Rx): (r: (Option<Incoming>, Rx))
    requires RxOk(rx)
    ensures RxOk(r.1)
  {
    if CurrentComplete(rx) then (Current(rx), rx.(hasMessage := true)) else (None, rx)
  }

  /** dtls1_next_message: uint16_t handshake_read_seq++. */
  function NextMessage(rx: Rx): (rx': Rx)
    requires RxOk(rx) && rx.hasMessage
    ensures RxOk(rx')
  {
    var rx' := rx.(slots := rx.slots[rx.readSeq % N := None], readSeq := (rx.readSeq + 1) % TWO_16,
      hasMessage := false);
    assert RxOk(rx') by { NextMessageOk(rx, rx'); }
    rx'
  }

  lemma NextMessageOk(rx: Rx, rx': Rx)
    requires RxOk(rx) && rx.hasMessage
    requires rx' == rx.(slots := rx.slots[rx.readSeq % N := None], readSeq := (rx.readSeq + 1) % TWO_16,
      hasMessage := false)
    ensures RxOk(rx')
  {}

  /** A message is handed out exactly when all its bytes have come, and is then the current
      one; taking it frees its slot and moves the window on by one, and touches nothing else. */
  lemma GetThenNext(rx: Rx)
    requires RxOk(rx)
    ensures var (m, rx'), k := GetMessage(rx), rx.readSeq % 7;
      && (m.Some? <==>
            rx.slots[k].Some? && forall i: nat :: i < rx.slots[k].value.msgLen ==> i in rx.slots[k].value.covered)
      && (m.Some? ==> m == rx.slots[k] && m.value.seqNum == rx.readSeq)
      && rx' == rx.(hasMessage := rx.hasMessage || m.Some?)
      && (m.Some? ==>
           NextMessage(rx') == Rx(rx.slots[k := None], (rx.readSeq + 1) % 0x1_0000, rx.epoch, rx.hasCcs, false))
      && (m.Some? ==> (HasUnprocessed(rx') <==> rx.hasCcs || exists i :: 0 <= i < 7 && i != k && rx.slots[i].Some?))
  {
    if GetMessage(rx).0.Some? { SlotNumber(rx, rx.readSeq); }
  }

  /** dtls_has_unprocessed_handshake_data */
  predicate HasUnprocessed(rx: Rx)
    requires |rx.slots| == N
  {
    || rx.hasCcs
    || exists i {:trigger rx.slots[i]} :: 0 <= i < N && rx.slots[i].Some? && !(rx.hasMessage && i == rx.readSeq % N)
  }

  /** dtls1_set_read_state, when it is allowed: nothing but the message the caller is
      looking at is buffered. */
  function NextReadEpoch(rx: Rx): (rx': Rx)
    requires RxOk(rx) && !HasUnprocessed(rx)
    ensures RxOk(rx')
  {
    rx.(epoch := (rx.epoch + 1) % TWO_16)
  }
}
