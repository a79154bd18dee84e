/** Whole runs: a sender, a network that loses, duplicates, delays and reorders
    records, and a receiver. What holds in every state such a run can reach. */
module DtlsRun {
  import opened Basics
  import opened DtlsCodec
  import opened DtlsFragment
  import opened DtlsReplay
  import opened DtlsWindow
  import opened DtlsFlight

  /** A number taken from a record counter: the write state it belongs to, counted from 0,
      and the record made with it, if any left. */
  datatype Use = Use(era: nat, number: nat, sealed: Option<Sealed>)

  /** sent holds the handshake messages in the order they were added, log every record that
      left, used every record number taken, delivered the raw messages taken with get and
      next. savedAt is where the packet being built began, era the number of write states
      before the present one, of which tx.epoch is the 16-bit form. */
  datatype World = World(tx: Tx, savedAt: (nat, nat), sent: seq<bytes>, log: seq<Sealed>, used: seq<Use>, era: nat,
                         rx: Rx, window: Window, accepted: set<nat>, nullCipher: bool, dead: bool,
                         delivered: seq<bytes>, maxLen: nat)

  datatype Action =
    | AddMessage(typ: byte, body: bytes)
    | AddCcs
    | BeginPacket                                        // seal_next_packet starts
    | SealOne(maxOut: nat, cipherLen: Option<nat>)       // one record of the flight
    | WriteFails                                         // send_flight puts the position back
    | Flush                                              // the flight is complete
    | Rewind                                             // retransmission
    | WriteOther(typ: byte, payload: bytes, maxOut: nat, cipherLen: Option<nat>)
    | NextWriteEpoch(cipher: Cipher)
    | Replied                                            // the peer answered the flight
    | HandshakeDone
    | Receive(i: nat, opens: bool)                       // record i arrives, first or again
    | ReceiveAfter(i: nat, opens: bool)                  // the same, after the handshake
    | TakeCcs
    | Get
    | Take                                               // dtls1_next_message
    | NextEpoch                                          // dtls1_set_read_state

  function Init(cipher: Cipher, maxLen: nat): World {
    World(Tx([], 0, 0, false, false, 0, 0, 0, 0, cipher, cipher, []), (0, 0), [], [], [], 0,
          InitialRx(), EMPTY, {}, true, false, [], maxLen)
  }

  /** The record layer's part of receiving: the new window, or None when the record is
      discarded. */
  function Accept(w: World, r: Sealed, opens: bool): Option<World> {
    match Admit(w.window, w.rx.epoch, r.epoch, r.number, opens)
    case None => None
    case Some(window) => Some(w.(window := window, accepted := w.accepted + {SequenceNumber(r.epoch, r.number)}))
  }

  function AddData(w: World, isCcs: bool, data: bytes): World {
    var (ok, tx) := Added(w.tx, isCcs, data);
    w.(tx := tx, sent := if ok && !isCcs then w.sent + [data] else w.sent)
  }

  /** The number taken between two states of the counters, if one was. */
  function Spent(tx: Tx, tx': Tx, era: nat, rec: Option<Sealed>): seq<Use> {
    if tx'.cur != tx.cur then [Use(era, tx.cur, rec)]
    else if tx'.prev != tx.prev && era > 0 then [Use(era - 1, tx.prev, rec)]
    else []
  }

  function Spend(w: World, tx: Tx, rec: Option<Sealed>): World {
    w.(tx := tx, log := if rec.Some? then w.log + [rec.value] else w.log, used := w.used + Spent(w.tx, tx, w.era, rec))
  }

  function SealStep(w: World, maxOut: nat, cipherLen: Option<nat>): World
    requires w.tx.written < |w.tx.msgs|
  {
    match SealNext(w.tx, maxOut, cipherLen)
    case NoProgress => w
    case SealError(tx) => Spend(w, tx, None)
    case Progress(rec, _, _) => Spend(w, Moved(SealNext(w.tx, maxOut, cipherLen)), Some(rec))
  }

  /** What dtls1_write_app_data and dtls1_dispatch_alert pass on. */
  predicate Writable(typ: byte, payload: bytes) {
    || (typ == RT_APP_DATA && 0 < |payload| <= MAX_PLAIN_LENGTH)
    || (typ == RT_ALERT && |payload| == 2)
  }

  /** dtls1_write_record: application data and alerts use up record numbers as well. */
  function OtherRecord(w: World, typ: byte, payload: bytes, maxOut: nat, cipherLen: Option<nat>): World {
    var (rec, tx) := SealRecord(w.tx, CurrentEpoch, typ, payload, cipherLen, maxOut);
    Spend(w, tx, rec)
  }

  function SenderStep(w: World, a: Action): World {
    match a
    case AddMessage(typ, body) =>
      if |body| >= TWO_24 then w else AddData(w, false, BuildMessage(typ, body, w.tx.writeSeq))
    case AddCcs => AddData(w, true, [])
    case BeginPacket => w.(savedAt := (w.tx.written, w.tx.offset))
    case SealOne(maxOut, cipherLen) =>
      if w.tx.written >= |w.tx.msgs| then w else SealStep(w, maxOut, cipherLen)
    case WriteFails => w.(tx := w.tx.(written := w.savedAt.0, offset := w.savedAt.1))
    case Flush => w.(tx := w.tx.(complete := true))
    case Rewind => w.(tx := w.tx.(written := 0, offset := 0))
    case WriteOther(typ, payload, maxOut, cipherLen) =>
      if Writable(typ, payload) then OtherRecord(w, typ, payload, maxOut, cipherLen) else w
    case NextWriteEpoch(cipher) => w.(tx := NextWriteState(w.tx, cipher), era := w.era + 1)
    case Replied => if w.tx.complete then w.(tx := w.tx.(hasReply := true)) else w
    case HandshakeDone => if w.tx.hasReply then w.(tx := Cleared(w.tx)) else w
    case _ => w
  }

  function ReceiveStep(w: World, r: Sealed, opens: bool): World
    requires RxOk(w.rx)
  {
    match Accept(w, r, opens)
    case None => w
    case Some(w1) =>
      if |r.payload| > MAX_PLAIN_LENGTH then w.(dead := true)
      else if r.typ == RT_ALERT then w1
      else
        var v := OpenHandshake(w.rx, r.typ, r.payload, w.nullCipher, w.maxLen);
        w1.(rx := v.rx, dead := v.Bad?)
  }

  function ReadEpochStep(w: World): World
    requires RxOk(w.rx)
  {
    if HasUnprocessed(w.rx) then w.(dead := true)
    else w.(rx := NextReadEpoch(w.rx), window := EMPTY, accepted := {}, nullCipher := false)
  }

  function ReceiverStep(w: World, a: Action): World
    requires RxOk(w.rx)
  {
    match a
    case Receive(i, opens) => if i >= |w.log| then w else ReceiveStep(w, w.log[i], opens)
    case ReceiveAfter(i, opens) =>
      if i < |w.log| && Accept(w, w.log[i], opens).Some? then Accept(w, w.log[i], opens).value else w
    case TakeCcs => w.(rx := w.rx.(hasCcs := false))
    case Get => w.(rx := GetMessage(w.rx).1)
    case Take =>
      if !w.rx.hasMessage then w
      else w.(rx := NextMessage(w.rx), delivered := w.delivered + [Current(w.rx).value.Raw()])
    case NextEpoch => ReadEpochStep(w)
    case _ => w
  }

  predicate FromReceiver(a: Action) {
    a.Receive? || a.ReceiveAfter? || a.TakeCcs? || a.Get? || a.Take? || a.NextEpoch?
  }

  /** One step; a receiver that has failed does nothing more. */
  function Next(w: World, a: Action): World
    requires RxOk(w.rx)
  {
    if !FromReceiver(a) then SenderStep(w, a) else if w.dead then w else ReceiverStep(w, a)
  }

  // ---- Invariants --------------------------------------------------------

  function Whole(data: bytes): Option<Fragment> {
    WholeFragment(OutMsg(data, 0, false))
  }

  ghost predicate MsgOk(data: bytes, s: nat) {
    && Whole(data).Some? && Whole(data).value.h.seqNum == s
    && data == EncodeHeader(Whole(data).value.h) + Whole(data).value.body
  }

  ghost predicate SentInv(sent: seq<bytes>) {
    forall s {:trigger sent[s]} :: 0 <= s < |sent| ==> MsgOk(sent[s], s)
  }

  /** The flight holds messages that were sent, in order. */
  ghost predicate FlightInv(msgs: seq<OutMsg>, sent: seq<bytes>) {
    && (forall j {:trigger msgs[j]} :: 0 <= j < |msgs| && !msgs[j].isCcs ==>
         SeqOf(msgs[j]) < |sent| && msgs[j].data == sent[SeqOf(msgs[j])])
    && forall j, k {:trigger msgs[j], msgs[k]} :: 0 <= j < k < |msgs| && !msgs[j].isCcs && !msgs[k].isCcs ==>
         SeqOf(msgs[j]) < SeqOf(msgs[k])
  }

  /** f is a fragment of a message that was sent. */
  ghost predicate GenuineFragment(f: Fragment, sent: seq<bytes>) {
    && f.h.seqNum < |sent| && Whole(sent[f.h.seqNum]).Some? && |f.body| == f.h.fragLen
    && var g := Whole(sent[f.h.seqNum]).value;
       && f.h.typ == g.h.typ && f.h.msgLen == |g.body| && f.h.fragOff + f.h.fragLen <= |g.body|
       && f.body == g.body[f.h.fragOff..f.h.fragOff + f.h.fragLen]
  }

  ghost predicate Genuine(payload: bytes, sent: seq<bytes>) {
    && ParseFragment(payload).Done? && ParseFragment(payload).rest == []
    && GenuineFragment(ParseFragment(payload).value, sent)
  }

  ghost predicate LogInv(log: seq<Sealed>, sent: seq<bytes>) {
    forall i {:trigger log[i]} :: 0 <= i < |log| && log[i].typ == RT_HANDSHAKE ==> Genuine(log[i].payload, sent)
  }

  /** How many numbers of a write state have been taken. */
  function Count(used: seq<Use>, era: nat): nat {
    if used == [] then 0
    else Count(used[..|used| - 1], era) + if used[|used| - 1].era == era then 1 else 0
  }

  /** The records that left, in order. */
  function Left(used: seq<Use>): seq<Sealed> {
    if used == [] then []
    else Left(used[..|used| - 1]) + if used[|used| - 1].sealed.Some? then [used[|used| - 1].sealed.value] else []
  }

  /** The numbers of a write state are 0, 1, 2 and so on, in 48 bits, in the order they
      were taken, and each record carries the number taken for it. */
  ghost predicate Counted(used: seq<Use>) {
    forall i {:trigger used[i]} :: 0 <= i < |used| ==>
      && used[i].number == Count(used[..i], used[i].era) % TWO_48
      && (used[i].sealed.Some? ==>
           used[i].sealed.value.epoch == used[i].era % TWO_16 && used[i].sealed.value.number == used[i].number)
  }

  /** The counters hold the next numbers. */
  ghost predicate CountersInv(tx: Tx, era: nat, used: seq<Use>) {
    && tx.epoch == era % TWO_16 && tx.cur == Count(used, era) % TWO_48
    && (era > 0 ==> tx.prev == Count(used, era - 1) % TWO_48)
  }

  ghost predicate UsedInv(era: nat, used: seq<Use>, log: seq<Sealed>) {
    && (forall i {:trigger used[i]} :: 0 <= i < |used| ==> used[i].era <= era)
    && Counted(used) && log == Left(used)
  }

  ghost predicate NumberInv(tx: Tx, era: nat, used: seq<Use>, log: seq<Sealed>) {
    CountersInv(tx, era, used) && UsedInv(era, used, log)
  }

  /** A message under reassembly agrees with the one that was sent. */
  ghost predicate Matches(m: Incoming, sent: seq<bytes>) {
    && m.Ok() && m.seqNum < |sent| && Whole(sent[m.seqNum]).Some?
    && var g := Whole(sent[m.seqNum]).value;
       && m.typ == g.h.typ && m.msgLen == |g.body|
       && forall i: nat {:trigger m.body[i]} :: i in m.covered ==> m.body[i] == g.body[i]
  }

  ghost predicate SlotsInv(rx: Rx, sent: seq<bytes>) {
    forall k {:trigger rx.slots[k]} :: 0 <= k < |rx.slots| && rx.slots[k].Some? ==> Matches(rx.slots[k].value, sent)
  }

  ghost predicate DeliveredInv(w: World) {
    |w.delivered| == w.rx.readSeq <= |w.sent| && w.delivered == w.sent[..w.rx.readSeq]
  }

  /** Whatever is buffered, apart from a message already handed out, arrived in the
      current read epoch. */
  ghost predicate EpochInv(rx: Rx)
    requires |rx.slots| == N
  {
    forall k {:trigger rx.slots[k]} :: 0 <= k < N && rx.slots[k].Some? && !(rx.hasMessage && k == rx.readSeq % N) ==>
      rx.slots[k].value.epochs == {rx.epoch}
  }

  /** Message numbers have not wrapped round. */
  predicate Numbered(w: World) {
    |w.sent| < TWO_16
  }

  /** What holds of the messages as long as they have different numbers. */
  ghost predicate Honest(w: World) {
    && w.tx.writeSeq == |w.sent| && SentInv(w.sent) && w.tx.transcript == Flatten(w.sent)
    && FlightInv(w.tx.msgs, w.sent) && LogInv(w.log, w.sent)
    && SlotsInv(w.rx, w.sent) && DeliveredInv(w)
  }

  /** The invariant of every run. */
  ghost predicate Inv(w: World) {
    && RxOk(w.rx) && Agrees(w.window, w.accepted) && EpochInv(w.rx)
    && NumberInv(w.tx, w.era, w.used, w.log)
    && (Numbered(w) ==> Honest(w))
  }

  // ---- Record numbers ----------------------------------------------------

  lemma {:induction false} CountSnoc(used: seq<Use>, u: Use, era: nat)
    ensures Count(used + [u], era) == Count(used, era) + if u.era == era then 1 else 0
    ensures Left(used + [u]) == Left(used) + if u.sealed.Some? then [u.sealed.value] else []
  {
    assert (used + [u])[..|used|] == used;
  }

  lemma ModSucc(a: nat, m: nat)
    requires m > 0
    ensures (a % m + 1) % m == (a + 1) % m
  {
    Bits.DivModUnique(a + 1, m, a / m + (a % m + 1) / m, (a % m + 1) % m);
  }

  lemma {:induction false} CountedSnoc(used: seq<Use>, u: Use)
    requires Counted(used) && u.number == Count(used, u.era) % TWO_48
    requires u.sealed.Some? ==> u.sealed.value.epoch == u.era % TWO_16 && u.sealed.value.number == u.number
    ensures Counted(used + [u])
  {
    var v := used + [u];
    forall i {:trigger v[i]} | 0 <= i < |v|
      ensures v[i].number == Count(v[..i], v[i].era) % TWO_48
      ensures v[i].sealed.Some? ==>
        v[i].sealed.value.epoch == v[i].era % TWO_16 && v[i].sealed.value.number == v[i].number
    {
      if i < |used| { assert v[i] == used[i] && v[..i] == used[..i]; } else { assert v[..i] == used; }
    }
  }

  /** What sealing does to the counters: nothing, or one number is taken, and the record
      that leaves carries it. */
  ghost predicate Takes(tx: Tx, tx': Tx, rec: Option<Sealed>) {
    && tx'.epoch == tx.epoch
    && (TakesFrom(tx, tx', CurrentEpoch, rec) || (tx.epoch >= 1 && TakesFrom(tx, tx', PreviousEpoch, rec)))
  }

  ghost predicate TakesFrom(tx: Tx, tx': Tx, use: UseEpoch, rec: Option<Sealed>)
    requires use.PreviousEpoch? ==> tx.epoch >= 1
  {
    || (tx'.cur == tx.cur && tx'.prev == tx.prev && rec.None?)
    || (tx'.cur == Bumped(tx, use).cur && tx'.prev == Bumped(tx, use).prev
        && (rec.Some? ==> rec.value.epoch == EpochFor(tx, use) && rec.value.number == NumberFor(tx, use)))
  }

  lemma {:induction false} UsedSnoc(era: nat, used: seq<Use>, log: seq<Sealed>, u: Use)
    requires UsedInv(era, used, log) && u.era <= era && u.number == Count(used, u.era) % TWO_48
    requires u.sealed.Some? ==> u.sealed.value.epoch == u.era % TWO_16 && u.sealed.value.number == u.number
    ensures UsedInv(era, used + [u], if u.sealed.Some? then log + [u.sealed.value] else log)
  {
    CountedSnoc(used, u);
    CountSnoc(used, u, era);
    if u.sealed.None? { assert Left(used) + [] == Left(used); }
  }

  lemma CountersSnoc(tx: Tx, tx': Tx, era: nat, used: seq<Use>, use: UseEpoch, u: Use)
    requires CountersInv(tx, era, used) && (use.PreviousEpoch? ==> tx.epoch >= 1)
    requires tx'.epoch == tx.epoch && tx'.cur == Bumped(tx, use).cur && tx'.prev == Bumped(tx, use).prev
    requires u.era == if use.PreviousEpoch? then Max(era - 1, 0) else era
    ensures CountersInv(tx', era, used + [u])
  {
    CountSnoc(used, u, era);
    if era > 0 { CountSnoc(used, u, era - 1); }
    if use.PreviousEpoch? { EpochBefore(era); }
    ModSucc(Count(used, u.era), TWO_48);
  }

  /** One number taken keeps the count. */
  lemma TakesKeeps(tx: Tx, tx': Tx, era: nat, used: seq<Use>, log: seq<Sealed>, rec: Option<Sealed>)
    requires NumberInv(tx, era, used, log) && Takes(tx, tx', rec)
    ensures NumberInv(tx', era, used + Spent(tx, tx', era, rec), if rec.Some? then log + [rec.value] else log)
  {
    var use := if TakesFrom(tx, tx', CurrentEpoch, rec) then CurrentEpoch else PreviousEpoch;
    if use.PreviousEpoch? { EpochBefore(era); }
    if tx'.cur == tx.cur && tx'.prev == tx.prev {
      assert NumberFor(Bumped(tx, use), use) != NumberFor(tx, use);
      assert used + [] == used;
    } else {
      var u := Use(if use.PreviousEpoch? then era - 1 else era, NumberFor(tx, use), rec);
      assert Spent(tx, tx', era, rec) == [u];
      CountersSnoc(tx, tx', era, used, use, u);
      UsedSnoc(era, used, log, u);
    }
  }

  lemma EpochBefore(era: nat)
    requires era % TWO_16 >= 1
    ensures era > 0 && (era - 1) % TWO_16 == era % TWO_16 - 1
  {
    Bits.DivModUnique(era - 1, TWO_16, era / TWO_16, era % TWO_16 - 1);
  }

  // ---- Sender steps ------------------------------------------------------

  lemma BuiltMsgOk(typ: byte, body: bytes, s: nat)
    requires |body| < TWO_24 && s < TWO_16
    ensures MsgOk(BuildMessage(typ, body, s), s)
  {
    var f := Fragment(Header(typ, |body|, s, 0, |body|), body);
    FragmentRoundTrip(f, []);
    assert EncodeHeader(f.h) + body + [] == BuildMessage(typ, body, s);
  }

  lemma {:induction false} SentGrows(w: World, data: bytes, sent: seq<bytes>)
    requires sent == w.sent + [data] && Honest(w) && MsgOk(data, |w.sent|)
    ensures SentInv(sent) && LogInv(w.log, sent) && SlotsInv(w.rx, sent)
    ensures Flatten(sent) == Flatten(w.sent) + data
  {
    FlattenSnoc(w.sent, data);
    forall i | 0 <= i < |w.log| && w.log[i].typ == RT_HANDSHAKE ensures Genuine(w.log[i].payload, sent) {}
    forall k | 0 <= k < |w.rx.slots| && w.rx.slots[k].Some? ensures Matches(w.rx.slots[k].value, sent) {}
  }

  /** Steps of the sending half alone, without a new message. */
  lemma TxChanges(w: World, w': World)
    requires Inv(w) && w' == w.(tx := w'.tx, savedAt := w'.savedAt, log := w'.log, used := w'.used, era := w'.era)
    requires w'.tx.writeSeq == w.tx.writeSeq && w'.tx.transcript == w.tx.transcript
    requires NumberInv(w'.tx, w'.era, w'.used, w'.log)
    requires Numbered(w) ==> FlightInv(w'.tx.msgs, w.sent) && LogInv(w'.log, w.sent)
    ensures Inv(w')
  {}

  /** Steps that only move the position, or change or drop the flight's flags. */
  lemma SetupKeeps(w: World, w': World)
    requires Inv(w) && w' == w.(tx := w'.tx, savedAt := w'.savedAt)
    requires w'.tx.writeSeq == w.tx.writeSeq && w'.tx.transcript == w.tx.transcript && w'.tx.epoch == w.tx.epoch
    requires w'.tx.cur == w.tx.cur && w'.tx.prev == w.tx.prev
    requires w'.tx.msgs == w.tx.msgs || w'.tx.msgs == []
    ensures Inv(w')
  {
    TxChanges(w, w');
  }

  /** A new message at the end of the flight. */
  lemma FlightGrows(msgs: seq<OutMsg>, sent: seq<bytes>, data: bytes, epoch: nat)
    requires FlightInv(msgs, sent) && MsgOk(data, |sent|)
    ensures FlightInv(msgs + [OutMsg(data, epoch, false)], sent + [data])
  {}

  lemma AddedTx(tx: Tx, tx': Tx, data: bytes) returns (msgs: seq<OutMsg>)
    requires (true, tx') == Added(tx, false, data)
    ensures tx.writeSeq + 1 < TWO_16 ==> tx'.writeSeq == tx.writeSeq + 1
    ensures tx'.transcript == tx.transcript + data
    ensures (msgs == tx.msgs || msgs == []) && tx'.msgs == msgs + [OutMsg(data, tx'.epoch, false)]
    ensures tx'.epoch == tx.epoch && tx'.cur == tx.cur && tx'.prev == tx.prev
  {
    msgs := if tx.complete then [] else tx.msgs;
  }

  /** The sending half knows of a new message. */
  lemma HonestGrows(w: World, msgs: seq<OutMsg>, tx: Tx, data: bytes)
    requires Honest(w) && MsgOk(data, |w.sent|) && |w.sent| + 1 < TWO_16
    requires tx.writeSeq == |w.sent| + 1 && tx.transcript == w.tx.transcript + data
    requires (msgs == w.tx.msgs || msgs == []) && tx.msgs == msgs + [OutMsg(data, tx.epoch, false)]
    ensures Honest(w.(tx := tx, sent := w.sent + [data]))
  {
    FlightGrows(msgs, w.sent, data, tx.epoch);
    SentGrows(w, data, w.sent + [data]);
    assert (w.sent + [data])[..w.rx.readSeq] == w.sent[..w.rx.readSeq];
  }

  /** A new message was added. */
  lemma AddedKeeps(w: World, tx: Tx, data: bytes)
    requires Inv(w) && (true, tx) == Added(w.tx, false, data)
    requires Numbered(w) ==> MsgOk(data, |w.sent|)
    ensures Inv(w.(tx := tx, sent := w.sent + [data]))
  {
    var msgs := AddedTx(w.tx, tx, data);
    if |w.sent| + 1 < TWO_16 { HonestGrows(w, msgs, tx, data); }
  }

  lemma AddKeeps(w: World, typ: byte, body: bytes)
    requires Inv(w) && |body| < TWO_24
    ensures Inv(AddData(w, false, BuildMessage(typ, body, w.tx.writeSeq)))
  {
    var data := BuildMessage(typ, body, w.tx.writeSeq);
    if Added(w.tx, false, data).0 {
      if Numbered(w) { BuiltMsgOk(typ, body, w.tx.writeSeq); }
      AddedKeeps(w, Added(w.tx, false, data).1, data);
    } else {
      SetupKeeps(w, AddData(w, false, data));
    }
  }

  lemma CcsGrows(msgs: seq<OutMsg>, sent: seq<bytes>, epoch: nat)
    requires FlightInv(msgs, sent)
    ensures FlightInv(msgs + [OutMsg([], epoch, true)], sent)
  {}

  lemma AddCcsKeeps(w: World)
    requires Inv(w)
    ensures Inv(AddData(w, true, []))
  {
    if Added(w.tx, true, []).0 {
      if Numbered(w) { CcsGrows(if w.tx.complete then [] else w.tx.msgs, w.sent, w.tx.epoch); }
      TxChanges(w, AddData(w, true, []));
    } else {
      SetupKeeps(w, AddData(w, true, []));
    }
  }

  lemma SliceIsGenuine(g: Fragment, sent: seq<bytes>, o: nat, n: nat)
    requires g.h.seqNum < |sent| && Whole(sent[g.h.seqNum]) == Some(g) && o + n <= |g.body| < TWO_24
    ensures Genuine(Slice(g, o, n), sent)
  {
    var f := Fragment(Header(g.h.typ, g.h.msgLen, g.h.seqNum, o, n), g.body[o..o + n]);
    FragmentRoundTrip(f, []);
    assert Slice(g, o, n) + [] == Slice(g, o, n);
  }

  lemma SealedFromFlight(tx: Tx, sent: seq<bytes>, maxOut: nat, cipherLen: Option<nat>)
    requires tx.written < |tx.msgs| && SentInv(sent) && FlightInv(tx.msgs, sent)
    requires SealNext(tx, maxOut, cipherLen).Progress?
    ensures var rec := SealNext(tx, maxOut, cipherLen).rec; rec.typ == RT_HANDSHAKE ==> Genuine(rec.payload, sent)
  {
    var msg := tx.msgs[tx.written];
    if !msg.isCcs {
      var g := WholeFragment(msg).value;
      assert MsgOk(sent[SeqOf(msg)], SeqOf(msg)) && Whole(msg.data) == Some(g);
      SliceIsGenuine(g, sent, tx.offset, Todo(tx, UseFor(tx, msg).value, g, maxOut));
    }
  }

  lemma SealRecordTakes(tx: Tx, use: UseEpoch, typ: byte, payload: bytes, cipherLen: Option<nat>, maxOut: nat)
    requires use.PreviousEpoch? ==> tx.epoch >= 1
    ensures var (rec, tx') := SealRecord(tx, use, typ, payload, cipherLen, maxOut); Takes(tx, tx', rec)
  {
    var (rec, tx') := SealRecord(tx, use, typ, payload, cipherLen, maxOut);
    assert TakesFrom(tx, tx', use, rec);
  }

  /** SealNext is one SealRecord, apart from the position. */
  lemma SealNextIsSealRecord(tx: Tx, maxOut: nat, cipherLen: Option<nat>)
      returns (use: UseEpoch, typ: byte, payload: bytes)
    requires tx.written < |tx.msgs| && !SealNext(tx, maxOut, cipherLen).NoProgress?
    ensures use.PreviousEpoch? ==> tx.epoch >= 1
    ensures var (rec, tx') := SealRecord(tx, use, typ, payload, cipherLen, maxOut);
      match SealNext(tx, maxOut, cipherLen)
      case SealError(t) => t == tx || (rec.None? && t == tx')
      case Progress(r, t, _) => rec == Some(r) && t == tx'.(offset := t.offset)
      case NoProgress => true
  {
    use, typ, payload := CurrentEpoch, RT_CCS, [1];
    var msg := tx.msgs[tx.written];
    if UseFor(tx, msg).Some? {
      use := UseFor(tx, msg).value;
      if !msg.isCcs && WholeFragment(msg).Some? {
        var f := WholeFragment(msg).value;
        if tx.offset <= |f.body| && maxOut >= HM_HEADER_LENGTH + 1 + Overhead(tx, use) {
          typ, payload := RT_HANDSHAKE, Slice(f, tx.offset, Todo(tx, use, f, maxOut));
        }
      }
    }
  }

  /** Takes only looks at the counters. */
  lemma TakesMoved(tx: Tx, t: Tx, t': Tx, rec: Option<Sealed>)
    requires Takes(tx, t, rec) && t'.epoch == t.epoch && t'.cur == t.cur && t'.prev == t.prev
    ensures Takes(tx, t', rec)
  {}

  lemma NothingTaken(tx: Tx)
    ensures Takes(tx, tx, None)
  {
    assert TakesFrom(tx, tx, CurrentEpoch, None);
  }

  lemma SealTakes(tx: Tx, maxOut: nat, cipherLen: Option<nat>)
    requires tx.written < |tx.msgs|
    ensures match SealNext(tx, maxOut, cipherLen)
      case NoProgress => true
      case SealError(t) => Takes(tx, t, None)
      case Progress(rec, t, _) => Takes(tx, t, Some(rec))
  {
    NothingTaken(tx);
    if !SealNext(tx, maxOut, cipherLen).NoProgress? {
      var use, typ, payload := SealNextIsSealRecord(tx, maxOut, cipherLen);
      SealRecordTakes(tx, use, typ, payload, cipherLen, maxOut);
      var (rec, tx') := SealRecord(tx, use, typ, payload, cipherLen, maxOut);
      if SealNext(tx, maxOut, cipherLen).Progress? { TakesMoved(tx, tx', SealNext(tx, maxOut, cipherLen).tx, rec); }
    }
  }

  lemma LogGrows(log: seq<Sealed>, rec: Sealed, sent: seq<bytes>)
    requires LogInv(log, sent) && (rec.typ == RT_HANDSHAKE ==> Genuine(rec.payload, sent))
    ensures LogInv(log + [rec], sent)
  {}

  /** A number was taken, and perhaps a record left with it. */
  lemma SpendKeeps(w: World, tx: Tx, rec: Option<Sealed>)
    requires Inv(w) && Takes(w.tx, tx, rec)
    requires tx.msgs == w.tx.msgs && tx.writeSeq == w.tx.writeSeq && tx.transcript == w.tx.transcript
    requires Numbered(w) && rec.Some? && rec.value.typ == RT_HANDSHAKE ==> Genuine(rec.value.payload, w.sent)
    ensures Inv(Spend(w, tx, rec))
  {
    TakesKeeps(w.tx, tx, w.era, w.used, w.log, rec);
    if Numbered(w) && rec.Some? { LogGrows(w.log, rec.value, w.sent); }
    TxChanges(w, Spend(w, tx, rec));
  }

  lemma SealKeeps(w: World, maxOut: nat, cipherLen: Option<nat>)
    requires Inv(w) && w.tx.written < |w.tx.msgs|
    ensures Inv(SealStep(w, maxOut, cipherLen))
  {
    var r := SealNext(w.tx, maxOut, cipherLen);
    SealNextSetup(w.tx, maxOut, cipherLen);
    SealTakes(w.tx, maxOut, cipherLen);
    match r
    case NoProgress =>
    case SealError(tx) => SpendKeeps(w, tx, None);
    case Progress(rec, tx, _) =>
      TakesMoved(w.tx, tx, Moved(r), Some(rec));
      if Numbered(w) { SealedFromFlight(w.tx, w.sent, maxOut, cipherLen); }
      SpendKeeps(w, Moved(r), Some(rec));
  }

  lemma OtherKeeps(w: World, typ: byte, payload: bytes, maxOut: nat, cipherLen: Option<nat>)
    requires Inv(w) && (typ == RT_APP_DATA || typ == RT_ALERT)
    ensures Inv(OtherRecord(w, typ, payload, maxOut, cipherLen))
  {
    var (rec, tx) := SealRecord(w.tx, CurrentEpoch, typ, payload, cipherLen, maxOut);
    SealRecordTakes(w.tx, CurrentEpoch, typ, payload, cipherLen, maxOut);
    SpendKeeps(w, tx, rec);
  }

  lemma {:induction false} NoneOfLater(used: seq<Use>, era: nat, e: nat)
    requires forall i {:trigger used[i]} :: 0 <= i < |used| ==> used[i].era <= era
    requires e > era
    ensures Count(used, e) == 0
    decreases |used|
  {
    if used != [] {
      var rest := used[..|used| - 1];
      assert forall i {:trigger rest[i]} :: 0 <= i < |rest| ==> rest[i] == used[i];
      NoneOfLater(rest, era, e);
    }
  }

  lemma NextEra(tx: Tx, era: nat, used: seq<Use>, log: seq<Sealed>, cipher: Cipher)
    requires NumberInv(tx, era, used, log)
    ensures NumberInv(NextWriteState(tx, cipher), era + 1, used, log)
  {
    NoneOfLater(used, era, era + 1);
    ModSucc(era, TWO_16);
  }

  lemma WriteEpochKeeps(w: World, cipher: Cipher)
    requires Inv(w)
    ensures Inv(SenderStep(w, NextWriteEpoch(cipher)))
  {
    NextEra(w.tx, w.era, w.used, w.log, cipher);
    TxChanges(w, SenderStep(w, NextWriteEpoch(cipher)));
  }

  lemma PositionKeeps(w: World, written: nat, offset: nat)
    requires Inv(w)
    ensures Inv(w.(tx := w.tx.(written := written, offset := offset)))
  {
    SetupKeeps(w, w.(tx := w.tx.(written := written, offset := offset)));
  }

  lemma FlagsKeep(w: World, complete: bool, hasReply: bool)
    requires Inv(w)
    ensures Inv(w.(tx := w.tx.(complete := complete, hasReply := hasReply)))
  {
    SetupKeeps(w, w.(tx := w.tx.(complete := complete, hasReply := hasReply)));
  }

  lemma ClearedKeeps(w: World)
    requires Inv(w)
    ensures Inv(w.(tx := Cleared(w.tx)))
  {
    SetupKeeps(w, w.(tx := Cleared(w.tx)));
  }

  lemma SenderKeeps(w: World, a: Action)
    requires Inv(w) && !FromReceiver(a)
    ensures Inv(SenderStep(w, a))
  {
    match a
    case AddMessage(typ, body) => if |body| < TWO_24 { AddKeeps(w, typ, body); }
    case AddCcs => AddCcsKeeps(w);
    case BeginPacket => SetupKeeps(w, SenderStep(w, a));
    case SealOne(maxOut, cipherLen) => if w.tx.written < |w.tx.msgs| { SealKeeps(w, maxOut, cipherLen); }
    case WriteFails => PositionKeeps(w, w.savedAt.0, w.savedAt.1);
    case Flush => FlagsKeep(w, true, w.tx.hasReply);
    case Rewind => PositionKeeps(w, 0, 0);
    case WriteOther(typ, payload, maxOut, cipherLen) =>
      if Writable(typ, payload) { OtherKeeps(w, typ, payload, maxOut, cipherLen); }
    case NextWriteEpoch(cipher) => WriteEpochKeeps(w, cipher);
    case Replied => if w.tx.complete { FlagsKeep(w, w.tx.complete, true); }
    case HandshakeDone => if w.tx.hasReply { ClearedKeeps(w); }
  }

  // ---- Receiver steps ----------------------------------------------------

  lemma AbsorbMatches(m: Incoming, f: Fragment, epoch: nat, sent: seq<bytes>)
    requires Matches(m, sent) && GenuineFragment(f, sent) && f.h.seqNum == m.seqNum
    ensures Matches(Absorb(m, f.h.fragOff, f.body, epoch), sent)
  {}

  /** A fragment of a sent message keeps every slot in agreement with what was sent. */
  lemma TakeKeepsSlots(rx: Rx, f: Fragment, maxLen: nat, sent: seq<bytes>)
    requires RxOk(rx) && SlotsInv(rx, sent) && SentInv(sent) && GenuineFragment(f, sent)
    ensures SlotsInv(TakeFragment(rx, f, maxLen).rx, sent)
  {
    var k, rx' := f.h.seqNum % N, TakeFragment(rx, f, maxLen).rx;
    if rx'.slots != rx.slots {
      if rx.slots[k].Some? {
        SlotNumber(rx, f.h.seqNum);
        AbsorbMatches(rx.slots[k].value, f, rx.epoch, sent);
      } else {
        AbsorbMatches(Fresh(f.h, rx.epoch), f, rx.epoch, sent);
      }
      assert rx'.slots == rx.slots[k := rx'.slots[k]] && Matches(rx'.slots[k].value, sent);
    }
  }

  lemma TakeKeepsEpochs(rx: Rx, f: Fragment, maxLen: nat)
    requires RxOk(rx) && EpochInv(rx) && |f.body| == f.h.fragLen
    ensures |TakeFragment(rx, f, maxLen).rx.slots| == N && EpochInv(TakeFragment(rx, f, maxLen).rx)
  {}

  lemma {:induction false} FragmentsKeepEpochs(rx: Rx, bs: bytes, maxLen: nat)
    requires RxOk(rx) && EpochInv(rx)
    ensures EpochInv(TakeFragments(rx, bs, maxLen).rx)
    decreases |bs|
  {
    if bs != [] && ParseFragment(bs).Done? {
      var f := ParseFragment(bs).value;
      TakeFragmentOk(rx, f, maxLen);
      TakeKeepsEpochs(rx, f, maxLen);
      if TakeFragment(rx, f, maxLen).Fine? {
        FragmentsKeepEpochs(TakeFragment(rx, f, maxLen).rx, ParseFragment(bs).rest, maxLen);
      }
    }
  }

  lemma {:induction false} FragmentsKeepPlace(rx: Rx, bs: bytes, maxLen: nat)
    requires RxOk(rx)
    ensures var rx' := TakeFragments(rx, bs, maxLen).rx;
      rx'.readSeq == rx.readSeq && rx'.epoch == rx.epoch && rx'.hasMessage == rx.hasMessage
    decreases |bs|
  {
    if bs != [] && ParseFragment(bs).Done? {
      var f := ParseFragment(bs).value;
      TakeFragmentOk(rx, f, maxLen);
      NeverAliases(rx, f, maxLen, 0);
      if TakeFragment(rx, f, maxLen).Fine? {
        FragmentsKeepPlace(TakeFragment(rx, f, maxLen).rx, ParseFragment(bs).rest, maxLen);
      }
    }
  }

  lemma {:induction false} GenuineKeepsSlots(rx: Rx, payload: bytes, maxLen: nat, sent: seq<bytes>)
    requires RxOk(rx) && SlotsInv(rx, sent) && SentInv(sent) && Genuine(payload, sent)
    ensures SlotsInv(TakeFragments(rx, payload, maxLen).rx, sent)
  {
    var f := ParseFragment(payload).value;
    TakeFragmentOk(rx, f, maxLen);
    TakeKeepsSlots(rx, f, maxLen, sent);
  }

  lemma AcceptKeeps(w: World, r: Sealed, opens: bool)
    requires Inv(w) && Accept(w, r, opens).Some?
    ensures Inv(Accept(w, r, opens).value)
  {
    RecordAgrees(w.window, w.accepted, SequenceNumber(r.epoch, r.number));
  }

  lemma HandshakeKeeps(rx: Rx, typ: byte, payload: bytes, nullCipher: bool, maxLen: nat)
    requires RxOk(rx) && EpochInv(rx)
    ensures var rx' := OpenHandshake(rx, typ, payload, nullCipher, maxLen).rx;
      EpochInv(rx') && rx'.readSeq == rx.readSeq && rx'.epoch == rx.epoch && rx'.hasMessage == rx.hasMessage
  {
    if typ == RT_HANDSHAKE {
      FragmentsKeepEpochs(rx, payload, maxLen);
      FragmentsKeepPlace(rx, payload, maxLen);
    }
  }

  lemma HandshakeKeepsSlots(rx: Rx, typ: byte, payload: bytes, nullCipher: bool, maxLen: nat, sent: seq<bytes>)
    requires RxOk(rx) && SlotsInv(rx, sent) && SentInv(sent) && (typ == RT_HANDSHAKE ==> Genuine(payload, sent))
    ensures SlotsInv(OpenHandshake(rx, typ, payload, nullCipher, maxLen).rx, sent)
  {
    if typ == RT_HANDSHAKE { GenuineKeepsSlots(rx, payload, maxLen, sent); }
  }

  /** Only the receiver's messages changed. */
  lemma RxChanges(w: World, rx: Rx, dead: bool)
    requires Inv(w) && RxOk(rx) && EpochInv(rx) && rx.readSeq == w.rx.readSeq
    requires Numbered(w) ==> SlotsInv(rx, w.sent)
    ensures Inv(w.(rx := rx, dead := dead))
  {}

  lemma ReceiveKeeps(w: World, i: nat, opens: bool)
    requires Inv(w) && i < |w.log|
    ensures Inv(ReceiveStep(w, w.log[i], opens))
  {
    var r := w.log[i];
    if Accept(w, r, opens).Some? {
      AcceptKeeps(w, r, opens);
      if r.typ != RT_ALERT {
        var v := OpenHandshake(w.rx, r.typ, r.payload, w.nullCipher, w.maxLen);
        HandshakeKeeps(w.rx, r.typ, r.payload, w.nullCipher, w.maxLen);
        if Numbered(w) { HandshakeKeepsSlots(w.rx, r.typ, r.payload, w.nullCipher, w.maxLen, w.sent); }
        RxChanges(Accept(w, r, opens).value, v.rx, v.Bad?);
      }
      RxChanges(w, w.rx, true);
    }
  }

  /** A complete message that agrees with the sent one on every byte is the sent one. */
  lemma CompleteIsSent(m: Incoming, sent: seq<bytes>)
    requires Matches(m, sent) && m.Complete() && SentInv(sent)
    ensures m.Raw() == sent[m.seqNum]
  {}

  lemma NextMessageKeeps(rx: Rx, sent: seq<bytes>)
    requires RxOk(rx) && rx.hasMessage && EpochInv(rx)
    ensures EpochInv(NextMessage(rx))
    ensures SlotsInv(rx, sent) ==> SlotsInv(NextMessage(rx), sent)
  {}

  lemma TakenIsNext(rx: Rx, sent: seq<bytes>)
    requires RxOk(rx) && rx.hasMessage && SlotsInv(rx, sent) && SentInv(sent)
    ensures rx.readSeq < |sent| && Current(rx).value.Raw() == sent[rx.readSeq]
  {
    SlotNumber(rx, rx.readSeq);
    CompleteIsSent(rx.slots[rx.readSeq % N].value, sent);
  }

  lemma TakeKeeps(w: World)
    requires Inv(w) && w.rx.hasMessage
    ensures Inv(w.(rx := NextMessage(w.rx), delivered := w.delivered + [Current(w.rx).value.Raw()]))
  {
    NextMessageKeeps(w.rx, w.sent);
    if Numbered(w) {
      TakenIsNext(w.rx, w.sent);
      DeliveredGrows(w, w.(rx := NextMessage(w.rx), delivered := w.delivered + [Current(w.rx).value.Raw()]));
    }
  }

  lemma DeliveredGrows(w: World, w': World)
    requires DeliveredInv(w) && w.rx.readSeq < |w.sent| < TWO_16 && w'.sent == w.sent
    requires w'.rx.readSeq == (w.rx.readSeq + 1) % TWO_16 && w'.delivered == w.delivered + [w.sent[w.rx.readSeq]]
    ensures DeliveredInv(w')
  {}

  lemma GetKeeps(w: World)
    requires Inv(w)
    ensures Inv(w.(rx := GetMessage(w.rx).1))
  {}

  lemma ReadEpochKeeps(w: World)
    requires Inv(w)
    ensures Inv(ReadEpochStep(w))
  {
    EmptyAgrees();
  }

  lemma ReceiveAfterKeeps(w: World, i: nat, opens: bool)
    requires Inv(w)
    ensures Inv(ReceiverStep(w, ReceiveAfter(i, opens)))
  {
    if i < |w.log| && Accept(w, w.log[i], opens).Some? { AcceptKeeps(w, w.log[i], opens); }
  }

  lemma TakeCcsKeeps(w: World)
    requires Inv(w)
    ensures Inv(ReceiverStep(w, TakeCcs))
  {}

  lemma ReceiverKeeps(w: World, a: Action)
    requires Inv(w) && FromReceiver(a)
    ensures Inv(ReceiverStep(w, a))
  {
    match a
    case Receive(i, opens) => if i < |w.log| { ReceiveKeeps(w, i, opens); }
    case ReceiveAfter(i, opens) => ReceiveAfterKeeps(w, i, opens);
    case Take => if w.rx.hasMessage { TakeKeeps(w); }
    case NextEpoch => ReadEpochKeeps(w);
    case Get => GetKeeps(w);
    case TakeCcs => TakeCcsKeeps(w);
  }

  // ---- Runs --------------------------------------------------------------

  lemma InitInv(cipher: Cipher, maxLen: nat)
    ensures Inv(Init(cipher, maxLen))
  {
    EmptyAgrees();
  }

  lemma NextInv(w: World, a: Action)
    requires Inv(w)
    ensures Inv(Next(w, a))
  {
    if !FromReceiver(a) { SenderKeeps(w, a); } else if !w.dead { ReceiverKeeps(w, a); }
  }

  ghost function RunFrom(w: World, actions: seq<Action>): (w': World)
    requires Inv(w)
    ensures Inv(w')
    decreases |actions|
  {
    if actions == [] then w else NextInv(w, actions[0]); RunFrom(Next(w, actions[0]), actions[1..])
  }

  ghost function Reached(cipher: Cipher, maxLen: nat, actions: seq<Action>): (w: World)
    ensures Inv(w)
  {
    InitInv(cipher, maxLen);
    RunFrom(Init(cipher, maxLen), actions)
  }
}
