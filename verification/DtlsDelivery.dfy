/** What one full pass of the flight achieves: exactly which messages a receiver has
    complete in its window after the records of the pass have come in, in whatever order
    and however often, through the record layer and its replay window. */
module DtlsDelivery {
  import opened Basics
  import opened DtlsCodec
  import opened DtlsReplay
  import opened DtlsWindow
  import opened DtlsFlight
  import opened DtlsRun
  import opened DtlsTheorems

  function NumberOf(rec: Sealed): nat
    requires ParseFragment(rec.payload).Done?
  {
    ParseFragment(rec.payload).value.h.seqNum
  }

  /** The record holds a fragment, perhaps an empty one, of message n. */
  predicate Mentions(rec: Sealed, n: nat) {
    rec.typ == RT_HANDSHAKE && ParseFragment(rec.payload).Done? && NumberOf(rec) == n
  }

  /** The window holds message n, or a part of it. */
  ghost predicate Has(rx: Rx, n: nat)
    requires |rx.slots| == N
  {
    rx.slots[n % N].Some? && rx.slots[n % N].value.seqNum == n
  }

  /** And body byte i of it. */
  ghost predicate Got(rx: Rx, n: nat, i: nat)
    requires |rx.slots| == N
  {
    Has(rx, n) && i in rx.slots[n % N].value.covered
  }

  /** And all of it. */
  ghost predicate Delivered(rx: Rx, n: nat)
    requires |rx.slots| == N
  {
    Has(rx, n) && rx.slots[n % N].value.Complete()
  }

  // ---- Which records the replay window lets through ----------------------

  function Seq(rec: Sealed): nat {
    SequenceNumber(rec.epoch, rec.number)
  }

  /** The arrivals that the record layer accepts, in order. */
  function Admitted(win: Window, epoch: nat, rs: seq<Sealed>): seq<Sealed>
    decreases |rs|
  {
    if rs == [] then []
    else match Admit(win, epoch, rs[0].epoch, rs[0].number, true)
      case None => Admitted(win, epoch, rs[1..])
      case Some(win') => [rs[0]] + Admitted(win', epoch, rs[1..])
  }

  /** The record arrives, and when it first does its number is less than 64 below the highest
      one of its epoch until then. */
  predicate InTime(high: nat, rs: seq<Sealed>, rec: Sealed)
    decreases |rs|
  {
    && rs != []
    && (if rs[0] == rec then Seq(rec) + WINDOW > high
        else InTime(if rs[0].epoch == rec.epoch then Max(high, Seq(rs[0])) else high, rs[1..], rec))
  }

  lemma {:induction false} NeverLater(win: Window, accepted: set<nat>, epoch: nat, rs: seq<Sealed>, rec: Sealed)
    requires Agrees(win, accepted) && Seq(rec) + WINDOW <= win.maxSeq
    ensures rec !in Admitted(win, epoch, rs)
    decreases |rs|
  {
    if rs != [] {
      DiscardExact(win, accepted, Seq(rs[0]));
      RecordAgrees(win, accepted, Seq(rs[0]));
      match Admit(win, epoch, rs[0].epoch, rs[0].number, true)
      case None => NeverLater(win, accepted, epoch, rs[1..], rec);
      case Some(win') => NeverLater(win', accepted + {Seq(rs[0])}, epoch, rs[1..], rec);
    }
  }

  /** A record not accepted before is accepted exactly when it comes in time. */
  lemma {:induction false} InTimeExactly(win: Window, accepted: set<nat>, epoch: nat, rs: seq<Sealed>, rec: Sealed)
    requires Agrees(win, accepted) && rec.epoch == epoch && Seq(rec) !in accepted
    requires forall r :: r in rs && r.epoch == epoch && r.number == rec.number ==> r == rec
    ensures rec in Admitted(win, epoch, rs) <==> InTime(win.maxSeq, rs, rec)
    decreases |rs|
  {
    if rs != [] {
      var r, rest := rs[0], rs[1..];
      assert forall q :: q in rest ==> q in rs;
      DiscardExact(win, accepted, Seq(r));
      if r == rec {
        if Seq(rec) + WINDOW <= win.maxSeq { NeverLater(win, accepted, epoch, rest, rec); }
      } else {
        RecordAgrees(win, accepted, Seq(r));
        match Admit(win, epoch, r.epoch, r.number, true)
        case None => InTimeExactly(win, accepted, epoch, rest, rec);
        case Some(win') => InTimeExactly(win', accepted + {Seq(r)}, epoch, rest, rec);
      }
    }
  }

  // ---- What the arrivals leave in the window -----------------------------

  /** The records one after the other, as the receiver of a run takes them. */
  ghost function Arrive(w: World, rs: seq<Sealed>): World
    requires RxOk(w.rx)
    decreases |rs|
  {
    if rs == [] then w else Arrive(ReceiveStep(w, rs[0], true), rs[1..])
  }

  /** A record that does not end the connection: if it is of the read epoch, it is a
      ChangeCipherSpec in the clear, or a fragment of a sent message that is not ahead of
      the window and, in the epoch of the single message, is of that message. */
  ghost predicate Harmless(rx: Rx, nullCipher: bool, maxLen: nat, sent: seq<bytes>, r: Sealed) {
    r.epoch == rx.epoch ==>
      && |r.payload| <= MAX_PLAIN_LENGTH
      && (r.typ == RT_CCS || r.typ == RT_HANDSHAKE)
      && (r.typ == RT_CCS ==> nullCipher && r.payload == [1])
      && (r.typ == RT_HANDSHAKE ==>
           && Genuine(r.payload, sent) && NumberOf(r) < rx.readSeq + N && (rx.epoch == 1 ==> NumberOf(r) == rx.readSeq)
           && Whole(sent[NumberOf(r)]).Some? && |Whole(sent[NumberOf(r)]).value.body| <= maxLen)
  }

  /** A genuine fragment is the whole payload, and is never refused. */
  lemma {:induction false} FragmentTaken(rx: Rx, rec: Sealed, maxLen: nat, sent: seq<bytes>)
    requires RxOk(rx) && SlotsInv(rx, sent) && SentInv(sent) && rec.epoch == rx.epoch && rec.typ == RT_HANDSHAKE
    requires Harmless(rx, true, maxLen, sent, rec)
    ensures var f := ParseFragment(rec.payload).value;
      TakeFragment(rx, f, maxLen).Fine? && TakeFragments(rx, rec.payload, maxLen) == TakeFragment(rx, f, maxLen)
  {
    var f := ParseFragment(rec.payload).value;
    TakeFragmentOk(rx, f, maxLen);
    assert MsgOk(sent[f.h.seqNum], f.h.seqNum);
    if rx.readSeq <= f.h.seqNum && rx.slots[f.h.seqNum % N].Some? {
      SlotNumber(rx, f.h.seqNum);
      assert Matches(rx.slots[f.h.seqNum % N].value, sent);
    }
  }

  lemma SlotAdds(rx: Rx, f: Fragment, maxLen: nat, n: nat, i: nat)
    requires RxOk(rx) && |f.body| == f.h.fragLen && f.h.Fits() && f.h.fragOff + f.h.fragLen <= f.h.msgLen
    requires TakeFragment(rx, f, maxLen).Fine? && rx.readSeq <= n && f.h.seqNum < rx.readSeq + N
    ensures var rx' := TakeFragment(rx, f, maxLen).rx;
      && RxOk(rx') && rx'.readSeq == rx.readSeq && rx'.epoch == rx.epoch
      && (Has(rx', n) <==> Has(rx, n) || f.h.seqNum == n)
      && (Got(rx', n, i) <==> Got(rx, n, i) || (f.h.seqNum == n && f.h.fragOff <= i < f.h.fragOff + f.h.fragLen))
  {
    TakeFragmentOk(rx, f, maxLen);
    var rx' := TakeFragment(rx, f, maxLen).rx;
    NeverAliases(rx, f, maxLen, n % N);
    if f.h.seqNum == n && rx.slots[n % N].Some? { SlotNumber(rx, n); }
  }

  /** One genuine fragment adds its bytes to its message, and nothing else. */
  lemma {:induction false} FragmentAdds(rx: Rx, rec: Sealed, maxLen: nat, sent: seq<bytes>, n: nat, i: nat)
    requires RxOk(rx) && SlotsInv(rx, sent) && SentInv(sent) && rec.epoch == rx.epoch && rec.typ == RT_HANDSHAKE
    requires Harmless(rx, true, maxLen, sent, rec) && rx.readSeq <= n
    ensures var v := TakeFragments(rx, rec.payload, maxLen);
      && v.Fine? && SlotsInv(v.rx, sent) && v.rx.readSeq == rx.readSeq && v.rx.epoch == rx.epoch
      && (Has(v.rx, n) <==> Has(rx, n) || Mentions(rec, n))
      && (Got(v.rx, n, i) <==> Got(rx, n, i) || Carries(rec, n, i))
  {
    GenuineKeepsSlots(rx, rec.payload, maxLen, sent);
    FragmentTaken(rx, rec, maxLen, sent);
    SlotAdds(rx, ParseFragment(rec.payload).value, maxLen, n, i);
  }

  /** What stays the same while records arrive. */
  ghost predicate Steady(w: World, w': World) {
    && !w'.dead && RxOk(w'.rx) && SlotsInv(w'.rx, w.sent) && w'.sent == w.sent && w'.log == w.log
    && w'.rx.readSeq == w.rx.readSeq && w'.rx.epoch == w.rx.epoch
    && w'.nullCipher == w.nullCipher && w'.maxLen == w.maxLen
  }

  ghost predicate Listening(w: World) {
    !w.dead && RxOk(w.rx) && SlotsInv(w.rx, w.sent) && SentInv(w.sent)
  }

  lemma ArriveOne(w: World, r: Sealed, n: nat, i: nat)
    requires Listening(w) && Harmless(w.rx, w.nullCipher, w.maxLen, w.sent, r) && w.rx.readSeq <= n
    ensures var w' := ReceiveStep(w, r, true);
      var admitted := Admit(w.window, w.rx.epoch, r.epoch, r.number, true);
      && Steady(w, w')
      && w'.window == (if admitted.Some? then admitted.value else w.window)
      && (Has(w'.rx, n) <==> Has(w.rx, n) || (admitted.Some? && Mentions(r, n)))
      && (Got(w'.rx, n, i) <==> Got(w.rx, n, i) || (admitted.Some? && Carries(r, n, i)))
  {
    if Admit(w.window, w.rx.epoch, r.epoch, r.number, true).Some? && r.typ == RT_HANDSHAKE {
      FragmentAdds(w.rx, r, w.maxLen, w.sent, n, i);
    }
  }

  ghost predicate SomeMentions(rs: seq<Sealed>, n: nat) {
    exists r :: r in rs && Mentions(r, n)
  }

  ghost predicate SomeCarries(rs: seq<Sealed>, n: nat, i: nat) {
    exists r :: r in rs && Carries(r, n, i)
  }

  lemma OneMore(r: Sealed, rs: seq<Sealed>, n: nat, i: nat)
    ensures SomeMentions([r] + rs, n) <==> Mentions(r, n) || SomeMentions(rs, n)
    ensures SomeCarries([r] + rs, n, i) <==> Carries(r, n, i) || SomeCarries(rs, n, i)
  {
    assert r in [r] + rs && forall q :: q in rs ==> q in [r] + rs;
  }

  /** The window holds what it held before, and what the given records carry. */
  ghost predicate HoldsMore(rx: Rx, rx': Rx, taken: seq<Sealed>, n: nat, i: nat)
    requires |rx.slots| == N && |rx'.slots| == N
  {
    && (Has(rx', n) <==> Has(rx, n) || SomeMentions(taken, n))
    && (Got(rx', n, i) <==> Got(rx, n, i) || SomeCarries(taken, n, i))
  }

  lemma AlsoHarmless(w: World, w1: World, rs: seq<Sealed>)
    requires Steady(w, w1) && forall r :: r in rs ==> Harmless(w.rx, w.nullCipher, w.maxLen, w.sent, r)
    ensures forall r :: r in rs ==> Harmless(w1.rx, w1.nullCipher, w1.maxLen, w1.sent, r)
  {}

  lemma TwoSteps(w: World, w1: World, w2: World, r: Sealed, rest: seq<Sealed>, n: nat, i: nat)
    requires Steady(w, w1) && Steady(w1, w2) && |w.rx.slots| == N && HoldsMore(w1.rx, w2.rx, rest, n, i)
    requires Has(w1.rx, n) <==> Has(w.rx, n) || Mentions(r, n)
    requires Got(w1.rx, n, i) <==> Got(w.rx, n, i) || Carries(r, n, i)
    ensures Steady(w, w2) && HoldsMore(w.rx, w2.rx, [r] + rest, n, i)
  {
    OneMore(r, rest, n, i);
  }

  /** After the arrivals the window holds what it held, and what the accepted ones carried. */
  lemma {:induction false} ArriveAll(w: World, rs: seq<Sealed>, n: nat, i: nat)
    requires Listening(w) && w.rx.readSeq <= n
    requires forall r :: r in rs ==> Harmless(w.rx, w.nullCipher, w.maxLen, w.sent, r)
    ensures Steady(w, Arrive(w, rs))
    ensures HoldsMore(w.rx, Arrive(w, rs).rx, Admitted(w.window, w.rx.epoch, rs), n, i)
    decreases |rs|
  {
    if rs != [] {
      var w1, rest := ReceiveStep(w, rs[0], true), rs[1..];
      ArriveOne(w, rs[0], n, i);
      assert forall r :: r in rest ==> r in rs;
      AlsoHarmless(w, w1, rest);
      ArriveAll(w1, rest, n, i);
      if Admit(w.window, w.rx.epoch, rs[0].epoch, rs[0].number, true).Some? {
        TwoSteps(w, w1, Arrive(w1, rest), rs[0], Admitted(w1.window, w1.rx.epoch, rest), n, i);
      }
    }
  }

  lemma {:induction false} TakenArrived(win: Window, epoch: nat, rs: seq<Sealed>, r: Sealed)
    requires r in Admitted(win, epoch, rs)
    ensures r in rs && r.epoch == epoch
    decreases |rs|
  {
    match Admit(win, epoch, rs[0].epoch, rs[0].number, true)
    case None => TakenArrived(win, epoch, rs[1..], r);
    case Some(win') => if r != rs[0] { TakenArrived(win', epoch, rs[1..], r); }
  }

  // ---- What a full pass carries ------------------------------------------

  lemma {:induction false} CarriedBySome(recs: seq<Sealed>, s: nat, i: nat) returns (r: Sealed)
    requires Copies(recs, s, i) > 0
    ensures r in recs && Carries(r, s, i)
    decreases |recs|
  {
    if Carries(recs[0], s, i) { r := recs[0]; } else { r := CarriedBySome(recs[1..], s, i); }
  }

  lemma {:induction false} CopiesOf(recs: seq<Sealed>, s: nat, i: nat, r: Sealed)
    requires r in recs && Carries(r, s, i)
    ensures Copies(recs, s, i) >= 1
    ensures forall q :: q in recs && Carries(q, s, i) && q != r ==> Copies(recs, s, i) >= 2
    decreases |recs|
  {
    forall q | q in recs && Carries(q, s, i) && q != r ensures Copies(recs, s, i) >= 2 {
      if recs[0] == r {
        AtLeastOne(recs[1..], s, i, q);
      } else if recs[0] == q {
        AtLeastOne(recs[1..], s, i, r);
      } else {
        CopiesOf(recs[1..], s, i, r);
      }
    }
    AtLeastOne(recs, s, i, r);
  }

  lemma {:induction false} AtLeastOne(recs: seq<Sealed>, s: nat, i: nat, r: Sealed)
    requires r in recs && Carries(r, s, i)
    ensures Copies(recs, s, i) >= 1
    decreases |recs|
  {
    if recs[0] != r { AtLeastOne(recs[1..], s, i, r); }
  }

  lemma AfterIsFor(msgs: seq<OutMsg>, sent: seq<bytes>, w: nat, o: nat, rec: Sealed)
    requires After(msgs, w, o, rec).Some? && !msgs[w].isCcs && FlightInv(msgs, sent) && SentInv(sent)
    ensures rec.typ == RT_HANDSHAKE && Genuine(rec.payload, sent) && NumberOf(rec) == SeqOf(msgs[w])
    ensures Whole(sent[SeqOf(msgs[w])]) == WholeFragment(msgs[w])
  {
    var g := WholeFragment(msgs[w]).value;
    assert MsgOk(sent[SeqOf(msgs[w])], SeqOf(msgs[w])) && Whole(msgs[w].data) == Some(g);
    SliceIsFor(g, sent, o, |rec.payload| - HM_HEADER_LENGTH, rec.payload);
  }

  lemma SliceIsFor(g: Fragment, sent: seq<bytes>, o: nat, n: nat, payload: bytes)
    requires g.h.seqNum < |sent| && Whole(sent[g.h.seqNum]) == Some(g)
    requires o + n <= |g.body| && payload == Slice(g, o, n)
    ensures Genuine(payload, sent) && ParseFragment(payload).value.h.seqNum == g.h.seqNum
  {
    SliceIsGenuine(g, sent, o, n);
    var f := Fragment(Header(g.h.typ, g.h.msgLen, g.h.seqNum, o, n), g.body[o..o + n]);
    FragmentRoundTrip(f, []);
    assert payload + [] == payload;
  }

  /** Every record of a pass belongs to a message of the flight. */
  ghost predicate BelongsTo(msgs: seq<OutMsg>, sent: seq<bytes>, r: Sealed, j: nat) {
    && j < |msgs| && r.epoch == msgs[j].epoch
    && (if msgs[j].isCcs then r.typ == RT_CCS && r.payload == [1]
        else r.typ == RT_HANDSHAKE && Genuine(r.payload, sent) && NumberOf(r) == SeqOf(msgs[j]))
  }

  lemma {:induction false} PassRecord(msgs: seq<OutMsg>, sent: seq<bytes>, w: nat, o: nat, recs: seq<Sealed>,
                                      w': nat, o': nat, r: Sealed) returns (j: nat)
    requires Tiles(msgs, w, o, recs, w', o') && FlightInv(msgs, sent) && SentInv(sent) && r in recs
    ensures w <= j && BelongsTo(msgs, sent, r, j)
    decreases |recs|
  {
    if r == recs[0] {
      j := w;
      if !msgs[w].isCcs { AfterIsFor(msgs, sent, w, o, r); }
    } else {
      var p := After(msgs, w, o, recs[0]).value;
      j := PassRecord(msgs, sent, p.0, p.1, recs[1..], w', o', r);
    }
  }

  /** Every message passed over has a record of its own, even an empty one. */
  lemma {:induction false} MentionedBySome(msgs: seq<OutMsg>, sent: seq<bytes>, w: nat, o: nat, recs: seq<Sealed>,
                                           w': nat, o': nat, j: nat) returns (r: Sealed)
    requires Tiles(msgs, w, o, recs, w', o') && FlightInv(msgs, sent) && SentInv(sent)
    requires w <= j < w' && j < |msgs| && !msgs[j].isCcs
    ensures r in recs && Mentions(r, SeqOf(msgs[j]))
    decreases |recs|
  {
    var p := After(msgs, w, o, recs[0]).value;
    if w == j {
      r := recs[0];
      AfterIsFor(msgs, sent, w, o, r);
    } else {
      r := MentionedBySome(msgs, sent, p.0, p.1, recs[1..], w', o', j);
    }
  }

  /** A record that mentions a message either carries a byte of it, or the message is empty
      and no other record mentions it. */
  lemma {:induction false} CarriesSome(msgs: seq<OutMsg>, sent: seq<bytes>, w: nat, o: nat, recs: seq<Sealed>,
                                       w': nat, o': nat, j: nat, r: Sealed) returns (i: nat)
    requires Tiles(msgs, w, o, recs, w', o') && FlightInv(msgs, sent) && SentInv(sent) && FlightOk(msgs)
    requires w < |msgs| && !msgs[w].isCcs ==> o == 0 || o < |WholeFragment(msgs[w]).value.body|
    requires j < |msgs| && !msgs[j].isCcs && r in recs && Mentions(r, SeqOf(msgs[j]))
    requires |WholeFragment(msgs[j]).value.body| > 0
    ensures Carries(r, SeqOf(msgs[j]), i)
    decreases |recs|
  {
    var p := After(msgs, w, o, recs[0]).value;
    if r == recs[0] {
      AfterIsFor(msgs, sent, w, o, r);
      i := o;
      SliceCarries(WholeFragment(msgs[w]).value, o, |r.payload| - HM_HEADER_LENGTH, r, SeqOf(msgs[w]), o);
    } else {
      i := CarriesSome(msgs, sent, p.0, p.1, recs[1..], w', o', j, r);
    }
  }

  /** An empty message has only one record. */
  lemma {:induction false} OnlyMention(msgs: seq<OutMsg>, sent: seq<bytes>, w: nat, o: nat, recs: seq<Sealed>,
                                       w': nat, o': nat, j: nat, r: Sealed, q: Sealed)
    requires Tiles(msgs, w, o, recs, w', o') && FlightInv(msgs, sent) && SentInv(sent) && FlightOk(msgs)
    requires j < |msgs| && !msgs[j].isCcs && WholeFragment(msgs[j]).value.body == []
    requires r in recs && q in recs && Mentions(r, SeqOf(msgs[j])) && Mentions(q, SeqOf(msgs[j]))
    ensures r == q
    decreases |recs|
  {
    var p := After(msgs, w, o, recs[0]).value;
    if r != q {
      if r == recs[0] || q == recs[0] {
        AfterIsFor(msgs, sent, w, o, recs[0]);
        var k := PassRecord(msgs, sent, p.0, p.1, recs[1..], w', o', if r == recs[0] then q else r);
      } else {
        OnlyMention(msgs, sent, p.0, p.1, recs[1..], w', o', j, r, q);
      }
    }
  }

  // ---- One pass ----------------------------------------------------------

  lemma FlightIsOk(msgs: seq<OutMsg>, sent: seq<bytes>)
    requires FlightInv(msgs, sent) && SentInv(sent)
    ensures FlightOk(msgs)
  {}

  /** recs are the records of one full pass of the flight that is still in place, none of
      them accepted before. */
  ghost predicate Pass(w: World, recs: seq<Sealed>) {
    && Tiles(w.tx.msgs, 0, 0, recs, |w.tx.msgs|, 0) && DistinctRecords(w.log)
    && forall r :: r in recs ==> r in w.log && (r.epoch == w.rx.epoch ==> Seq(r) !in w.accepted)
  }

  /** The receiver is ready for the messages of its read epoch: they are not ahead of the
      window, and in the epoch of the single message there is only that message. */
  ghost predicate Expects(w: World, recs: seq<Sealed>)
    requires SentInv(w.sent) && FlightInv(w.tx.msgs, w.sent)
  {
    && (forall k {:trigger w.tx.msgs[k]} :: 0 <= k < |w.tx.msgs| && w.tx.msgs[k].epoch == w.rx.epoch ==>
         if w.tx.msgs[k].isCcs then w.nullCipher
         else
           && SeqOf(w.tx.msgs[k]) < w.rx.readSeq + N && (w.rx.epoch == 1 ==> SeqOf(w.tx.msgs[k]) == w.rx.readSeq)
           && WholeFragment(w.tx.msgs[k]).Some? && |WholeFragment(w.tx.msgs[k]).value.body| <= w.maxLen)
    && forall r :: r in recs && r.epoch == w.rx.epoch ==> |r.payload| <= MAX_PLAIN_LENGTH
  }

  lemma PassHarmless(w: World, recs: seq<Sealed>, r: Sealed)
    requires SentInv(w.sent) && FlightInv(w.tx.msgs, w.sent) && Pass(w, recs) && Expects(w, recs) && r in recs
    ensures Harmless(w.rx, w.nullCipher, w.maxLen, w.sent, r)
  {
    var j := PassRecord(w.tx.msgs, w.sent, 0, 0, recs, |w.tx.msgs|, 0, r);
    var msg := w.tx.msgs[j];
    if r.epoch == w.rx.epoch && !msg.isCcs {
      assert MsgOk(w.sent[SeqOf(msg)], SeqOf(msg)) && Whole(msg.data) == WholeFragment(msg);
    }
  }

  /** The window already holds everything the record carries. */
  ghost predicate Known(rx: Rx, r: Sealed, n: nat)
    requires |rx.slots| == N
  {
    Has(rx, n) && forall i: nat {:trigger Got(rx, n, i)} :: Carries(r, n, i) ==> Got(rx, n, i)
  }

  /** The record's content is in the window after the arrivals: it came in time, or was known. */
  ghost predicate Counts(w: World, rs: seq<Sealed>, r: Sealed, n: nat)
    requires |w.rx.slots| == N
  {
    InTime(w.window.maxSeq, rs, r) || Known(w.rx, r, n)
  }

  /** Sender and receiver as a run leaves them. */
  ghost predicate Sound(w: World) {
    Listening(w) && FlightInv(w.tx.msgs, w.sent) && Agrees(w.window, w.accepted)
  }

  lemma {:induction false} PassTaken(w: World, recs: seq<Sealed>, rs: seq<Sealed>, r: Sealed)
    requires Sound(w) && Pass(w, recs) && r in recs && r.epoch == w.rx.epoch
    requires forall q :: q in rs ==> q in recs
    ensures r in Admitted(w.window, w.rx.epoch, rs) <==> InTime(w.window.maxSeq, rs, r)
  {
    forall q | q in rs && q.epoch == r.epoch && q.number == r.number ensures q == r {
      assert q in recs && q in w.log && r in w.log;
    }
    InTimeExactly(w.window, w.accepted, w.rx.epoch, rs, r);
  }

  lemma DeliveredMeans(rx: Rx, sent: seq<bytes>, n: nat)
    requires |rx.slots| == N && SlotsInv(rx, sent) && SentInv(sent)
    ensures Delivered(rx, n) <==>
      Has(rx, n) && forall i: nat {:trigger Got(rx, n, i)} :: i < |Whole(sent[n]).value.body| ==> Got(rx, n, i)
    ensures Has(rx, n) ==> n < |sent| && Whole(sent[n]).Some?
    ensures Delivered(rx, n) ==> rx.slots[n % N].value.Raw() == sent[n]
  {
    if Has(rx, n) {
      assert Matches(rx.slots[n % N].value, sent);
      if Delivered(rx, n) {
        CompleteIsSent(rx.slots[n % N].value, sent);
        forall i: nat | i < |Whole(sent[n]).value.body| ensures Got(rx, n, i) {}
      }
      if forall i: nat {:trigger Got(rx, n, i)} :: i < |Whole(sent[n]).value.body| ==> Got(rx, n, i) {
        forall i: nat | i < rx.slots[n % N].value.msgLen ensures i in rx.slots[n % N].value.covered {
          assert Got(rx, n, i);
        }
      }
    }
  }

  /** A handshake message of the flight. */
  ghost predicate Handshake(w: World, j: nat) {
    && j < |w.tx.msgs| && !w.tx.msgs[j].isCcs && w.rx.readSeq <= SeqOf(w.tx.msgs[j])
  }

  lemma SameBody(w: World, j: nat)
    requires Sound(w) && Handshake(w, j)
    ensures SeqOf(w.tx.msgs[j]) < |w.sent|
    ensures WholeFragment(w.tx.msgs[j]).Some? && Whole(w.sent[SeqOf(w.tx.msgs[j])]) == WholeFragment(w.tx.msgs[j])
  {
    var msg := w.tx.msgs[j];
    assert MsgOk(w.sent[SeqOf(msg)], SeqOf(msg)) && Whole(msg.data) == WholeFragment(msg);
  }

  lemma {:induction false} PassArrives(w: World, recs: seq<Sealed>, rs: seq<Sealed>, n: nat, i: nat)
    requires Sound(w) && Pass(w, recs) && Expects(w, recs) && w.rx.readSeq <= n
    requires forall r :: r in rs ==> r in recs
    ensures Steady(w, Arrive(w, rs))
    ensures HoldsMore(w.rx, Arrive(w, rs).rx, Admitted(w.window, w.rx.epoch, rs), n, i)
  {
    forall r | r in rs ensures Harmless(w.rx, w.nullCipher, w.maxLen, w.sent, r) { PassHarmless(w, recs, r); }
    ArriveAll(w, rs, n, i);
  }

  /** A record of the pass that mentions message j has its epoch. */
  lemma RightEpoch(w: World, recs: seq<Sealed>, r: Sealed, j: nat)
    requires Sound(w) && Pass(w, recs) && Handshake(w, j) && r in recs && Mentions(r, SeqOf(w.tx.msgs[j]))
    ensures r.epoch == w.tx.msgs[j].epoch
  {
    var k := PassRecord(w.tx.msgs, w.sent, 0, 0, recs, |w.tx.msgs|, 0, r);
  }

  /** If every record of a message came in time or brought nothing new, the message is there. */
  lemma {:induction false} Enough(w: World, recs: seq<Sealed>, rs: seq<Sealed>, j: nat)
    requires Sound(w) && Pass(w, recs) && Expects(w, recs) && Handshake(w, j)
    requires w.tx.msgs[j].epoch == w.rx.epoch && forall r :: r in rs ==> r in recs
    requires forall r :: r in recs && Mentions(r, SeqOf(w.tx.msgs[j])) ==> Counts(w, rs, r, SeqOf(w.tx.msgs[j]))
    ensures Steady(w, Arrive(w, rs)) && Delivered(Arrive(w, rs).rx, SeqOf(w.tx.msgs[j]))
  {
    var n, rx', taken := SeqOf(w.tx.msgs[j]), Arrive(w, rs).rx, Admitted(w.window, w.rx.epoch, rs);
    SameBody(w, j);
    FlightIsOk(w.tx.msgs, w.sent);
    PassArrives(w, recs, rs, n, 0);
    var first := MentionedBySome(w.tx.msgs, w.sent, 0, 0, recs, |w.tx.msgs|, 0, j);
    RightEpoch(w, recs, first, j);
    PassTaken(w, recs, rs, first);
    forall i: nat | i < |Whole(w.sent[n]).value.body| ensures Got(rx', n, i) {
      EachByteOnce(w.tx.msgs, 0, 0, recs, |w.tx.msgs|, 0, j, i);
      var r := CarriedBySome(recs, n, i);
      RightEpoch(w, recs, r, j);
      PassTaken(w, recs, rs, r);
      PassArrives(w, recs, rs, n, i);
      assert Counts(w, rs, r, n);
    }
    DeliveredMeans(rx', w.sent, n);
  }

  /** And only then. */
  lemma {:induction false} Needed(w: World, recs: seq<Sealed>, rs: seq<Sealed>, j: nat, r: Sealed)
    requires Sound(w) && Pass(w, recs) && Expects(w, recs) && Handshake(w, j)
    requires w.tx.msgs[j].epoch == w.rx.epoch && forall q :: q in rs ==> q in recs
    requires r in recs && Mentions(r, SeqOf(w.tx.msgs[j]))
    requires RxOk(Arrive(w, rs).rx) && Delivered(Arrive(w, rs).rx, SeqOf(w.tx.msgs[j]))
    ensures Counts(w, rs, r, SeqOf(w.tx.msgs[j]))
  {
    var n, rx', taken := SeqOf(w.tx.msgs[j]), Arrive(w, rs).rx, Admitted(w.window, w.rx.epoch, rs);
    SameBody(w, j);
    FlightIsOk(w.tx.msgs, w.sent);
    RightEpoch(w, recs, r, j);
    PassTaken(w, recs, rs, r);
    PassArrives(w, recs, rs, n, 0);
    DeliveredMeans(rx', w.sent, n);
    if r !in taken {
      forall i: nat | Carries(r, n, i) ensures Got(w.rx, n, i) { ByteKnown(w, recs, rs, j, r, i); }
      if WholeFragment(w.tx.msgs[j]).value.body == [] {
        if !Has(w.rx, n) {
          var q :| q in taken && Mentions(q, n);
          TakenArrived(w.window, w.rx.epoch, rs, q);
          OnlyMention(w.tx.msgs, w.sent, 0, 0, recs, |w.tx.msgs|, 0, j, r, q);
        }
      } else {
        var i := CarriesSome(w.tx.msgs, w.sent, 0, 0, recs, |w.tx.msgs|, 0, j, r);
      }
    }
  }

  /** A byte that is there although its record was not accepted was there before. */
  lemma {:induction false} ByteKnown(w: World, recs: seq<Sealed>, rs: seq<Sealed>, j: nat, r: Sealed, i: nat)
    requires Sound(w) && Pass(w, recs) && Expects(w, recs) && Handshake(w, j)
    requires forall q :: q in rs ==> q in recs
    requires r in recs && Carries(r, SeqOf(w.tx.msgs[j]), i) && r !in Admitted(w.window, w.rx.epoch, rs)
    requires RxOk(Arrive(w, rs).rx) && Delivered(Arrive(w, rs).rx, SeqOf(w.tx.msgs[j]))
    ensures Got(w.rx, SeqOf(w.tx.msgs[j]), i)
  {
    var n, taken := SeqOf(w.tx.msgs[j]), Admitted(w.window, w.rx.epoch, rs);
    SameBody(w, j);
    FlightIsOk(w.tx.msgs, w.sent);
    PassArrives(w, recs, rs, n, i);
    DeliveredMeans(Arrive(w, rs).rx, w.sent, n);
    var k := PassRecord(w.tx.msgs, w.sent, 0, 0, recs, |w.tx.msgs|, 0, r);
    InBody(w, j, r, i, k);
    assert Got(Arrive(w, rs).rx, n, i);
    if !Got(w.rx, n, i) {
      var q :| q in taken && Carries(q, n, i);
      TakenArrived(w.window, w.rx.epoch, rs, q);
      EachByteOnce(w.tx.msgs, 0, 0, recs, |w.tx.msgs|, 0, j, i);
      CopiesOf(recs, n, i, r);
    }
  }

  lemma InBody(w: World, j: nat, r: Sealed, i: nat, k: nat)
    requires Sound(w) && Handshake(w, j) && BelongsTo(w.tx.msgs, w.sent, r, k) && Carries(r, SeqOf(w.tx.msgs[j]), i)
    ensures SeqOf(w.tx.msgs[j]) < |w.sent| && Whole(w.sent[SeqOf(w.tx.msgs[j])]).Some?
    ensures i < |Whole(w.sent[SeqOf(w.tx.msgs[j])]).value.body|
  {
    SameBody(w, j);
  }

  /** Exactly which messages of the flight are there, byte for byte as sent, after the
      arrivals: those of the receiver's read epoch of which every record came in time or
      brought nothing new. Those of other epochs are as they were. */
  lemma {:induction false} PassDelivers(w: World, recs: seq<Sealed>, rs: seq<Sealed>, j: nat)
    requires Sound(w) && Pass(w, recs) && Expects(w, recs) && Handshake(w, j)
    requires forall r :: r in rs ==> r in recs
    ensures var w', n := Arrive(w, rs), SeqOf(w.tx.msgs[j]);
      && Steady(w, w')
      && (w.tx.msgs[j].epoch == w.rx.epoch ==>
           (Delivered(w'.rx, n) <==> forall r :: r in recs && Mentions(r, n) ==> Counts(w, rs, r, n)))
      && (w.tx.msgs[j].epoch != w.rx.epoch ==> (Delivered(w'.rx, n) <==> Delivered(w.rx, n)))
      && (Delivered(w'.rx, n) ==> n < |w.sent| && w'.rx.slots[n % N].value.Raw() == w.sent[n])
  {
    var w', n := Arrive(w, rs), SeqOf(w.tx.msgs[j]);
    PassArrives(w, recs, rs, n, 0);
    DeliveredMeans(w'.rx, w.sent, n);
    if w.tx.msgs[j].epoch == w.rx.epoch {
      if Delivered(w'.rx, n) {
        forall r | r in recs && Mentions(r, n) ensures Counts(w, rs, r, n) { Needed(w, recs, rs, j, r); }
      }
      if forall r :: r in recs && Mentions(r, n) ==> Counts(w, rs, r, n) { Enough(w, recs, rs, j); }
    } else {
      OtherEpoch(w, recs, rs, j);
    }
  }

  lemma {:induction false} OtherEpoch(w: World, recs: seq<Sealed>, rs: seq<Sealed>, j: nat)
    requires Sound(w) && Pass(w, recs) && Expects(w, recs) && Handshake(w, j)
    requires w.tx.msgs[j].epoch != w.rx.epoch && forall r :: r in rs ==> r in recs
    ensures Steady(w, Arrive(w, rs))
    ensures Delivered(Arrive(w, rs).rx, SeqOf(w.tx.msgs[j])) <==> Delivered(w.rx, SeqOf(w.tx.msgs[j]))
  {
    var n, rx', taken := SeqOf(w.tx.msgs[j]), Arrive(w, rs).rx, Admitted(w.window, w.rx.epoch, rs);
    PassArrives(w, recs, rs, n, 0);
    forall r | r in taken ensures !Mentions(r, n) {
      TakenArrived(w.window, w.rx.epoch, rs, r);
      if Mentions(r, n) { RightEpoch(w, recs, r, j); }
    }
    forall i: nat ensures Got(rx', n, i) <==> Got(w.rx, n, i) {
      PassArrives(w, recs, rs, n, i);
      assert forall r :: r in taken && Carries(r, n, i) ==> Mentions(r, n);
    }
    DeliveredMeans(rx', w.sent, n);
    DeliveredMeans(w.rx, w.sent, n);
  }

  // ---- As a run ----------------------------------------------------------

  /** The steps deliver these records of the log, and the cipher opens them. */
  ghost predicate Receipts(log: seq<Sealed>, actions: seq<Action>, rs: seq<Sealed>)
    decreases |actions|
  {
    && |actions| == |rs|
    && (actions != [] ==>
         && actions[0].Receive? && actions[0].opens && actions[0].i < |log| && log[actions[0].i] == rs[0]
         && Receipts(log, actions[1..], rs[1..]))
  }

  lemma {:induction false} RunIsArrive(w: World, actions: seq<Action>, rs: seq<Sealed>)
    requires Inv(w) && Listening(w) && Receipts(w.log, actions, rs)
    requires forall r :: r in rs ==> Harmless(w.rx, w.nullCipher, w.maxLen, w.sent, r)
    ensures RunFrom(w, actions) == Arrive(w, rs)
    decreases |actions|
  {
    if actions != [] {
      var w1 := Next(w, actions[0]);
      NextInv(w, actions[0]);
      ArriveOne(w, rs[0], w.rx.readSeq, 0);
      assert forall r :: r in rs[1..] ==> r in rs;
      AlsoHarmless(w, w1, rs[1..]);
      RunIsArrive(w1, actions[1..], rs[1..]);
    }
  }

  /** Delivery by one full pass, over the steps of a run: recs are the records of one pass of
      the flight, the steps deliver them in any order, with any repetition and loss. A
      message is in the window, complete and byte for byte as sent, exactly when its records
      carry the receiver's read epoch and each of them, when it first arrives, is less than
      64 below the highest number of the epoch until then, or brings nothing new. */
  lemma {:induction false} FullPassDelivers(w: World, recs: seq<Sealed>, actions: seq<Action>, rs: seq<Sealed>, j: nat)
    requires Inv(w) && Numbered(w) && !w.dead && Pass(w, recs) && Expects(w, recs) && Handshake(w, j)
    requires Receipts(w.log, actions, rs) && forall r :: r in rs ==> r in recs
    ensures var w', n := RunFrom(w, actions), SeqOf(w.tx.msgs[j]);
      && !w'.dead
      && (w.tx.msgs[j].epoch == w.rx.epoch ==>
           (Delivered(w'.rx, n) <==> forall r :: r in recs && Mentions(r, n) ==> Counts(w, rs, r, n)))
      && (w.tx.msgs[j].epoch != w.rx.epoch ==> (Delivered(w'.rx, n) <==> Delivered(w.rx, n)))
      && (Delivered(w'.rx, n) ==> n < |w.sent| && w'.rx.slots[n % N].value.Raw() == w.sent[n])
  {
    forall r | r in rs ensures Harmless(w.rx, w.nullCipher, w.maxLen, w.sent, r) { PassHarmless(w, recs, r); }
    RunIsArrive(w, actions, rs);
    PassDelivers(w, recs, rs, j);
  }

  lemma {:induction false} CloseInTime(high: nat, rs: seq<Sealed>, r: Sealed)
    requires r in rs && Seq(r) + WINDOW > high
    requires forall q :: q in rs && q.epoch == r.epoch ==> Seq(r) + WINDOW > Seq(q)
    ensures InTime(high, rs, r)
    decreases |rs|
  {
    if rs[0] != r {
      assert forall q :: q in rs[1..] ==> q in rs;
      CloseInTime(if rs[0].epoch == r.epoch then Max(high, Seq(rs[0])) else high, rs[1..], r);
    }
  }

  /** In any order and with any repetition, if no more than 64 numbers separate the records of
      the epoch from each other and from the highest one accepted: then every message of
      the read epoch arrives. */
  lemma {:induction false} ShortPassDelivers(w: World, recs: seq<Sealed>, actions: seq<Action>, rs: seq<Sealed>, j: nat)
    requires Inv(w) && Numbered(w) && !w.dead && Pass(w, recs) && Expects(w, recs) && Handshake(w, j)
    requires Receipts(w.log, actions, rs) && forall r :: r in rs <==> r in recs
    requires forall r :: r in recs && r.epoch == w.rx.epoch ==> Seq(r) + WINDOW > w.window.maxSeq
    requires forall r, q :: r in recs && q in recs && r.epoch == q.epoch ==> Seq(r) + WINDOW > Seq(q)
    requires w.tx.msgs[j].epoch == w.rx.epoch
    ensures var w', n := RunFrom(w, actions), SeqOf(w.tx.msgs[j]);
      !w'.dead && Delivered(w'.rx, n) && n < |w.sent| && w'.rx.slots[n % N].value.Raw() == w.sent[n]
  {
    var n := SeqOf(w.tx.msgs[j]);
    forall r | r in recs && Mentions(r, n) ensures Counts(w, rs, r, n) {
      RightEpoch(w, recs, r, j);
      CloseInTime(w.window.maxSeq, rs, r);
    }
    FullPassDelivers(w, recs, actions, rs, j);
  }

  // ---- Several passes together -------------------------------------------

  /** The record is the right next one at some position of the flight, as every record of
      every pass is, whatever sizes the pass was cut for and wherever it broke off. */
  ghost predicate OfFlight(msgs: seq<OutMsg>, r: Sealed) {
    exists k: nat, o: nat :: After(msgs, k, o, r).Some?
  }

  lemma {:induction false} PassIsOfFlight(msgs: seq<OutMsg>, w: nat, o: nat, recs: seq<Sealed>,
                                          w': nat, o': nat, r: Sealed)
    requires Tiles(msgs, w, o, recs, w', o') && r in recs
    ensures OfFlight(msgs, r)
    decreases |recs|
  {
    var p := After(msgs, w, o, recs[0]).value;
    if recs[0] != r { PassIsOfFlight(msgs, p.0, p.1, recs[1..], w', o', r); }
  }

  /** The record is of the read epoch and new, and arrives in time. */
  predicate Comes(w: World, rs: seq<Sealed>, r: Sealed) {
    r in rs && r.epoch == w.rx.epoch && Seq(r) !in w.accepted && InTime(w.window.maxSeq, rs, r)
  }

  /** Numbers that were accepted before are not accepted again. */
  lemma {:induction false} NeverAgain(win: Window, accepted: set<nat>, epoch: nat, rs: seq<Sealed>, rec: Sealed)
    requires Agrees(win, accepted) && Seq(rec) in accepted
    ensures rec !in Admitted(win, epoch, rs)
    decreases |rs|
  {
    if rs != [] {
      DiscardExact(win, accepted, Seq(rs[0]));
      RecordAgrees(win, accepted, Seq(rs[0]));
      match Admit(win, epoch, rs[0].epoch, rs[0].number, true)
      case None => NeverAgain(win, accepted, epoch, rs[1..], rec);
      case Some(win') => NeverAgain(win', accepted + {Seq(rs[0])}, epoch, rs[1..], rec);
    }
  }

  lemma {:induction false} ComesExactly(w: World, rs: seq<Sealed>, r: Sealed)
    requires Agrees(w.window, w.accepted) && DistinctRecords(w.log) && r in w.log
    requires forall q :: q in rs ==> q in w.log
    ensures r in Admitted(w.window, w.rx.epoch, rs) <==> Comes(w, rs, r)
  {
    var taken := Admitted(w.window, w.rx.epoch, rs);
    if r in taken { TakenArrived(w.window, w.rx.epoch, rs, r); }
    if r.epoch == w.rx.epoch {
      if Seq(r) in w.accepted {
        NeverAgain(w.window, w.accepted, w.rx.epoch, rs, r);
      } else {
        InTimeExactly(w.window, w.accepted, w.rx.epoch, rs, r);
      }
    }
  }

  lemma FlightHarmless(w: World, rs: seq<Sealed>, r: Sealed)
    requires Sound(w) && Expects(w, rs) && r in rs && OfFlight(w.tx.msgs, r)
    ensures Harmless(w.rx, w.nullCipher, w.maxLen, w.sent, r)
  {
    var k: nat, o: nat :| After(w.tx.msgs, k, o, r).Some?;
    if !w.tx.msgs[k].isCcs {
      AfterIsFor(w.tx.msgs, w.sent, k, o, r);
      assert MsgOk(w.sent[SeqOf(w.tx.msgs[k])], SeqOf(w.tx.msgs[k]));
    }
  }

  /** Body byte i of message n was there, or a record that comes carries it. */
  ghost predicate Supplied(w: World, rs: seq<Sealed>, n: nat, i: nat)
    requires |w.rx.slots| == N
  {
    Got(w.rx, n, i) || exists r :: Comes(w, rs, r) && Carries(r, n, i)
  }

  /** Message n was begun, or a record that comes begins it. */
  ghost predicate Begun(w: World, rs: seq<Sealed>, n: nat)
    requires |w.rx.slots| == N
  {
    Has(w.rx, n) || exists r :: Comes(w, rs, r) && Mentions(r, n)
  }

  lemma {:induction false} ArrivesSupplied(w: World, rs: seq<Sealed>, n: nat, i: nat)
    requires Sound(w) && Expects(w, rs) && DistinctRecords(w.log) && w.rx.readSeq <= n
    requires forall r :: r in rs ==> r in w.log && OfFlight(w.tx.msgs, r)
    ensures Steady(w, Arrive(w, rs))
    ensures Got(Arrive(w, rs).rx, n, i) <==> Supplied(w, rs, n, i)
    ensures Has(Arrive(w, rs).rx, n) <==> Begun(w, rs, n)
  {
    var taken := Admitted(w.window, w.rx.epoch, rs);
    forall r | r in rs ensures Harmless(w.rx, w.nullCipher, w.maxLen, w.sent, r) { FlightHarmless(w, rs, r); }
    ArriveAll(w, rs, n, i);
    forall r | r in w.log ensures r in taken <==> Comes(w, rs, r) { ComesExactly(w, rs, r); }
    forall r | r in taken ensures r in w.log { TakenArrived(w.window, w.rx.epoch, rs, r); }
  }

  /** Retransmission works: records of any number of passes, cut for any sizes, arrive in any
      order, with any repetition and loss. A message that is still awaited is then in the
      window, complete and byte for byte as sent, exactly when the records that came in
      time, of all the passes together, and what was there before cover it. */
  lemma {:induction false} UnionDelivers(w: World, actions: seq<Action>, rs: seq<Sealed>, j: nat)
    requires Inv(w) && Numbered(w) && !w.dead && DistinctRecords(w.log) && Expects(w, rs) && Handshake(w, j)
    requires Receipts(w.log, actions, rs) && forall r :: r in rs ==> r in w.log && OfFlight(w.tx.msgs, r)
    ensures var w', n := RunFrom(w, actions), SeqOf(w.tx.msgs[j]);
      && !w'.dead && n < |w.sent| && Whole(w.sent[n]).Some?
      && (Delivered(w'.rx, n) <==>
           Begun(w, rs, n)
           && forall i: nat {:trigger Supplied(w, rs, n, i)} :: i < |Whole(w.sent[n]).value.body| ==>
                Supplied(w, rs, n, i))
      && (Delivered(w'.rx, n) ==> w'.rx.slots[n % N].value.Raw() == w.sent[n])
  {
    forall r | r in rs ensures Harmless(w.rx, w.nullCipher, w.maxLen, w.sent, r) { FlightHarmless(w, rs, r); }
    RunIsArrive(w, actions, rs);
    UnionArrives(w, rs, j);
  }

  lemma {:induction false} UnionArrives(w: World, rs: seq<Sealed>, j: nat)
    requires Sound(w) && DistinctRecords(w.log) && Expects(w, rs) && Handshake(w, j)
    requires forall r :: r in rs ==> r in w.log && OfFlight(w.tx.msgs, r)
    ensures var w', n := Arrive(w, rs), SeqOf(w.tx.msgs[j]);
      && Steady(w, w') && n < |w.sent| && Whole(w.sent[n]).Some?
      && (Delivered(w'.rx, n) <==>
           Begun(w, rs, n)
           && forall i: nat {:trigger Supplied(w, rs, n, i)} :: i < |Whole(w.sent[n]).value.body| ==>
                Supplied(w, rs, n, i))
      && (Delivered(w'.rx, n) ==> w'.rx.slots[n % N].value.Raw() == w.sent[n])
  {
    var w', n := Arrive(w, rs), SeqOf(w.tx.msgs[j]);
    SameBody(w, j);
    ArrivesSupplied(w, rs, n, 0);
    DeliveredMeans(w'.rx, w.sent, n);
    forall i: nat ensures Got(w'.rx, n, i) <==> Supplied(w, rs, n, i) { ArrivesSupplied(w, rs, n, i); }
  }
}
