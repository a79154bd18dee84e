/** The replay window of dtls_record.cc (section 4.1.2.6 of RFC 6347): a 64-bit map
    of the sequence numbers up to the highest one accepted. */
module DtlsReplay {
  import opened Basics
  import opened Bits
  import opened DtlsCodec

  const WINDOW: nat := 64

  /** DTLS1_BITMAP as a value. */
  datatype Window = Window(maxSeq: nat, bits: nat)

  const EMPTY: Window := Window(0, 0)

  /** dtls1_bitmap_should_discard */
  predicate ShouldDiscard(w: Window, n: nat) {
    n <= w.maxSeq && (w.maxSeq - n >= WINDOW || And(w.bits, Shl(1, w.maxSeq - n)) != 0)
  }

  /** The map after sliding, before the new bit is set. */
  function Slid(w: Window, n: nat): nat {
    if n <= w.maxSeq then w.bits
    else if n - w.maxSeq >= WINDOW then 0
    else Low(Shl(w.bits, n - w.maxSeq), WINDOW)
  }

  /** dtls1_bitmap_record: slides the window forward if needed, then sets n's bit. */
  function Record(w: Window, n: nat): Window {
    var top := Max(n, w.maxSeq);
    Window(top, if top - n < WINDOW then Or(Slid(w, n), Low(Shl(1, top - n), WINDOW)) else Slid(w, n))
  }

  /** The window agrees with the set of numbers accepted since it was cleared. */
  ghost predicate Agrees(w: Window, accepted: set<nat>) {
    && w.bits < Pow2(WINDOW)
    && (forall a :: a in accepted ==> a <= w.maxSeq)
    && (accepted == {} ==> w.maxSeq == 0)
    && (accepted != {} ==> w.maxSeq in accepted)
    && forall i: nat {:trigger Bit(w.bits, i)} :: i < WINDOW ==> (Bit(w.bits, i) <==> w.maxSeq - i in accepted)
  }

  lemma EmptyAgrees()
    ensures Agrees(EMPTY, {})
  {
    forall i: nat ensures !Bit(0, i) { BitZero(i); }
  }

  lemma {:induction false} SomeBit(n: nat) returns (i: nat)
    requires n != 0
    ensures Bit(n, i)
    decreases n
  {
    if n % 2 == 1 {
      i := 0;
    } else {
      var j := SomeBit(n / 2);
      i := j + 1;
    }
  }

  /** Testing a word against 1 << b tests bit b. */
  lemma {:induction false} TestBit(n: nat, b: nat)
    ensures And(n, Shl(1, b)) != 0 <==> Bit(n, b)
  {
    if And(n, Shl(1, b)) != 0 {
      var i := SomeBit(And(n, Shl(1, b)));
      AndBit(n, Shl(1, b), i);
      ShlBit(1, b, i);
      if i > b { BitZero(i - b - 1); }
    } else {
      BitZero(b);
      AndBit(n, Shl(1, b), b);
      ShlBit(1, b, b);
    }
  }

  /** A number is discarded exactly when it was accepted before or is too old. */
  lemma DiscardExact(w: Window, accepted: set<nat>, n: nat)
    requires Agrees(w, accepted)
    ensures ShouldDiscard(w, n) <==> n in accepted || n + 64 <= w.maxSeq
  {
    if n <= w.maxSeq && w.maxSeq - n < WINDOW {
      TestBit(w.bits, w.maxSeq - n);
      assert Bit(w.bits, w.maxSeq - n) <==> n in accepted;
    }
  }

  /** No number is accepted twice; a new one within the last 64, or above all, is accepted. */
  lemma FreshNumberPasses(w: Window, accepted: set<nat>, n: nat)
    requires Agrees(w, accepted)
    ensures n in accepted ==> ShouldDiscard(w, n)
    ensures n !in accepted && n + WINDOW > w.maxSeq ==> !ShouldDiscard(w, n)
  {
    DiscardExact(w, accepted, n);
  }

  lemma {:induction false} ShiftedMap(bits: nat, shift: nat, i: nat)
    requires i < WINDOW
    ensures Bit(Low(Shl(bits, shift), WINDOW), i) <==> i >= shift && Bit(bits, i - shift)
    ensures Low(Shl(bits, shift), WINDOW) < Pow2(WINDOW)
  {
    LowBit(Shl(bits, shift), WINDOW, i);
    ShlBit(bits, shift, i);
    LowBound(Shl(bits, shift), WINDOW);
  }

  lemma {:induction false} SetBit(bits: nat, b: nat, i: nat)
    requires bits < Pow2(WINDOW) && i < WINDOW
    ensures var r := Or(bits, Low(Shl(1, b), WINDOW));
      r < Pow2(WINDOW) && (Bit(r, i) <==> Bit(bits, i) || i == b)
  {
    ShiftedMap(1, b, i);
    OrBit(bits, Low(Shl(1, b), WINDOW), i);
    OrBound(bits, Low(Shl(1, b), WINDOW), WINDOW);
    if i > b { BitZero(i - b - 1); }
  }

  lemma {:induction false} SlidBit(w: Window, accepted: set<nat>, n: nat, i: nat)
    requires Agrees(w, accepted) && i < WINDOW
    ensures Slid(w, n) < Pow2(WINDOW)
    ensures Bit(Slid(w, n), i) <==> Max(n, w.maxSeq) - i in accepted
  {
    if n <= w.maxSeq {
      assert Bit(w.bits, i) <==> w.maxSeq - i in accepted;
    } else if n - w.maxSeq >= WINDOW {
      BitZero(i);
    } else {
      ShiftedMap(w.bits, n - w.maxSeq, i);
      if i >= n - w.maxSeq {
        assert Bit(w.bits, i - (n - w.maxSeq)) <==> w.maxSeq - (i - (n - w.maxSeq)) in accepted;
      }
    }
  }

  lemma {:induction false} RecordBit(w: Window, accepted: set<nat>, n: nat, i: nat)
    requires Agrees(w, accepted) && i < WINDOW
    ensures Record(w, n).bits < Pow2(WINDOW)
    ensures Bit(Record(w, n).bits, i) <==> Max(n, w.maxSeq) - i in accepted + {n}
  {
    SlidBit(w, accepted, n, i);
    if Max(n, w.maxSeq) - n < WINDOW { SetBit(Slid(w, n), Max(n, w.maxSeq) - n, i); }
  }

  /** Recording keeps the map exact, in every window position. */
  lemma RecordAgrees(w: Window, accepted: set<nat>, n: nat)
    requires Agrees(w, accepted)
    ensures Agrees(Record(w, n), accepted + {n})
  {
    var w' := Record(w, n);
    forall i: nat {:trigger Bit(w'.bits, i)} | i < WINDOW
      ensures Bit(w'.bits, i) <==> w'.maxSeq - i in accepted + {n}
    {
      RecordBit(w, accepted, n, i);
    }
    RecordBit(w, accepted, n, 0);
  }

  // ---- Opening records ---------------------------------------------------

  /** The window after a record of the given epoch and number that the cipher opens or
      does not open; None when the record is discarded. */
  function Admit(w: Window, epoch: nat, recEpoch: nat, number: nat, opens: bool): Option<Window> {
    var n := SequenceNumber(recEpoch, number);
    if recEpoch != epoch || ShouldDiscard(w, n) || !opens then None else Some(Record(w, n))
  }

  const DTLS1_VERSION_MAJOR: nat := 0xfe

  datatype OpenResult = CloseNotify | Partial | Discard | Error | Alert | Success(typ: byte, payload: bytes)

  /** The read half of the record layer. accepted is the history of this epoch. */
  class ReadState {
    var epoch: nat
    var window: Window
    var closed: bool
    /** Null cipher, or the record version of the current cipher. */
    var version: Option<nat>
    ghost var accepted: set<nat>

    ghost predicate Valid()
      reads this
    {
      epoch < TWO_16 && Agrees(window, accepted)
    }

    constructor ()
      ensures Valid() && epoch == 0 && accepted == {} && !closed && version == None
    {
      epoch, window, closed, version, accepted := 0, EMPTY, false, None, {};
      new;
      EmptyAgrees();
    }

    /** The part of dtls1_set_read_state that concerns records: uint16_t r_epoch++. */
    method NextEpoch(version: nat)
      requires Valid()
      modifies this
      ensures Valid() && epoch == (old(epoch) + 1) % TWO_16 && closed == old(closed)
      ensures window == EMPTY && accepted == {} && this.version == Some(version)
    {
      epoch := (epoch + 1) % TWO_16;
      window, accepted := EMPTY, {};
      this.version := Some(version);
      EmptyAgrees();
    }

    /** dtls_open_record. plain is the cipher's verdict on the record body. A record
        that is not accepted leaves the window alone; an accepted number is new. */
    method OpenRecord(input: bytes, plain: Option<bytes>) returns (r: OpenResult, consumed: nat)
      requires Valid()
      modifies `window, `accepted
      ensures Valid() && consumed <= |input|
      ensures r.Discard? || r.Partial? || r.CloseNotify? ==> window == old(window) && accepted == old(accepted)
      ensures r.Success? || r.Alert? ==>
        var p := ParseRecord(input);
        && p.Done? && p.value.epoch == epoch && plain.Some?
        && consumed == |input| - |p.rest|
        && SequenceNumber(p.value.epoch, p.value.number) !in old(accepted)
        && accepted == old(accepted) + {SequenceNumber(p.value.epoch, p.value.number)}
        && (r.Success? ==> r.typ == p.value.typ && Some(r.payload) == plain)
        && Admit(old(window), epoch, p.value.epoch, p.value.number, true) == Some(window)
      ensures r.Error? ==> window == old(window) && accepted == old(accepted)
      ensures r.Error? ==> plain.Some? && |plain.value| > 16384
      ensures (r.CloseNotify? <==> closed) && (r.Partial? <==> !closed && input == [])
      ensures (r.Alert? ==> ParseRecord(input).value.typ == 21) && (r.Success? ==> r.typ != 21)
      ensures r.Discard? && ParseRecord(input).Fail? ==> consumed == |input|
      ensures var p := ParseRecord(input);
        && !closed && p.Done? && |p.value.body| <= 16704 && p.value.epoch == epoch
        && (if version.None? then p.value.version / 256 == 0xfe else p.value.version == version.value)
        && plain.Some? && |plain.value| <= 16384
        && SequenceNumber(epoch, p.value.number) !in old(accepted)
        && SequenceNumber(epoch, p.value.number) + 64 > old(window).maxSeq ==>
        r.Success? || r.Alert?
    {
      consumed := 0;
      if closed { return CloseNotify, 0; }
      if input == [] { return Partial, 0; }
      var parsed := ParseRecord(input);
      if parsed.Fail? || |parsed.value.body| > MAX_ENCRYPTED_LENGTH {
        return Discard, |input|;  // drop the entire packet
      }
      var rec := parsed.value;
      var versionOk := if version.None? then rec.version / 256 == DTLS1_VERSION_MAJOR
        else rec.version == version.value;
      if !versionOk { return Discard, |input|; }
      consumed := |input| - |parsed.rest|;
      var n := SequenceNumber(rec.epoch, rec.number);
      DiscardExact(window, accepted, n);
      if rec.epoch != epoch || ShouldDiscard(window, n) { return Discard, consumed; }
      if plain.None? { return Discard, consumed; }
      if |plain.value| > MAX_PLAIN_LENGTH { return Error, consumed; }
      RecordAgrees(window, accepted, n);
      window := Record(window, n);
      accepted := accepted + {n};
      if rec.typ == RT_ALERT { return Alert, consumed; }
      return Success(rec.typ, plain.value), consumed;
    }
  }
}
