/** d1_both.cc, sending half, with the sealing part of dtls_record.cc: the flight is
    cut into records and packets in place, and resumed after failed writes. */
module DtlsSender {
  import opened Basics
  import opened DtlsCodec
  import opened DtlsWindow
  import opened DtlsFlight
  import opened DtlsTimer

  datatype PacketResult = PacketOk | SealFailed | MtuTooSmall
  datatype FlightResult = Sent | WriteFailed | Failed(why: PacketResult) | Shutdown

  function TotalLen(recs: seq<Sealed>): nat {
    if recs == [] then 0 else recs[0].len + TotalLen(recs[1..])
  }

  lemma {:induction false} TotalLenSnoc(recs: seq<Sealed>, rec: Sealed)
    ensures TotalLen(recs + [rec]) == TotalLen(recs) + rec.len
  {
    if recs == [] {
      assert recs + [rec] == [rec] && [rec][1..] == [];
    } else {
      TotalLenSnoc(recs[1..], rec);
      assert (recs + [rec])[1..] == recs[1..] + [rec];
    }
  }

  ghost predicate AllFit(packets: seq<seq<Sealed>>, mtu: nat) {
    forall p :: 0 <= p < |packets| ==> TotalLen(packets[p]) <= mtu
  }

  function Records(packets: seq<seq<Sealed>>): seq<Sealed> {
    if packets == [] then [] else Records(packets[..|packets| - 1]) + packets[|packets| - 1]
  }

  class Sender {
    const timer: Timer
    var msgs: seq<OutMsg>
    var written: nat
    var offset: nat
    var complete: bool
    var hasReply: bool
    var writeSeq: nat
    var epoch: nat
    var cur: nat
    var prev: nat
    var curCipher: Cipher
    var prevCipher: Cipher
    var transcript: bytes
    var shutdown: bool
    /** Packets the transport took. */
    var wire: seq<seq<Sealed>>

    ghost function View(): Tx
      reads this
    {
      Tx(msgs, written, offset, complete, hasReply, writeSeq, epoch, cur, prev, curCipher, prevCipher, transcript)
    }

    constructor (cipher: Cipher, timer: Timer)
      ensures this.timer == timer && View() == Tx([], 0, 0, false, false, 0, 0, 0, 0, cipher, cipher, [])
      ensures wire == [] && !shutdown
    {
      this.timer := timer;
      msgs, written, offset, complete, hasReply := [], 0, 0, false, false;
      writeSeq, epoch, cur, prev := 0, 0, 0, 0;
      curCipher, prevCipher, transcript := cipher, cipher, [];
      shutdown, wire := false, [];
    }

    // ---- Building a flight -----------------------------------------------

    /** dtls_clear_outgoing_messages */
    method Clear()
      modifies `msgs, `written, `offset, `complete, `hasReply
      ensures View() == Cleared(old(View()))
      ensures msgs == [] && written == 0 && offset == 0 && !complete && !hasReply
    {
      msgs, written, offset, complete, hasReply := [], 0, 0, false, false;
    }

    /** add_outgoing: a new flight begins, and the timer stops, when the old one was complete. */
    method AddOutgoing(isCcs: bool, data: bytes) returns (ok: bool)
      requires timer.Valid()
      modifies `msgs, `written, `offset, `complete, `hasReply, `writeSeq, `transcript, timer
      ensures (ok, View()) == Added(old(View()), isCcs, data)
      ensures timer.Valid() && (if old(complete) then timer.Stopped() else unchanged(timer))
    {
      if complete {
        timer.Stop();
        Clear();
      }
      if |msgs| >= N || |data| >= 0x1_0000_0000 { return false; }
      if !isCcs {
        transcript := transcript + data;
        writeSeq := (writeSeq + 1) % TWO_16;
      }
      msgs := msgs + [OutMsg(data, epoch, isCcs)];
      return true;
    }

    /** dtls1_set_write_state */
    method SetWriteState(cipher: Cipher)
      modifies `epoch, `cur, `prev, `curCipher, `prevCipher
      ensures View() == NextWriteState(old(View()), cipher)
      ensures epoch == (old(epoch) + 1) % 0x1_0000 && cur == 0 && prev == old(cur)
      ensures curCipher == cipher && prevCipher == old(curCipher)
    {
      epoch := (epoch + 1) % TWO_16;
      prev, cur := cur, 0;
      prevCipher, curCipher := curCipher, cipher;
    }

    /** dtls1_on_handshake_complete */
    method OnHandshakeComplete()
      requires timer.Valid()
      modifies `msgs, `written, `offset, `complete, `hasReply, timer
      ensures View() == if old(hasReply) then Cleared(old(View())) else old(View())
      ensures timer.Valid() && timer.Stopped()
    {
      timer.Stop();
      if hasReply { Clear(); }
    }

    // ---- Sealing ---------------------------------------------------------

    /** dtls_seal_record */
    method Seal(use: UseEpoch, typ: byte, payload: bytes, maxOut: nat, sealer: Sealer) returns (rec: Option<Sealed>)
      requires use.PreviousEpoch? ==> epoch >= 1
      modifies `cur, `prev
      ensures (rec, View())
        == SealRecord(old(View()), use, typ, payload, Ciphered(old(View()), use, typ, payload, sealer), maxOut)
    {
      var e := if use.PreviousEpoch? then epoch - 1 else epoch;
      var number := if use.PreviousEpoch? then prev else cur;
      if maxOut < RT_HEADER_LENGTH { return None; }
      var len := sealer(e, number, typ, payload);
      if len.None? || RT_HEADER_LENGTH + len.value > maxOut { return None; }
      var next := (number + 1) % TWO_48;
      if use.PreviousEpoch? { prev := next; } else { cur := next; }
      if next == 0 || len.value >= TWO_16 { return None; }
      return Some(Sealed(typ, e, number, payload, RT_HEADER_LENGTH + len.value));
    }

    /** seal_next_message: None if nothing was written. */
    method SealNextMessage(maxOut: nat, sealer: Sealer) returns (failed: bool, rec: Option<Sealed>, whole: bool)
      requires written < |msgs|
      modifies `cur, `prev, `offset
      ensures match SealNextWith(old(View()), maxOut, sealer)
        case SealError(tx) => failed && View() == tx
        case NoProgress => !failed && rec.None? && View() == old(View())
        case Progress(r, tx, w) => !failed && rec == Some(r) && View() == tx && whole == w
    {
      var msg := msgs[written];
      var use := CurrentEpoch;
      if epoch >= 1 && msg.epoch == epoch - 1 {
        use := PreviousEpoch;
      } else if msg.epoch != epoch {
        return true, None, false;
      }
      var cipher := if use.PreviousEpoch? then prevCipher else curCipher;
      var overhead, prefix := RT_HEADER_LENGTH + cipher.maxOverhead, RT_HEADER_LENGTH + cipher.nonceLen;
      if msg.isCcs {
        if maxOut < 1 + overhead { return false, None, false; }
        rec := Seal(use, RT_CCS, [1], maxOut, sealer);
        return rec.None?, rec, true;
      }
      failed, rec, whole := SealFragment(use, msg, maxOut, overhead, prefix, sealer);
    }

    /** The part of seal_next_message for handshake messages. */
    method SealFragment(use: UseEpoch, msg: OutMsg, maxOut: nat, overhead: nat, prefix: nat, sealer: Sealer)
        returns (failed: bool, rec: Option<Sealed>, whole: bool)
      requires written < |msgs| && msg == msgs[written] && !msg.isCcs && UseFor(View(), msg) == Some(use)
      requires overhead == Overhead(View(), use) && prefix == Prefix(View(), use)
      modifies `cur, `prev, `offset
      ensures match SealNextWith(old(View()), maxOut, sealer)
        case SealError(tx) => failed && View() == tx
        case NoProgress => !failed && rec.None? && View() == old(View())
        case Progress(r, tx, w) => !failed && rec == Some(r) && View() == tx && whole == w
    {
      var parsed := ParseFragment(msg.data);
      if parsed.Fail? || parsed.rest != [] || parsed.value.h.fragOff != 0
         || parsed.value.h.msgLen != |parsed.value.body| || offset > |parsed.value.body| {
        return true, None, false;
      }
      var h, body := parsed.value.h, parsed.value.body[offset..];
      if maxOut < HM_HEADER_LENGTH + 1 + overhead || maxOut < prefix { return false, None, false; }
      var todo := |body|;
      if todo > maxOut - HM_HEADER_LENGTH - overhead { todo := maxOut - HM_HEADER_LENGTH - overhead; }
      if HM_HEADER_LENGTH + todo > maxOut - prefix { return true, None, false; }
      var frag := EncodeHeader(Header(h.typ, h.msgLen, h.seqNum, offset, todo)) + body[..todo];
      assert frag == Slice(parsed.value, offset, todo) && todo == Todo(View(), use, parsed.value, maxOut);
      rec := Seal(use, RT_HANDSHAKE, frag, maxOut, sealer);
      if rec.None? { return true, None, false; }
      if todo == |body| {
        offset := 0;
        return false, rec, true;
      }
      offset := offset + todo;
      return false, rec, false;
    }

    /** seal_next_message with the loop's outgoing_written++. */
    method SealOne(maxOut: nat, sealer: Sealer, ghost from: Sending)
        returns (failed: bool, rec: Option<Sealed>, whole: bool, ghost k: Stroke)
      requires PosOk(View()) && written < |msgs| && from.tx == View()
      modifies `cur, `prev, `offset, `written
      ensures Once(old(View()), View(), maxOut, sealer, failed, rec, whole)
      ensures Stroked(from, k) == Sending(View(), from.saved, from.out + Listed(rec))
    {
      ghost var tx := View();
      k := Cut(maxOut, NextLen(tx, maxOut, sealer));
      failed, rec, whole := SealNextMessage(maxOut, sealer);
      OnceSealed(tx, maxOut, sealer);
      CutStroke(from, maxOut, sealer);
      if failed { rec := None; }
      if rec.Some? && whole { written := written + 1; }
    }

    /** seal_next_packet: as many records as fit; at least one, or the MTU is too small. When
        sealing fails the records sealed until then are lost, but the position has moved
        past them. */
    method SealNextPacket(size: nat, sealer: Sealer, ghost from: Sending)
        returns (result: PacketResult, packet: seq<Sealed>, ghost ks: seq<Stroke>)
      requires PosOk(View()) && written < |msgs| && from.tx == View()
      modifies `cur, `prev, `offset, `written
      ensures Packed(old(View()), View(), size, sealer, result, packet)
      ensures Went(from, ks, Sending(View(), from.saved, from.out + packet))
    {
      hide Went, Tiles, Once;
      packet, ks := [], [];
      assert from.out + [] == from.out;
      Stayed(from);
      PacketBegins(View(), size, sealer);
      var room: nat := size;
      var full := false;
      while written < |msgs| && !full
        invariant InPacket(old(View()), View(), size, room, sealer, packet) && (packet == [] ==> !full)
        invariant full ==> offset > 0
        invariant Went(from, ks, Sending(View(), from.saved, from.out + packet))
        decreases |msgs| - written, !full
      {
        ghost var tx, here := View(), Sending(View(), from.saved, from.out + packet);
        ghost var k;
        var failed, rec, whole;
        failed, rec, whole, k := SealOne(room, sealer, here);
        WentOn(from, ks, here, k);
        ks := ks + [k];
        SealedMore(from.out, packet, rec);
        if rec.None? {
          result := if failed then SealFailed else if packet == [] then MtuTooSmall else PacketOk;
          PacketEnds(old(View()), tx, View(), size, room, sealer, packet, failed, whole, result);
          return;
        }
        PacketGrows(old(View()), tx, View(), size, room, sealer, packet, rec.value, whole);
        packet := packet + [rec.value];
        room := room - rec.value.len;
        full := !whole;
      }
      PacketFull(old(View()), View(), size, room, sealer, packet);
      return PacketOk, packet, ks;
    }

    // ---- Writing the flight ----------------------------------------------

    /** dtls1_update_mtu; answer is what the transport says its MTU is. */
    method UpdateMtu(query: bool, answer: int)
      modifies timer`mtu
      ensures timer.mtu == if old(timer.mtu) >= 228 || !query then old(timer.mtu)
        else if 228 <= answer <= 0x4000_0000 then answer else 1472
    {
      if timer.mtu < MIN_MTU && query {
        timer.mtu := if UsableMtu(answer) then answer else DEFAULT_MTU;
      }
    }

    /** The body of send_flight's loop: a packet is sealed and written; when the write
        fails the position goes back, to retry this packet the next time around. The
        packet is returned if it was written, or lost to a failed seal. */
    method SendPacket(sealer: Sealer, ghost from: Sending)
        returns (result: FlightResult, ghost packet: seq<Sealed>, ghost ks: seq<Stroke>, ghost to: Sending)
      requires PosOk(View()) && written < |msgs| && from.tx == View()
      modifies `written, `offset, `cur, `prev, `wire
      ensures Dispatched(old(View()), View(), timer.mtu, sealer, result, packet)
      ensures wire == if result.Sent? then old(wire) + [packet] else old(wire)
      ensures Went(from, ks, to) && to.tx == View() && OutGrows(from.out, to.out, result, packet)
    {
      hide Went, Packed, Dispatched;
      var oldWritten, oldOffset := written, offset;
      ghost var tx, begun := View(), Stroked(from, Begin);
      var r, sealed;
      r, sealed, ks := SealNextPacket(timer.mtu, sealer, begun);
      to := Sending(View(), begun.saved, from.out + sealed);
      BeginThen(from, ks, to);
      ks := [Begin] + ks;
      ghost var tx1 := View();
      PackedDispatches(tx, tx1, timer.mtu, sealer, r, sealed);
      if !r.PacketOk? { return Failed(r), sealed, ks, to; }
      var wrote: bool := *;
      if !wrote {
        written, offset := oldWritten, oldOffset;
        WentOn(from, ks, to, Back);
        return WriteFailed, [], ks + [Back], Stroked(to, Back);
      }
      wire := wire + [sealed];
      return Sent, sealed, ks, to;
    }

    /** send_flight: packets until the flight is out, or a write or sealing fails. What
        reached the wire, and then what a failed seal lost, tiles the flight from the old
        position to the new one: a failed write is resumed at the very byte it stopped at,
        and a failed seal leaves a gap exactly if records had been sealed for its packet.
        With room, a good cipher and numbers left, only a failed write can keep the flight
        from being sent. */
    method SendFlight(query: bool, answer: int, sealer: Sealer, ghost from: Sending)
        returns (result: FlightResult, ghost sent: seq<seq<Sealed>>, ghost lost: seq<Sealed>,
                 ghost ks: seq<Stroke>, ghost to: Sending)
      requires PosOk(View()) && (timer.mtu >= MIN_MTU || query) && from.tx == View()
      modifies `written, `offset, `cur, `prev, timer`mtu, `wire
      ensures Flown(old(View()), View(), old(wire), wire, timer.mtu, result, sent, lost)
      ensures result.Shutdown? <==> shutdown
      ensures old(timer.mtu) >= MIN_MTU ==> timer.mtu == old(timer.mtu)
      ensures Equipped(old(View()), timer.mtu, sealer) ==> shutdown || result.Sent? || result.WriteFailed?
      ensures Went(from, ks, to) && to.tx == View() && OutFlown(from.out, to.out, result, sent, lost)
    {
      if shutdown {
        Stayed(from);
        assert from.out + [] + [] == from.out;
        return Shutdown, [], [], [], from;
      }
      UpdateMtu(query, answer);
      result, sent, lost, ks, to := SendPackets(sealer, from);
      if result.Sent? {
        var flushed: bool := *;
        if !flushed { result := WriteFailed; }
      }
    }

    /** The loop of send_flight. */
    method SendPackets(sealer: Sealer, ghost from: Sending)
        returns (result: FlightResult, ghost sent: seq<seq<Sealed>>, ghost lost: seq<Sealed>,
                 ghost ks: seq<Stroke>, ghost to: Sending)
      requires PosOk(View()) && timer.mtu >= MIN_MTU && from.tx == View()
      modifies `written, `offset, `cur, `prev, `wire
      ensures Flown(old(View()), View(), old(wire), wire, timer.mtu, result, sent, lost) && !result.Shutdown?
      ensures Equipped(old(View()), timer.mtu, sealer) ==> result.Sent? || result.WriteFailed?
      ensures Went(from, ks, to) && to.tx == View() && OutFlown(from.out, to.out, result, sent, lost)
    {
      sent, ks, to := [], [], from;
      Stayed(from);
      assert from.out + [] == from.out;
      while written < |msgs|
        invariant Flying(old(View()), View(), old(wire), wire, timer.mtu, sent)
        invariant Equipped(old(View()), timer.mtu, sealer) ==> Equipped(View(), timer.mtu, sealer)
        invariant Went(from, ks, to) && to.tx == View() && to.out == from.out + Records(sent)
        decreases |msgs| - written, BytesLeft(msgs, written, offset)
      {
        ghost var tx, here := View(), to;
        ghost var packet, more;
        result, packet, more, to := SendPacket(sealer, here);
        WentThrough(from, ks, here, more, to);
        ks := ks + more;
        if !result.Sent? {
          Landed(old(View()), tx, View(), old(wire), timer.mtu, sent, packet, result);
          OutAtEnd(from.out, here.out, to.out, result, sent, packet);
          return result, sent, packet, ks, to;
        }
        StillFlying(old(View()), tx, View(), old(wire), timer.mtu, sent, packet);
        OutSnoc(from.out, here.out, to.out, sent, packet);
        sent := sent + [packet];
      }
      AllSent(old(View()), View(), old(wire), wire, timer.mtu, sent);
      assert to.out + [] == to.out;
      return Sent, sent, [], ks, to;
    }

    /** dtls1_flush_flight: the timer is started for the next flight. */
    method FlushFlight(query: bool, answer: int, sealer: Sealer, now: Time, ghost from: Sending)
        returns (result: FlightResult, ghost sent: seq<seq<Sealed>>, ghost lost: seq<Sealed>,
                 ghost ks: seq<Stroke>, ghost to: Sending)
      requires PosOk(View()) && (timer.mtu >= MIN_MTU || query) && timer.Valid() && now.Ok() && from.tx == View()
      modifies `written, `offset, `cur, `prev, `wire, `complete, timer
      ensures Flown(old(View()).(complete := true), View(), old(wire), wire, timer.mtu, result, sent, lost)
      ensures result.Shutdown? <==> shutdown
      ensures Equipped(old(View()).(complete := true), timer.mtu, sealer) ==>
        shutdown || result.Sent? || result.WriteFailed?
      ensures timer.Valid() && timer.nextTimeout.Micros() == now.Micros() + 1000 * timer.durationMs
      ensures Went(from, ks, to) && to.tx == View() && OutFlown(from.out, to.out, result, sent, lost)
    {
      complete := true;
      timer.Start(now);
      result, sent, lost, ks, to := SendFlight(query, answer, sealer, Stroked(from, Finish));
      FirstThen(from, Finish, ks, to);
      ks := [Finish] + ks;
    }

    /** dtls1_retransmit_outgoing_messages: the whole flight again, whatever was sent of it. */
    method Retransmit(query: bool, answer: int, sealer: Sealer, ghost from: Sending)
        returns (result: FlightResult, ghost sent: seq<seq<Sealed>>, ghost lost: seq<Sealed>,
                 ghost ks: seq<Stroke>, ghost to: Sending)
      requires PosOk(View()) && (timer.mtu >= MIN_MTU || query) && from.tx == View()
      modifies `written, `offset, `cur, `prev, `wire, timer`mtu
      ensures Flown(old(View()).(written := 0, offset := 0), View(), old(wire), wire, timer.mtu, result, sent, lost)
      ensures result.Shutdown? <==> shutdown
      ensures old(timer.mtu) >= MIN_MTU ==> timer.mtu == old(timer.mtu)
      ensures Equipped(old(View()).(written := 0, offset := 0), timer.mtu, sealer) ==>
        shutdown || result.Sent? || result.WriteFailed?
      ensures Went(from, ks, to) && to.tx == View() && OutFlown(from.out, to.out, result, sent, lost)
    {
      written, offset := 0, 0;
      result, sent, lost, ks, to := SendFlight(query, answer, sealer, Stroked(from, Restart));
      FirstThen(from, Restart, ks, to);
      ks := [Restart] + ks;
    }

    /** DTLSv1_handle_timeout: an expired timer counts and backs off, and then the flight is
        sent again, cut for the MTU that the transport has fallen back to. None if nothing
        was sent. */
    method HandleTimeout(now: Time, later: Time, fallback: Option<int>, query: bool, answer: int, sealer: Sealer,
                         ghost from: Sending)
        returns (timeout: TimeoutResult, result: Option<FlightResult>, ghost sent: seq<seq<Sealed>>,
                 ghost lost: seq<Sealed>)
      requires PosOk(View()) && (timer.mtu >= MIN_MTU || query) && timer.Valid() && now.Ok() && later.Ok()
      requires from.tx == View()
      modifies `written, `offset, `cur, `prev, `wire, timer
      ensures timeout.NotExpired? <==>
        !(old(timer.nextTimeout) != ZERO && old(timer.nextTimeout).Micros() < now.Micros() + 15000)
      ensures timer.Valid() && (result.Some? <==> timeout.Retransmitted?)
      ensures timeout.GiveUp? <==> !timeout.NotExpired? && timer.numTimeouts > DTLS1_MAX_TIMEOUTS
      ensures timer.checks == old(timer.checks) + if timeout.NotExpired? then 0 else 1
      ensures result.None? ==> View() == old(View()) && wire == old(wire)
      ensures result.Some? ==>
        Flown(old(View()).(written := 0, offset := 0), View(), old(wire), wire, timer.mtu, result.value, sent, lost)
      ensures result.Some? && timer.numTimeouts > DTLS1_MTU_TIMEOUTS && fallback.Some? && UsableMtu(fallback.value) ==>
        timer.mtu == fallback.value
    {
      sent, lost := [], [];
      timeout := timer.HandleTimeout(now, later, fallback);
      if !timeout.Retransmitted? { return timeout, None, [], []; }
      ghost var ks, to;
      var r;
      r, sent, lost, ks, to := Retransmit(query, answer, sealer, from);
      result := Some(r);
    }
  }

  function Listed(rec: Option<Sealed>): seq<Sealed> {
    if rec.Some? then [rec.value] else []
  }

  /** One record of the flight: it is sealed and the position moves on behind it, or sealing
      fails, or there is no room for it. */
  ghost predicate Once(tx: Tx, tx': Tx, maxOut: nat, sealer: Sealer, failed: bool, rec: Option<Sealed>, whole: bool) {
    && PosOk(tx') && SameSetup(tx, tx')
    && (rec.None? ==> tx'.written == tx.written && tx'.offset == tx.offset)
    && (rec.Some? ==> !failed && rec.value.len <= maxOut)
    && (rec.Some? ==> if whole then tx'.written == tx.written + 1 else tx'.offset > 0)
    && (rec.Some? ==> After(tx.msgs, tx.written, tx.offset, rec.value) == Some((tx'.written, tx'.offset)))
    && (!failed && rec.None? ==> !Roomy(tx, maxOut) && tx' == tx)
    && (Able(tx, sealer) && maxOut < TWO_16 + RT_HEADER_LENGTH ==> !failed && Able(tx', sealer))
  }

  lemma OnceSealed(tx: Tx, maxOut: nat, sealer: Sealer)
    requires PosOk(tx) && tx.written < |tx.msgs|
    ensures var r := SealNextWith(tx, maxOut, sealer);
      match r
      case SealError(t) => forall whole :: Once(tx, t, maxOut, sealer, true, None, whole)
      case NoProgress => forall whole :: Once(tx, tx, maxOut, sealer, false, None, whole)
      case Progress(rec, _, whole) => Once(tx, Moved(r), maxOut, sealer, false, Some(rec), whole)
  {
    var r := SealNextWith(tx, maxOut, sealer);
    SealNextSetup(tx, maxOut, NextLen(tx, maxOut, sealer));
    match r
    case SealError(_) =>
      if Able(tx, sealer) && maxOut < TWO_16 + RT_HEADER_LENGTH { SealNextSucceeds(tx, maxOut, sealer); }
    case NoProgress =>
      if Roomy(tx, maxOut) { RoomyMovesOn(tx, maxOut, NextLen(tx, maxOut, sealer)); }
    case Progress(_, _, _) =>
      MovedOn(tx, maxOut, NextLen(tx, maxOut, sealer));
      if Able(tx, sealer) { StaysAble(tx, maxOut, sealer); }
  }

  lemma CutStroke(from: Sending, maxOut: nat, sealer: Sealer)
    requires from.tx.written < |from.tx.msgs|
    ensures var r := SealNextWith(from.tx, maxOut, sealer);
      Stroked(from, Cut(maxOut, NextLen(from.tx, maxOut, sealer))) ==
        match r
        case SealError(t) => Sending(t, from.saved, from.out + [])
        case NoProgress => Sending(from.tx, from.saved, from.out + [])
        case Progress(rec, _, _) => Sending(Moved(r), from.saved, from.out + [rec])
  {
    assert from.out + [] == from.out;
  }

  /** The records sealed for a packet so far, with room left. */
  ghost predicate InPacket(tx: Tx, tx': Tx, size: nat, room: nat, sealer: Sealer, packet: seq<Sealed>) {
    && PosOk(tx') && SameSetup(tx, tx') && TotalLen(packet) + room == size
    && Tiles(tx.msgs, tx.written, tx.offset, packet, tx'.written, tx'.offset)
    && (if packet == [] then tx' == tx else Further(tx.msgs, tx.written, tx.offset, tx'.written, tx'.offset))
    && (Able(tx, sealer) && size < TWO_16 + RT_HEADER_LENGTH ==> Able(tx', sealer))
  }

  /** What seal_next_packet makes of the flight. */
  ghost predicate Packed(tx: Tx, tx': Tx, size: nat, sealer: Sealer, result: PacketResult, packet: seq<Sealed>) {
    && PosOk(tx') && SameSetup(tx, tx') && TotalLen(packet) <= size
    && Tiles(tx.msgs, tx.written, tx.offset, packet, tx'.written, tx'.offset)
    && (result.PacketOk? ==> packet != [] && Further(tx.msgs, tx.written, tx.offset, tx'.written, tx'.offset))
    && (result.PacketOk? ==>
         tx'.written == |tx.msgs| || tx'.offset > 0 || !Roomy(tx', size - TotalLen(packet)))
    && (result.MtuTooSmall? ==> packet == [] && tx' == tx && !Roomy(tx', size))
    && (Able(tx, sealer) && size < TWO_16 + RT_HEADER_LENGTH ==> !result.SealFailed? && Able(tx', sealer))
    && (Equipped(tx, size, sealer) ==> result.PacketOk? && Equipped(tx', size, sealer))
  }

  lemma PacketBegins(tx: Tx, size: nat, sealer: Sealer)
    requires PosOk(tx)
    ensures InPacket(tx, tx, size, size, sealer, [])
  {}

  lemma PacketGrows(tx: Tx, tx1: Tx, tx2: Tx, size: nat, room: nat, sealer: Sealer,
                    packet: seq<Sealed>, rec: Sealed, whole: bool)
    requires InPacket(tx, tx1, size, room, sealer, packet) && Once(tx1, tx2, room, sealer, false, Some(rec), whole)
    ensures InPacket(tx, tx2, size, room - rec.len, sealer, packet + [rec])
  {
    SameSetupTrans(tx, tx1, tx2);
    AfterDecreases(tx.msgs, tx1.written, tx1.offset, rec);
    TilesSnoc(tx.msgs, tx.written, tx.offset, packet, tx1.written, tx1.offset, rec);
    TotalLenSnoc(packet, rec);
  }

  lemma PacketEnds(tx: Tx, tx1: Tx, tx2: Tx, size: nat, room: nat, sealer: Sealer,
                   packet: seq<Sealed>, failed: bool, whole: bool, result: PacketResult)
    requires InPacket(tx, tx1, size, room, sealer, packet) && Once(tx1, tx2, room, sealer, failed, None, whole)
    requires result == if failed then SealFailed else if packet == [] then MtuTooSmall else PacketOk
    ensures Packed(tx, tx2, size, sealer, result, packet)
  {
    SameSetupTrans(tx, tx1, tx2);
    RoomySame(tx, tx2, size);
  }

  lemma PacketFull(tx: Tx, tx': Tx, size: nat, room: nat, sealer: Sealer, packet: seq<Sealed>)
    requires InPacket(tx, tx', size, room, sealer, packet) && packet != []
    requires tx'.written == |tx.msgs| || tx'.offset > 0
    ensures Packed(tx, tx', size, sealer, PacketOk, packet)
  {
    RoomySame(tx, tx', size);
  }

  /** Packets sent so far: they fit, and they tile the flight up to the present position. */
  ghost predicate Flying(tx: Tx, tx': Tx, wire: seq<seq<Sealed>>, wire': seq<seq<Sealed>>, mtu: nat,
                         sent: seq<seq<Sealed>>) {
    && PosOk(tx') && SameSetup(tx, tx') && mtu >= MIN_MTU
    && wire' == wire + sent && AllFit(sent, mtu)
    && Tiles(tx.msgs, tx.written, tx.offset, Records(sent), tx'.written, tx'.offset)
  }

  /** What send_flight leaves behind. */
  ghost predicate Flown(tx: Tx, tx': Tx, wire: seq<seq<Sealed>>, wire': seq<seq<Sealed>>, mtu: nat,
                        result: FlightResult, sent: seq<seq<Sealed>>, lost: seq<Sealed>) {
    && PosOk(tx') && SameSetup(tx, tx') && (result.Shutdown? || mtu >= MIN_MTU)
    && wire' == wire + sent && AllFit(sent, mtu)
    && Tiles(tx.msgs, tx.written, tx.offset, Records(sent) + lost, tx'.written, tx'.offset)
    && (Tiles(tx.msgs, tx.written, tx.offset, Records(sent), tx'.written, tx'.offset) <==> lost == [])
    && (lost != [] ==> result == Failed(SealFailed))
    && (result.Sent? ==> tx'.written == |tx.msgs| && tx'.offset == 0)
    && (result == Failed(MtuTooSmall) ==> !Roomy(tx', mtu))
  }

  /** What one packet does: sent, it tiles the flight from the old position to the new one;
      after a failed write the position is the old one; a failed seal may lose records. */
  ghost predicate Dispatched(tx: Tx, tx': Tx, mtu: nat, sealer: Sealer, result: FlightResult, packet: seq<Sealed>) {
    && PosOk(tx') && SameSetup(tx, tx') && !result.Shutdown? && TotalLen(packet) <= mtu
    && Tiles(tx.msgs, tx.written, tx.offset, packet, tx'.written, tx'.offset)
    && (result.Sent? ==> Further(tx.msgs, tx.written, tx.offset, tx'.written, tx'.offset))
    && (packet != [] ==> result.Sent? || result == Failed(SealFailed))
    && (result.WriteFailed? || result == Failed(MtuTooSmall) ==>
         packet == [] && tx'.written == tx.written && tx'.offset == tx.offset)
    && (result == Failed(MtuTooSmall) ==> !Roomy(tx', mtu))
    && (Equipped(tx, mtu, sealer) ==>
         (result.Sent? || result.WriteFailed?) && (result.Sent? ==> Equipped(tx', mtu, sealer)))
  }

  /** The records sealed for a packet: the packet, unless its write failed. */
  ghost predicate OutGrows(out: seq<Sealed>, out': seq<Sealed>, result: FlightResult, packet: seq<Sealed>) {
    out <= out' && (!result.WriteFailed? ==> out' == out + packet)
  }

  /** The records sealed by a pass: those sent, and then those of the packet that was lost,
      or that could not be written. */
  ghost predicate OutFlown(out: seq<Sealed>, out': seq<Sealed>, result: FlightResult, sent: seq<seq<Sealed>>,
                           lost: seq<Sealed>) {
    out + Records(sent) + lost <= out' && (!result.WriteFailed? ==> out' == out + Records(sent) + lost)
  }

  lemma {:induction false} OutAtEnd(out: seq<Sealed>, here: seq<Sealed>, out': seq<Sealed>, result: FlightResult,
                 sent: seq<seq<Sealed>>, packet: seq<Sealed>)
    requires here == out + Records(sent) && OutGrows(here, out', result, packet)
    requires result.WriteFailed? ==> packet == []
    ensures OutFlown(out, out', result, sent, packet)
  {}

  lemma {:induction false} OutSnoc(out: seq<Sealed>, here: seq<Sealed>, out': seq<Sealed>, sent: seq<seq<Sealed>>,
                                   packet: seq<Sealed>)
    requires here == out + Records(sent) && out' == here + packet
    ensures out' == out + Records(sent + [packet])
  {
    RecordsSnoc(sent, packet);
  }

  lemma SealedMore(out: seq<Sealed>, packet: seq<Sealed>, rec: Option<Sealed>)
    ensures out + packet + Listed(rec) == out + if rec.Some? then packet + [rec.value] else packet
  {}

  lemma FirstThen(from: Sending, k: Stroke, ks: seq<Stroke>, to: Sending)
    requires Went(Stroked(from, k), ks, to)
    ensures Went(from, [k] + ks, to)
  {
    OneStroke(from, k);
    WentThrough(from, [k], Stroked(from, k), ks, to);
  }

  lemma BeginThen(from: Sending, ks: seq<Stroke>, to: Sending)
    requires Went(Stroked(from, Begin), ks, to)
    ensures Went(from, [Begin] + ks, to)
  {
    FirstThen(from, Begin, ks, to);
  }

  /** A packet was written, or it was not, or sealing failed. */
  lemma PackedDispatches(tx: Tx, tx1: Tx, mtu: nat, sealer: Sealer, r: PacketResult, packet: seq<Sealed>)
    requires PosOk(tx) && Packed(tx, tx1, mtu, sealer, r, packet)
    ensures r.PacketOk? ==> Dispatched(tx, tx1, mtu, sealer, Sent, packet)
    ensures r.PacketOk? ==>
      Dispatched(tx, tx1.(written := tx.written, offset := tx.offset), mtu, sealer, WriteFailed, [])
    ensures !r.PacketOk? ==> Dispatched(tx, tx1, mtu, sealer, Failed(r), packet)
  {
    RoomySame(tx, tx1, mtu);
  }

  /** Nothing but a failed write can keep the flight from being sent: the MTU holds one body
      byte and the overhead, and no more than a record can carry, and sealing cannot fail. */
  ghost predicate Equipped(tx: Tx, mtu: nat, sealer: Sealer) {
    Able(tx, sealer) && Roomy(tx, mtu) && mtu < TWO_16 + RT_HEADER_LENGTH
  }

  lemma {:induction false} StillFlying(tx: Tx, tx1: Tx, tx2: Tx, wire: seq<seq<Sealed>>, mtu: nat,
                                       sent: seq<seq<Sealed>>, packet: seq<Sealed>)
    requires Flying(tx, tx1, wire, wire + sent, mtu, sent) && SameSetup(tx1, tx2) && PosOk(tx2)
    requires TotalLen(packet) <= mtu
    requires Tiles(tx1.msgs, tx1.written, tx1.offset, packet, tx2.written, tx2.offset)
    ensures Flying(tx, tx2, wire, wire + (sent + [packet]), mtu, sent + [packet])
    ensures wire + sent + [packet] == wire + (sent + [packet])
  {
    SameSetupTrans(tx, tx1, tx2);
    PacketTiles(tx.msgs, tx.written, tx.offset, sent, tx1.written, tx1.offset, packet, tx2.written, tx2.offset, mtu);
  }

  /** The loop ended early, with the records of a packet lost or none. */
  lemma {:induction false} Landed(tx: Tx, tx1: Tx, tx2: Tx, wire: seq<seq<Sealed>>, mtu: nat,
                                  sent: seq<seq<Sealed>>, packet: seq<Sealed>, result: FlightResult)
    requires Flying(tx, tx1, wire, wire + sent, mtu, sent) && SameSetup(tx1, tx2) && PosOk(tx2)
    requires Tiles(tx1.msgs, tx1.written, tx1.offset, packet, tx2.written, tx2.offset)
    requires !result.Sent? && !result.Shutdown? && (packet != [] ==> result == Failed(SealFailed))
    requires result == Failed(MtuTooSmall) ==> !Roomy(tx2, mtu)
    ensures Flown(tx, tx2, wire, wire + sent, mtu, result, sent, packet)
  {
    SameSetupTrans(tx, tx1, tx2);
    TilesAppend(tx.msgs, tx.written, tx.offset, Records(sent), tx1.written, tx1.offset,
                packet, tx2.written, tx2.offset);
    GapExactly(tx.msgs, tx.written, tx.offset, Records(sent), tx1.written, tx1.offset,
               packet, tx2.written, tx2.offset);
  }

  lemma AllSent(tx: Tx, tx': Tx, wire: seq<seq<Sealed>>, wire': seq<seq<Sealed>>, mtu: nat, sent: seq<seq<Sealed>>)
    requires Flying(tx, tx', wire, wire', mtu, sent) && tx'.written == |tx.msgs|
    ensures Flown(tx, tx', wire, wire', mtu, Sent, sent, [])
  {
    assert Records(sent) + [] == Records(sent);
  }

  lemma RoomySame(a: Tx, b: Tx, size: nat)
    requires SameSetup(a, b)
    ensures Roomy(a, size) <==> Roomy(b, size)
  {}

  lemma SameSetupTrans(a: Tx, b: Tx, c: Tx)
    requires SameSetup(a, b) && SameSetup(b, c)
    ensures SameSetup(a, c)
  {}

  lemma {:induction false} RecordsSnoc(packets: seq<seq<Sealed>>, packet: seq<Sealed>)
    ensures Records(packets + [packet]) == Records(packets) + packet
  {}

  lemma {:induction false} PacketTiles(msgs: seq<OutMsg>, w: nat, o: nat, sent: seq<seq<Sealed>>, w1: nat, o1: nat,
                    packet: seq<Sealed>, w2: nat, o2: nat, mtu: nat)
    requires Tiles(msgs, w, o, Records(sent), w1, o1) && Tiles(msgs, w1, o1, packet, w2, o2)
    requires AllFit(sent, mtu) && TotalLen(packet) <= mtu
    ensures Tiles(msgs, w, o, Records(sent + [packet]), w2, o2) && AllFit(sent + [packet], mtu)
  {
    RecordsSnoc(sent, packet);
    TilesAppend(msgs, w, o, Records(sent), w1, o1, packet, w2, o2);
  }

  lemma {:induction false} TilesSnoc(msgs: seq<OutMsg>, w: nat, o: nat, recs: seq<Sealed>, w1: nat, o1: nat,
                                     rec: Sealed)
    requires Tiles(msgs, w, o, recs, w1, o1) && After(msgs, w1, o1, rec).Some?
    ensures var p := After(msgs, w1, o1, rec).value; Tiles(msgs, w, o, recs + [rec], p.0, p.1)
  {
    var p := After(msgs, w1, o1, rec).value;
    assert [rec][1..] == [];
    TilesAppend(msgs, w, o, recs, w1, o1, [rec], p.0, p.1);
  }
}
