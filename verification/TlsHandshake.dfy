/** s3_both.cc: messages added to a flight as records, written out piece by piece,
    opened again, appended to the handshake buffer, parsed and consumed. */
module TlsHandshake {
  import opened Basics
  import opened DtlsCodec
  import opened TlsFraming
  import opened TlsReader

  const INT_MAX: nat := 0x7fff_ffff

  datatype FlushResult = Flushed | Blocked | FlushError

  /** The sending half. added and records are history: the messages, and the records
      made of them and of everything else in the flight. */
  class TlsSender {
    const maxSendFragment: nat
    /** aead_write_ctx */
    var cipher: Cipher
    /** pending_flight; None when it has been released. */
    var pending: Option<bytes>
    var pendingOffset: nat
    var writeBuffer: bytes
    var shutdown: bool
    var transcript: bytes
    /** Bytes the transport has taken. */
    var wire: bytes
    ghost var added: seq<bytes>
    ghost var records: seq<Kept>

    ghost function Pending(): bytes
      reads this
    {
      if pending.Some? then pending.value else []
    }

    /** Everything that has left or is to leave, in order. */
    ghost function Out(): bytes
      requires pendingOffset <= |Pending()|
      reads this
    {
      wire + writeBuffer + Pending()[pendingOffset..]
    }

    /** The bytes are exactly those of the records sealed so far. */
    ghost predicate Framed()
      reads this
    {
      maxSendFragment > 0 && pendingOffset <= |Pending()| && Out() == EncodeAll(RecordsIn(records))
    }

    /** And the records are those of the messages. */
    ghost predicate Valid()
      reads this
    {
      && Framed() && cipher.Ok() && IsFlight(records, maxSendFragment, added)
      && transcript == Flatten(added)
    }

    constructor (cipher: Cipher, maxSendFragment: nat)
      requires cipher.Ok() && maxSendFragment > 0
      ensures Valid() && added == [] && wire == [] && pending == None
      ensures this.cipher == cipher && this.maxSendFragment == maxSendFragment
    {
      this.cipher, this.maxSendFragment := cipher, maxSendFragment;
      pending, pendingOffset, writeBuffer, shutdown, transcript, wire := None, 0, [], false, [], [];
      added, records := [], [];
      new;
      EmptyFlight(maxSendFragment);
    }

    /** ssl3_set_write_state */
    method SetWriteState(c: Cipher)
      requires Valid() && c.Ok()
      modifies `cipher
      ensures Valid() && cipher == c
    {
      cipher := c;
    }

    /** tls_seal_record for one record. */
    method Seal(typ: byte, chunk: bytes) returns (rec: TlsRecord)
      ensures Wraps(rec, cipher, typ, chunk)
    {
      var nonce: bytes, tag: bytes := *, *;
      if |nonce| != cipher.nonceLen { nonce := seq(cipher.nonceLen, _ => 0); }
      if |tag| != cipher.tagLen { tag := seq(cipher.tagLen, _ => 0); }
      var body := nonce + cipher.Inner(typ, chunk) + tag;
      assert body[cipher.nonceLen..|body| - cipher.tagLen] == cipher.Inner(typ, chunk);
      return TlsRecord(cipher.Outer(typ), cipher.version, body);
    }

    /** add_record_to_flight; works is false if allocating or sealing fails. */
    method AddRecord(typ: byte, chunk: bytes, works: bool) returns (ok: bool, ghost rec: TlsRecord)
      requires Framed() && pendingOffset == 0
      modifies `pending, `records
      ensures Framed() && ok == works
      ensures if ok then records == old(records) + [Kept(rec, cipher)] && Wraps(rec, cipher, typ, chunk)
        else records == old(records)
    {
      var flight := if pending.None? then [] else pending.value;
      assert flight == Pending();
      if !works {
        pending := Some(flight);
        return false, TlsRecord(typ, 0, []);
      }
      var sealed := Seal(typ, chunk);
      RecordAppended(wire + writeBuffer, flight, records, Kept(sealed, cipher));
      pending := Some(flight + EncodeTls(sealed));
      records := records + [Kept(sealed, cipher)];
      return true, sealed;
    }

    /** ssl3_add_message: one record for every maxSendFragment bytes, and at least one.
        works is the number of records that can be sealed; when they do not suffice, the
        pieces sealed until then stay in the flight. */
    method AddMessage(msg: bytes, works: nat) returns (ok: bool)
      requires Valid() && pendingOffset == 0
      modifies `pending, `records, `transcript, `added
      ensures ok <==> |Chunks(msg, maxSendFragment)| <= works
      ensures ok ==> Valid() && added == old(added) + [msg] && transcript == old(transcript) + msg
      ensures !ok ==> Framed() && added == old(added) && transcript == old(transcript)
      ensures old(records) <= records
      ensures var cs := Chunks(msg, maxSendFragment);
        Carry(records[|old(records)|..], cipher, if ok then cs else cs[..works])
    {
      ghost var base := records;
      ghost var made;
      ok, made := AddChunks(msg, works);
      assert (base + made)[|base|..] == made;
      if !ok { return; }
      FlightMessage(base, made, cipher, maxSendFragment, added, msg);
      FlattenSnoc(added, msg);
      transcript := transcript + msg;
      added := added + [msg];
    }

    /** The do loop of ssl3_add_message. */
    method AddChunks(msg: bytes, works: nat) returns (ok: bool, ghost made: seq<Kept>)
      requires Framed() && pendingOffset == 0
      modifies `pending, `records
      ensures Framed() && records == old(records) + made
      ensures var cs := Chunks(msg, maxSendFragment);
        && (ok <==> |cs| <= works)
        && Carry(made, cipher, if ok then cs else cs[..works])
    {
      assert maxSendFragment > 0;
      hide Framed, Carry, CutSoFar, Chunks, Wraps;
      var rest, more, left := msg, true, works;
      ghost var done: seq<bytes> := [];
      made := [];
      NothingCut(cipher, msg, maxSendFragment);
      while more
        invariant Framed() && pendingOffset == 0 && records == old(records) + made && |made| + left == works
        invariant maxSendFragment > 0 && CutSoFar(made, done, cipher, msg, rest, more, maxSendFragment)
        decreases more, |rest|
      {
        var chunk := rest[..Min(|rest|, maxSendFragment)];
        ghost var rec;
        ok, rec := AddRecord(RT_HANDSHAKE, chunk, left > 0);
        if !ok {
          CutShort(made, done, cipher, msg, rest, maxSendFragment);
          return;
        }
        OneChunk(made, done, cipher, msg, rest, maxSendFragment, rec);
        made, done := made + [Kept(rec, cipher)], done + [chunk];
        rest, left := rest[|chunk|..], left - 1;
        more := rest != [];
      }
      CutAll(made, done, cipher, msg, rest, maxSendFragment);
      return true, made;
    }

    /** ssl3_add_change_cipher_spec */
    method AddChangeCipherSpec(works: bool) returns (ok: bool, ghost rec: TlsRecord)
      requires Valid() && pendingOffset == 0
      modifies `pending, `records
      ensures Valid() && ok == works
      ensures if ok then records == old(records) + [Kept(rec, cipher)] && Wraps(rec, cipher, RT_CCS, [1])
        else records == old(records)
    {
      ghost var base := records;
      ok, rec := AddRecord(RT_CCS, [1], works);
      if ok { FlightCcs(base, Kept(rec, cipher), maxSendFragment, added); }
    }

    /** ssl_write_buffer_flush: any part of the buffer may go out before it blocks. */
    method FlushBuffer() returns (ok: bool)
      requires Framed()
      modifies `writeBuffer, `wire
      ensures Framed() && old(wire) <= wire && (ok ==> writeBuffer == [])
    {
      var part: int := *;
      var n: nat := Max(0, Min(part, |writeBuffer|));
      Moves(wire, writeBuffer, n, Pending()[pendingOffset..]);
      wire, writeBuffer := wire + writeBuffer[..n], writeBuffer[n..];
      return writeBuffer == [];
    }

    /** One successful BIO_write of n bytes of the flight. */
    method WriteSome(n: nat)
      requires Framed() && writeBuffer == [] && pending.Some? && pendingOffset + n <= |pending.value|
      modifies `pendingOffset, `wire
      ensures Framed() && pendingOffset == old(pendingOffset) + n && old(wire) <= wire
    {
      WriteMoves(wire, pending.value, pendingOffset, n);
      wire := wire + pending.value[pendingOffset..pendingOffset + n];
      pendingOffset := pendingOffset + n;
    }

    /** The loop of ssl3_flush_flight: the transport takes as much as it likes of what is
        left, and may stop taking. */
    method WritePending() returns (ok: bool)
      requires Framed() && writeBuffer == [] && pending.Some?
      modifies `pendingOffset, `wire
      ensures Framed() && old(wire) <= wire && (ok ==> pendingOffset == |pending.value|)
    {
      while pendingOffset < |pending.value|
        invariant Framed() && old(wire) <= wire
        decreases |pending.value| - pendingOffset
      {
        var n: int := *;
        if n <= 0 { return false; }
        WriteSome(Min(n, |pending.value| - pendingOffset));
      }
      return true;
    }

    /** ssl3_flush_flight: whatever short writes the transport makes, and however often
        flushing is resumed, the bytes leave in order, none lost and none repeated. */
    method Flush() returns (r: FlushResult)
      requires Valid()
      modifies `pending, `pendingOffset, `writeBuffer, `wire
      ensures Valid() && old(wire) <= wire
      ensures r.Flushed? && old(pending).Some? ==> pending == None && wire == EncodeAll(RecordsIn(records))
    {
      if pending.None? { return Flushed; }
      if shutdown || |pending.value| > INT_MAX { return FlushError; }
      if writeBuffer != [] {
        var ok := FlushBuffer();
        if !ok { return Blocked; }
      }
      var written := WritePending();
      if !written { return Blocked; }
      assert wire + [] + pending.value[pendingOffset..] == wire && wire + [] + [] == wire;
      var flushed: bool := *;
      if !flushed { return FlushError; }
      pending, pendingOffset := None, 0;
      return Flushed;
    }
  }

  lemma WriteMoves(wire: bytes, data: bytes, offset: nat, n: nat)
    requires offset + n <= |data|
    ensures wire + [] + data[offset..] == (wire + data[offset..offset + n]) + [] + data[offset + n..]
  {}

  lemma Moves(a: bytes, b: bytes, n: nat, c: bytes)
    requires n <= |b|
    ensures a + b + c == (a + b[..n]) + b[n..] + c
  {}

  lemma RecordAppended(out: bytes, flight: bytes, ks: seq<Kept>, k: Kept)
    requires out + flight[0..] == EncodeAll(RecordsIn(ks))
    ensures out + (flight + EncodeTls(k.rec))[0..] == EncodeAll(RecordsIn(ks + [k]))
  {
    assert RecordsIn(ks + [k]) == RecordsIn(ks) + [k.rec];
    EncodeAllAppend(RecordsIn(ks), [k.rec]);
    assert [k.rec][1..] == [] && EncodeTls(k.rec) + [] == EncodeTls(k.rec);
    assert out + (flight + EncodeTls(k.rec))[0..] == (out + flight[0..]) + EncodeTls(k.rec);
  }

  /** The receiving half. */
  class TlsReceiver {
    const maxLen: nat
    /** aead_read_ctx */
    var cipher: Cipher
    /** hs_buf; None when it has been released. */
    var hsBuf: Option<bytes>
    var hasMessage: bool
    var empties: nat
    var inInit: bool

    ghost function View(): Reader
      reads this
    {
      Reader(if hsBuf.Some? then hsBuf.value else [], hasMessage, empties, cipher)
    }

    ghost predicate Valid()
      reads this
    {
      View().Ok()
    }

    constructor (cipher: Cipher, maxLen: nat)
      ensures Valid() && View() == InitialReader(cipher) && this.maxLen == maxLen
    {
      this.cipher, this.maxLen := cipher, maxLen;
      hsBuf, hasMessage, empties, inInit := None, false, 0, true;
    }

    /** tls_can_accept_handshake_data */
    method CanAccept() returns (ok: bool)
      ensures ok <==> Accepting(View().buf, maxLen)
    {
      var parsed := if hsBuf.None? then Need(HM_LENGTH) else ParseMessage(hsBuf.value);
      return parsed.Need? && parsed.n <= HM_LENGTH + maxLen;
    }

    /** tls_has_unprocessed_handshake_data */
    method HasUnprocessed() returns (r: bool)
      ensures r <==> Unprocessed(View())
    {
      var msgLen := 0;
      if hasMessage && hsBuf.Some? {
        var parsed := ParseMessage(hsBuf.value);
        if parsed.Got? { msgLen := parsed.n; }
      }
      return hsBuf.Some? && |hsBuf.value| > msgLen;
    }

    /** tls_open_record */
    method OpenRecord(input: bytes) returns (v: Verdict)
      requires Valid()
      modifies `empties
      ensures Valid() && (v, empties) == OpenTls(old(View()), maxLen, input)
    {
      var ok := CanAccept();
      if !ok { return Broken; }
      if |input| < RT_LENGTH { return Partial(RT_LENGTH); }
      var version, len := FromBigEndian(input[1..3]), FromBigEndian(input[3..5]);
      if !cipher.VersionOk(version) || len > MAX_ENCRYPTED_LENGTH { return Broken; }
      var parsed := ParseTls(input);
      if parsed.Fail? { return Partial(RT_LENGTH + len); }
      v := Decrypt(parsed.value, |input| - |parsed.rest|);
    }

    /** tls_open_record from decryption on. */
    method Decrypt(rec: TlsRecord, n: nat) returns (v: Verdict)
      requires Valid()
      modifies `empties
      ensures Valid() && (v, empties) == OpenBody(old(View()), rec, n)
    {
      var plain := Open(cipher, rec.body);
      if plain.None? || |plain.value| > MAX_PLAIN_LENGTH + cipher.TypeLen() { return Broken; }
      var inner := FindType(rec.typ, plain.value);
      if inner.None? { return Broken; }
      var (typ, body) := inner.value;
      if body == [] {
        empties := (empties + 1) % 256;
        if empties > MAX_EMPTY_RECORDS { return Broken; }
      } else {
        empties := 0;
      }
      if typ == RT_ALERT { return Alert(n); }
      if typ != RT_HANDSHAKE {
        var unprocessed := HasUnprocessed();
        if unprocessed { return Broken; }
      }
      return Opened(typ, body, n);
    }

    /** The type of a decrypted record, with the padding loop of TLS 1.3. */
    method FindType(typ: byte, plain: bytes) returns (r: Option<(byte, bytes)>)
      ensures r == Uncovered(cipher, typ, plain)
    {
      if !cipher.hidesType { return Some((typ, plain)); }
      if typ != RT_APP_DATA { return None; }
      var out, inner := plain, 0;
      while inner == 0
        invariant if inner == 0 then Stripped(plain) == Stripped(out) else Stripped(plain) == Some((inner, out))
        decreases |out|
      {
        if out == [] { return None; }
        inner, out := out[|out| - 1], out[..|out| - 1];
      }
      return Some((inner, out));
    }

    /** ssl3_set_read_state */
    method SetReadState(c: Cipher) returns (ok: bool)
      requires Valid()
      modifies `cipher
      ensures Valid() && (ok, View()) == TlsReader.SetReadState(old(View()), c)
    {
      var unprocessed := HasUnprocessed();
      if unprocessed { return false; }
      cipher := c;
      return true;
    }

    /** ssl3_open_handshake: other types must not come between parts of a message. */
    method OpenHandshake(input: bytes) returns (v: Verdict)
      requires Valid()
      modifies `hsBuf, `empties
      ensures Valid() && (v, View()) == TlsReader.OpenHandshake(old(View()), maxLen, input)
    {
      ghost var before := View();
      if hsBuf.None? { hsBuf := Some([]); }
      assert View() == before;
      v := OpenRecord(input);
      if !v.Opened? { return; }
      if v.typ != RT_HANDSHAKE { return Broken; }
      hsBuf := Some(hsBuf.value + v.body);
    }

    /** ssl3_open_change_cipher_spec */
    method OpenChangeCipherSpec(input: bytes) returns (v: Verdict)
      requires Valid()
      modifies `empties
      ensures Valid() && (v, View()) == TlsReader.OpenChangeCipherSpec(old(View()), maxLen, input)
    {
      v := OpenRecord(input);
      if v.Opened? && (v.typ != RT_CCS || v.body != [1]) { return Broken; }
    }

    /** ssl3_get_message */
    method GetMessage() returns (raw: Option<bytes>)
      requires Valid()
      modifies `hasMessage
      ensures Valid() && (raw, View()) == TlsReader.GetMessage(old(View()))
    {
      if hsBuf.None? { return None; }
      var parsed := ParseMessage(hsBuf.value);
      if parsed.Need? { return None; }
      hasMessage := true;
      return Some(hsBuf.value[..parsed.n]);
    }

    /** ssl3_next_message: moves the rest of the buffer down over the message. */
    method NextMessage()
      requires Valid() && ParseMessage(View().buf).Got?
      modifies `hsBuf, `hasMessage
      ensures Valid() && View() == TlsReader.NextMessage(old(View())).1
    {
      var raw := GetMessage();
      hsBuf := Some(hsBuf.value[|raw.value|..]);
      hasMessage := false;
      if !inInit && hsBuf.value == [] { hsBuf := None; }
    }
  }
}
