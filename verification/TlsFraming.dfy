/** The TLS handshake byte stream (sections 6.2.1 and 7.4 of RFC 5246) on values:
    messages, their cutting into records, and why record boundaries do not matter. */
module TlsFraming {
  import opened Basics
  import opened DtlsCodec

  const HM_LENGTH: nat := 4
  const RT_LENGTH: nat := 5

  // ---- Messages ----------------------------------------------------------

  /** A whole handshake message: type, 24-bit length and body. */
  predicate IsMessage(m: bytes) {
    |m| >= HM_LENGTH && |m| == HM_LENGTH + FromBigEndian(m[1..4])
  }

  predicate AreMessages(ms: seq<bytes>) {
    forall i :: 0 <= i < |ms| ==> IsMessage(ms[i])
  }

  datatype ParseResult = Need(n: nat) | Got(n: nat)

  /** parse_message: the length of the message in front, or how many bytes it needs. */
  function ParseMessage(buf: bytes): (r: ParseResult)
    ensures r.Got? ==> r.n <= |buf| && IsMessage(buf[..r.n])
    ensures r.Need? ==> r.n > |buf|
  {
    if |buf| < HM_LENGTH then Need(HM_LENGTH) else
    var len := HM_LENGTH + FromBigEndian(buf[1..4]);
    assert len <= |buf| ==> buf[..len][1..4] == buf[1..4];
    if |buf| < len then Need(len) else Got(len)
  }

  lemma MessageInFront(m: bytes, rest: bytes)
    requires IsMessage(m)
    ensures ParseMessage(m + rest) == Got(|m|) && (m + rest)[..|m|] == m && (m + rest)[|m|..] == rest
  {
    assert (m + rest)[1..4] == m[1..4];
  }

  /** A message is in front exactly when its four header bytes and the body they announce are. */
  lemma ParseExactly(buf: bytes)
    ensures ParseMessage(buf) ==
      if |buf| < 4 then Need(4)
      else
        var len: nat := 4 + 0x1_0000 * (buf[1] as nat) + 0x100 * (buf[2] as nat) + buf[3] as nat;
        if |buf| < len then Need(len) else Got(len)
  {
    if |buf| >= 4 { ShortValues(buf[1..4]); }
  }

  /** Messages cut from the front of a stream are the messages it was made of. */
  lemma {:induction false} TakenArePrefix(taken: seq<bytes>, buf: bytes, ms: seq<bytes>)
    requires AreMessages(taken) && AreMessages(ms) && Flatten(taken) + buf <= Flatten(ms)
    ensures taken <= ms
    decreases |taken|
  {
    if taken != [] {
      var rest := Flatten(taken[1..]) + buf;
      var more := Flatten(ms)[|Flatten(taken) + buf|..];
      assert Flatten(ms) == taken[0] + (rest + more);
      MessageInFront(taken[0], rest + more);
      MessageInFront(ms[0], Flatten(ms[1..]));
      assert taken[0] == ms[0] && rest + more == Flatten(ms[1..]);
      TakenArePrefix(taken[1..], buf, ms[1..]);
    }
  }

  /** Once everything has arrived and no whole message is left, all of them were taken. */
  lemma {:induction false} AllTaken(taken: seq<bytes>, buf: bytes, ms: seq<bytes>)
    requires AreMessages(taken) && AreMessages(ms) && Flatten(taken) + buf == Flatten(ms)
    requires ParseMessage(buf).Need?
    ensures taken == ms && buf == []
  {
    TakenArePrefix(taken, buf, ms);
    var left := ms[|taken|..];
    assert ms == taken + left;
    FlattenAppend(taken, left);
    assert buf == (Flatten(taken) + buf)[|Flatten(taken)|..];
    assert Flatten(left) == (Flatten(taken) + Flatten(left))[|Flatten(taken)|..];
    if left != [] { MessageInFront(left[0], Flatten(left[1..])); }
  }

  /** What is still needed of a message that is arriving is never more than its length. */
  lemma {:induction false} NeedIsShort(taken: seq<bytes>, buf: bytes, ms: seq<bytes>, maxLen: nat)
    requires AreMessages(taken) && AreMessages(ms) && Flatten(taken) + buf <= Flatten(ms)
    requires (forall i :: 0 <= i < |ms| ==> |ms[i]| <= HM_LENGTH + maxLen) && ParseMessage(buf).Need?
    ensures ParseMessage(buf).n <= HM_LENGTH + maxLen
  {
    TakenArePrefix(taken, buf, ms);
    var left := ms[|taken|..];
    assert ms == taken + left;
    FlattenAppend(taken, left);
    assert buf == (Flatten(taken) + buf)[|Flatten(taken)|..];
    assert Flatten(left) == (Flatten(taken) + Flatten(left))[|Flatten(taken)|..];
    if |buf| >= HM_LENGTH {
      assert buf[1..4] == Flatten(left)[1..4];
      assert Flatten(left)[1..4] == left[0][1..4];
      assert ms[|taken|] == left[0];
    }
  }

  // ---- Records -----------------------------------------------------------

  datatype TlsRecord = TlsRecord(typ: byte, version: nat, body: bytes) {
    predicate Fits() { version < TWO_16 && |body| < TWO_16 }
  }

  /** The bytes of a record: header and ciphertext. The length field takes the low
      sixteen bits of the length, whatever it is. */
  function EncodeTls(r: TlsRecord): bytes {
    [r.typ] + BigEndian(r.version, 2) + BigEndian(|r.body| % TWO_16, 2) + r.body
  }

  /** Type, version, length and body. */
  lemma RecordLayout(r: TlsRecord)
    requires |r.body| < 0x1_0000
    ensures EncodeTls(r) == [r.typ] + Two(r.version) + Two(|r.body|) + r.body
  {
    hide BigEndian, Two;
    UpToThree(r.version);
    UpToThree(|r.body|);
    assert |r.body| % TWO_16 == |r.body|;
  }

  /** The part of tls_open_record that finds the record in front. */
  function ParseTls(bs: bytes): (r: Parsed<TlsRecord>)
    ensures r.Done? ==> |r.rest| + RT_LENGTH + |r.value.body| == |bs|
  {
    if |bs| < RT_LENGTH || |bs| < RT_LENGTH + FromBigEndian(bs[3..5]) then Fail
    else
      var len := FromBigEndian(bs[3..5]);
      Done(TlsRecord(bs[0], FromBigEndian(bs[1..3]), bs[5..5 + len]), bs[5 + len..])
  }

  /** The header of a record reads back, also when the body has not arrived. */
  lemma HeaderRoundTrip(r: TlsRecord, rest: bytes)
    requires r.Fits()
    ensures var bs := EncodeTls(r) + rest;
      FromBigEndian(bs[1..3]) == r.version && FromBigEndian(bs[3..5]) == |r.body|
  {
    hide EncodeTls, BigEndian, FromBigEndian;
    HeaderBytes(r, rest);
    Pow256Table();
    BigEndianRoundTrip(r.version, 2);
    BigEndianRoundTrip(|r.body|, 2);
  }

  lemma HeaderBytes(r: TlsRecord, rest: bytes)
    ensures var bs := EncodeTls(r) + rest;
      bs[1..3] == BigEndian(r.version, 2) && bs[3..5] == BigEndian(|r.body| % TWO_16, 2)
  {}

  lemma TlsRoundTrip(r: TlsRecord, rest: bytes)
    requires r.Fits()
    ensures ParseTls(EncodeTls(r) + rest) == Done(r, rest)
  {
    var bs := EncodeTls(r) + rest;
    HeaderRoundTrip(r, rest);
    assert bs[5..5 + |r.body|] == r.body && bs[5 + |r.body|..] == rest;
  }

  /** What a parser finds in the bytes so far it also finds when more have come. */
  lemma ParseTlsMore(a: bytes, b: bytes)
    requires ParseTls(a).Done?
    ensures ParseTls(a + b) == Done(ParseTls(a).value, ParseTls(a).rest + b)
  {
    var len := FromBigEndian(a[3..5]);
    assert (a + b)[1..3] == a[1..3] && (a + b)[3..5] == a[3..5];
    assert (a + b)[5..5 + len] == a[5..5 + len] && (a + b)[5 + len..] == a[5 + len..] + b;
  }

  /** All whole records of a byte string. */
  function RecordsOf(bs: bytes): seq<TlsRecord>
    decreases |bs|
  {
    match ParseTls(bs) case Fail => [] case Done(r, rest) => [r] + RecordsOf(rest)
  }

  function EncodeAll(rs: seq<TlsRecord>): bytes {
    if rs == [] then [] else EncodeTls(rs[0]) + EncodeAll(rs[1..])
  }

  ghost predicate AllFit(rs: seq<TlsRecord>) {
    forall i :: 0 <= i < |rs| ==> rs[i].Fits()
  }

  /** The bytes of a list of records come apart into the same records exactly when every
      version and length fits its sixteen bits. */
  lemma {:induction false} RecordsRoundTripIff(rs: seq<TlsRecord>)
    ensures RecordsOf(EncodeAll(rs)) == rs <==> AllFit(rs)
  {
    ParsedFit(EncodeAll(rs));
    if AllFit(rs) { RecordsRoundTrip(rs); }
  }

  lemma {:induction false} RecordsRoundTrip(rs: seq<TlsRecord>)
    requires AllFit(rs)
    ensures RecordsOf(EncodeAll(rs)) == rs
    decreases |rs|
  {
    if rs != [] {
      TlsRoundTrip(rs[0], EncodeAll(rs[1..]));
      RecordsRoundTrip(rs[1..]);
    }
  }

  lemma {:induction false} ParsedFit(bs: bytes)
    ensures AllFit(RecordsOf(bs))
    decreases |bs|
  {
    if ParseTls(bs).Done? {
      Pow256Table();
      FromBigEndianBound(bs[1..3]);
      FromBigEndianBound(bs[3..5]);
      ParsedFit(ParseTls(bs).rest);
    }
  }

  lemma {:induction false} EncodeAllAppend(a: seq<TlsRecord>, b: seq<TlsRecord>)
    ensures EncodeAll(a + b) == EncodeAll(a) + EncodeAll(b)
    decreases |a|
  {
    if a == [] {
      assert a + b == b;
    } else {
      EncodeAllAppend(a[1..], b);
      assert (a + b)[1..] == a[1..] + b && (a + b)[0] == a[0];
      Associate(EncodeTls(a[0]), EncodeAll(a[1..]), EncodeAll(b));
    }
  }

  // ---- What records carry ------------------------------------------------

  /** A cipher that wraps the plaintext in a nonce and a tag of fixed lengths; version is
      the record version it goes with. From TLS 1.3 on the type of a record is the last
      byte of its plaintext, in front of zeros, and the record itself says application
      data (section 5.2 of RFC 8446). */
  datatype Cipher = Cipher(isNull: bool, version: nat, nonceLen: nat, tagLen: nat, hidesType: bool) {
    predicate Ok() { version < TWO_16 && (isNull ==> VersionOk(version)) }

    /** The version check of tls_open_record. */
    predicate VersionOk(v: nat) { if isNull then v / 256 == 3 else v == version }

    function TypeLen(): nat { if hidesType then 1 else 0 }

    /** Plaintexts of up to max bytes stay within the limits of every receiver. */
    predicate Within(max: nat) {
      max <= MAX_PLAIN_LENGTH && nonceLen + TypeLen() + tagLen <= MAX_ENCRYPTED_LENGTH - MAX_PLAIN_LENGTH
    }

    /** What is sealed for a plaintext of the given type, and the type on the outside. */
    function Inner(typ: byte, chunk: bytes): bytes { if hidesType then chunk + [typ] else chunk }

    function Outer(typ: byte): byte { if hidesType then RT_APP_DATA else typ }
  }

  function Open(c: Cipher, body: bytes): Option<bytes> {
    if |body| < c.nonceLen + c.tagLen then None else Some(body[c.nonceLen..|body| - c.tagLen])
  }

  /** The padding loop of tls_open_record: the type is the last byte that is not zero. */
  function Stripped(plain: bytes): Option<(byte, bytes)>
    decreases |plain|
  {
    if plain == [] then None
    else
      var last, init := plain[|plain| - 1], plain[..|plain| - 1];
      if last == 0 then Stripped(init) else Some((last, init))
  }

  /** Any plaintext splits in one way: its type, which is not zero, stands behind the content and
      in front of zeros only; and there is none exactly when all of it is zeros. */
  lemma {:induction false} StrippedExactly(plain: bytes, typ: byte, content: bytes)
    ensures Stripped(plain) == Some((typ, content)) <==>
      && typ != 0 && |content| < |plain| && plain[..|content|] == content && plain[|content|] == typ
      && forall i :: |content| < i < |plain| ==> plain[i] == 0
    ensures Stripped(plain).None? <==> forall i :: 0 <= i < |plain| ==> plain[i] == 0
    decreases |plain|
  {
    if plain != [] {
      var init := plain[..|plain| - 1];
      StrippedExactly(init, typ, content);
      if plain[|plain| - 1] == 0 && |content| < |init| { assert init[..|content|] == plain[..|content|]; }
    }
  }

  /** Type and plaintext of a record, once decrypted. */
  function Uncovered(c: Cipher, typ: byte, plain: bytes): Option<(byte, bytes)> {
    if !c.hidesType then Some((typ, plain)) else if typ != RT_APP_DATA then None else Stripped(plain)
  }

  function Unwrapped(c: Cipher, rec: TlsRecord): Option<(byte, bytes)> {
    match Open(c, rec.body) case None => None case Some(plain) => Uncovered(c, rec.typ, plain)
  }

  /** rec is chunk, sealed. */
  ghost predicate Wraps(rec: TlsRecord, c: Cipher, typ: byte, chunk: bytes) {
    rec.typ == c.Outer(typ) && rec.version == c.version && Open(c, rec.body) == Some(c.Inner(typ, chunk))
  }

  lemma WrapsUnwraps(rec: TlsRecord, c: Cipher, typ: byte, chunk: bytes)
    requires Wraps(rec, c, typ, chunk) && typ != 0
    ensures Unwrapped(c, rec) == Some((typ, chunk)) && |rec.body| == c.nonceLen + |chunk| + c.TypeLen() + c.tagLen
  {
    if c.hidesType { assert (chunk + [typ])[..|chunk|] == chunk; }
  }

  /** A record and the cipher it was sealed with. */
  datatype Kept = Kept(rec: TlsRecord, c: Cipher)

  function RecordsIn(ks: seq<Kept>): (rs: seq<TlsRecord>)
    ensures |rs| == |ks| && forall i :: 0 <= i < |ks| ==> rs[i] == ks[i].rec
  {
    seq(|ks|, i requires 0 <= i < |ks| => ks[i].rec)
  }

  /** Type and plaintext of a sealed record. */
  function Plain(k: Kept): Option<(byte, bytes)> { Unwrapped(k.c, k.rec) }

  /** Handshake plaintext of one record. */
  function HandshakePart(k: Kept): bytes {
    match Plain(k) case None => [] case Some((typ, plain)) => if typ == RT_HANDSHAKE then plain else []
  }

  /** Handshake plaintext of a list of records, in order. */
  function HandshakeBytes(ks: seq<Kept>): bytes {
    if ks == [] then [] else HandshakePart(ks[0]) + HandshakeBytes(ks[1..])
  }

  lemma {:induction false} HandshakeBytesAppend(a: seq<Kept>, b: seq<Kept>)
    ensures HandshakeBytes(a + b) == HandshakeBytes(a) + HandshakeBytes(b)
    decreases |a|
  {
    if a == [] {
      assert a + b == b;
    } else {
      HandshakeBytesAppend(a[1..], b);
      assert (a + b)[1..] == a[1..] + b && (a + b)[0] == a[0];
      Associate(HandshakePart(a[0]), HandshakeBytes(a[1..]), HandshakeBytes(b));
    }
  }

  lemma {:induction false} HandshakeBytesSnoc(ks: seq<Kept>, k: Kept)
    ensures HandshakeBytes(ks + [k]) == HandshakeBytes(ks) + HandshakePart(k)
  {
    HandshakeBytesAppend(ks, [k]);
    assert [k][1..] == [] && HandshakePart(k) + [] == HandshakePart(k);
  }

  // ---- Cutting a message -------------------------------------------------

  /** The do loop of ssl3_add_message: an empty message makes one empty chunk. */
  function Chunks(msg: bytes, max: nat): (cs: seq<bytes>)
    requires max > 0
    ensures cs != [] && cs[0] == msg[..Min(|msg|, max)]
    decreases |msg|
  {
    if |msg| <= max then [msg] else [msg[..max]] + Chunks(msg[max..], max)
  }

  /** The chunks are the message; all but the last are full, and none is empty unless
      the message is. */
  lemma {:induction false} ChunksExactly(msg: bytes, max: nat)
    requires max > 0
    ensures var cs := Chunks(msg, max);
      && Flatten(cs) == msg
      && (forall i :: 0 <= i < |cs| ==> |cs[i]| <= max && (i < |cs| - 1 ==> |cs[i]| == max))
      && (msg != [] ==> forall i :: 0 <= i < |cs| ==> cs[i] != [])
    decreases |msg|
  {
    if |msg| <= max {
      assert [msg][1..] == [] && msg + [] == msg;
    } else {
      ChunksExactly(msg[max..], max);
      assert msg[..max] + msg[max..] == msg;
      assert Chunks(msg, max)[1..] == Chunks(msg[max..], max);
    }
  }

  /** One handshake record for each chunk. */
  ghost predicate Carry(ks: seq<Kept>, c: Cipher, chunks: seq<bytes>) {
    && |ks| == |chunks|
    && forall i {:trigger ks[i]} {:trigger chunks[i]} :: 0 <= i < |ks| ==>
      ks[i].c == c && Wraps(ks[i].rec, c, RT_HANDSHAKE, chunks[i])
  }

  /** The loop has made records of the chunks in done, and rest is still to be cut. */
  ghost predicate CutSoFar(made: seq<Kept>, done: seq<bytes>, c: Cipher, msg: bytes, rest: bytes, more: bool,
                           max: nat)
    requires max > 0
  {
    Carry(made, c, done) && done + (if more then Chunks(rest, max) else []) == Chunks(msg, max)
  }

  /** One round of the loop. */
  lemma OneChunk(made: seq<Kept>, done: seq<bytes>, c: Cipher, msg: bytes, rest: bytes,
                 max: nat, rec: TlsRecord)
    requires max > 0 && CutSoFar(made, done, c, msg, rest, true, max)
    requires Wraps(rec, c, RT_HANDSHAKE, rest[..Min(|rest|, max)])
    ensures var n := Min(|rest|, max);
      CutSoFar(made + [Kept(rec, c)], done + [rest[..n]], c, msg, rest[n..], rest[n..] != [], max)
  {
    var n := Min(|rest|, max);
    assert done + Chunks(rest, max) == (done + [rest[..n]]) + if rest[n..] == [] then [] else Chunks(rest[n..], max);
  }

  lemma NothingCut(c: Cipher, msg: bytes, max: nat)
    requires max > 0
    ensures CutSoFar([], [], c, msg, msg, true, max)
  {}

  lemma {:induction false} CutAll(made: seq<Kept>, done: seq<bytes>, c: Cipher, msg: bytes, rest: bytes, max: nat)
    requires max > 0 && CutSoFar(made, done, c, msg, rest, false, max)
    ensures Carry(made, c, Chunks(msg, max)) && |made| == |Chunks(msg, max)|
  {
    assert done + [] == done;
  }

  /** When a record cannot be sealed, those before it stay. */
  lemma {:induction false} CutShort(made: seq<Kept>, done: seq<bytes>, c: Cipher, msg: bytes, rest: bytes, max: nat)
    requires max > 0 && CutSoFar(made, done, c, msg, rest, true, max)
    ensures |made| < |Chunks(msg, max)| && Carry(made, c, Chunks(msg, max)[..|made|])
  {
    assert (done + Chunks(rest, max))[..|done|] == done;
  }

  lemma {:induction false} CarryBytes(ks: seq<Kept>, c: Cipher, chunks: seq<bytes>)
    requires Carry(ks, c, chunks)
    ensures HandshakeBytes(ks) == Flatten(chunks)
    decreases |ks|
  {
    if ks != [] {
      CarryBytes(ks[1..], c, chunks[1..]);
      WrapsUnwraps(ks[0].rec, c, RT_HANDSHAKE, chunks[0]);
    }
  }

  /** The records of a message can be told apart on the wire exactly when the first, the
      longest, fits the length field. */
  lemma {:induction false} MessageFitsExactly(ks: seq<Kept>, c: Cipher, msg: bytes, max: nat)
    requires max > 0 && c.version < TWO_16 && Carry(ks, c, Chunks(msg, max))
    ensures AllFit(RecordsIn(ks)) <==> c.nonceLen + Min(|msg|, max) + c.TypeLen() + c.tagLen < TWO_16
  {
    var cs := Chunks(msg, max);
    ChunksExactly(msg, max);
    WrapsUnwraps(ks[0].rec, c, RT_HANDSHAKE, cs[0]);
    forall i | 0 <= i < |ks| ensures |ks[i].rec.body| <= |ks[0].rec.body| && ks[i].rec.version == c.version {
      WrapsUnwraps(ks[i].rec, c, RT_HANDSHAKE, cs[i]);
    }
    if AllFit(RecordsIn(ks)) { assert RecordsIn(ks)[0].Fits(); }
  }

  // ---- Flights -----------------------------------------------------------

  /** A record of a flight: part of a handshake message, or a ChangeCipherSpec. */
  ghost predicate Sound(k: Kept, max: nat) {
    && k.c.Ok() && Plain(k).Some? && |Plain(k).value.1| <= max
    && Wraps(k.rec, k.c, Plain(k).value.0, Plain(k).value.1)
    && (Plain(k).value.0 == RT_HANDSHAKE || Plain(k) == Some((RT_CCS, [1])))
  }

  ghost predicate AllSound(ks: seq<Kept>, max: nat) {
    forall i :: 0 <= i < |ks| ==> Sound(ks[i], max)
  }

  /** bs is the first few messages. */
  ghost predicate AtMessageEnd(bs: bytes, ms: seq<bytes>) {
    exists k {:trigger ms[..k]} :: 0 <= k <= |ms| && bs == Flatten(ms[..k])
  }

  /** A ChangeCipherSpec, or the first record under another cipher. */
  predicate Joint(ks: seq<Kept>, i: nat)
    requires i < |ks|
  {
    (Plain(ks[i]).Some? && Plain(ks[i]).value.0 == RT_CCS) || (i > 0 && ks[i].c != ks[i - 1].c)
  }

  /** Neither ever comes between parts of a message. */
  ghost predicate BetweenMessages(ks: seq<Kept>, ms: seq<bytes>) {
    forall i: nat {:trigger Joint(ks, i)} :: i < |ks| && Joint(ks, i) ==> AtMessageEnd(HandshakeBytes(ks[..i]), ms)
  }

  ghost predicate NoneEmpty(ks: seq<Kept>) {
    forall i :: 0 <= i < |ks| ==> Plain(ks[i]).None? || Plain(ks[i]).value.1 != []
  }

  /** ks are the records of the messages ms and of ChangeCipherSpecs between them. */
  ghost predicate IsFlight(ks: seq<Kept>, max: nat, ms: seq<bytes>) {
    && AllSound(ks, max) && HandshakeBytes(ks) == Flatten(ms) && BetweenMessages(ks, ms)
    && ((forall i :: 0 <= i < |ms| ==> ms[i] != []) ==> NoneEmpty(ks))
  }

  lemma EmptyFlight(max: nat)
    ensures IsFlight([], max, [])
  {}

  /** A message adds its chunks to the flight. */
  lemma {:induction false} FlightMessage(ks: seq<Kept>, more: seq<Kept>, c: Cipher, max: nat, ms: seq<bytes>,
                                         msg: bytes)
    requires max > 0 && c.Ok() && IsFlight(ks, max, ms) && Carry(more, c, Chunks(msg, max))
    ensures IsFlight(ks + more, max, ms + [msg])
  {
    ChunksExactly(msg, max);
    CarryBytes(more, c, Chunks(msg, max));
    HandshakeBytesAppend(ks, more);
    FlattenSnoc(ms, msg);
    MoreSound(ks, more, c, max, ms, msg);
    MoreBetween(ks, more, c, ms, msg);
  }

  lemma {:induction false} MoreSound(ks: seq<Kept>, more: seq<Kept>, c: Cipher, max: nat, ms: seq<bytes>, msg: bytes)
    requires max > 0 && c.Ok() && IsFlight(ks, max, ms) && Carry(more, c, Chunks(msg, max))
    ensures AllSound(ks + more, max)
    ensures (forall i :: 0 <= i < |ms + [msg]| ==> (ms + [msg])[i] != []) ==> NoneEmpty(ks + more)
    ensures forall i :: 0 <= i < |more| ==> Plain(more[i]).Some? && Plain(more[i]).value.0 == RT_HANDSHAKE
  {
    var cs := Chunks(msg, max);
    ChunksExactly(msg, max);
    forall i | 0 <= i < |more| ensures Sound(more[i], max) && Plain(more[i]) == Some((RT_HANDSHAKE, cs[i])) {
      WrapsUnwraps(more[i].rec, c, RT_HANDSHAKE, cs[i]);
    }
    if forall i :: 0 <= i < |ms + [msg]| ==> (ms + [msg])[i] != [] {
      assert (ms + [msg])[|ms|] == msg;
      forall i | 0 <= i < |ms| ensures ms[i] != [] { assert (ms + [msg])[i] == ms[i]; }
    }
  }

  /** Records of one message after whole messages. */
  lemma {:induction false} MoreBetween(ks: seq<Kept>, more: seq<Kept>, c: Cipher, ms: seq<bytes>, msg: bytes)
    requires BetweenMessages(ks, ms) && HandshakeBytes(ks) == Flatten(ms)
    requires forall i :: 0 <= i < |more| ==>
      more[i].c == c && Plain(more[i]).Some? && Plain(more[i]).value.0 == RT_HANDSHAKE
    ensures BetweenMessages(ks + more, ms + [msg])
  {
    var all := ks + more;
    forall i: nat {:trigger Joint(all, i)} | i < |all| && Joint(all, i)
      ensures AtMessageEnd(HandshakeBytes(all[..i]), ms + [msg])
    {
      var k;
      if i < |ks| {
        assert all[..i] == ks[..i] && Joint(ks, i);
        k :| 0 <= k <= |ms| && HandshakeBytes(ks[..i]) == Flatten(ms[..k]);
      } else {
        assert i == |ks|;
        assert all[..i] == ks && ms[..|ms|] == ms;
        k := |ms|;
      }
      assert (ms + [msg])[..k] == ms[..k];
    }
  }

  /** A ChangeCipherSpec at the end of the flight follows whole messages. */
  lemma FlightCcs(ks: seq<Kept>, k: Kept, max: nat, ms: seq<bytes>)
    requires max > 0 && k.c.Ok() && IsFlight(ks, max, ms) && Wraps(k.rec, k.c, RT_CCS, [1])
    ensures IsFlight(ks + [k], max, ms)
  {
    WrapsUnwraps(k.rec, k.c, RT_CCS, [1]);
    HandshakeBytesSnoc(ks, k);
    assert HandshakeBytes(ks) + [] == HandshakeBytes(ks);
    CcsBetween(ks, k, ms);
  }

  lemma {:induction false} CcsBetween(ks: seq<Kept>, k: Kept, ms: seq<bytes>)
    requires BetweenMessages(ks, ms) && HandshakeBytes(ks) == Flatten(ms)
    ensures BetweenMessages(ks + [k], ms)
  {
    hide HandshakeBytes, Flatten, Plain;
    var all := ks + [k];
    forall i: nat {:trigger Joint(all, i)} | i < |all| && Joint(all, i)
      ensures AtMessageEnd(HandshakeBytes(all[..i]), ms)
    {
      if i == |ks| {
        assert all[..i] == ks && ms[..|ms|] == ms;
      } else {
        assert all[..i] == ks[..i] && Joint(ks, i);
      }
    }
  }
}
