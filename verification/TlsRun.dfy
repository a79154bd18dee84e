/** From one end of a TLS connection to the other: the sender's bytes arrive piece by
    piece, and the receiver opens records and takes messages in any order it likes. */
module TlsRun {
  import opened Basics
  import opened DtlsCodec
  import opened TlsFraming
  import opened TlsReader
  import opened TlsHandshake

  /** The receiving end: its handshake state, the read buffer, bytes under way, and as
      history the messages consumed and the number of records opened. */
  datatype Conn = Conn(r: Reader, input: bytes, coming: bytes, failed: bool, taken: seq<bytes>, done: nat)

  datatype Move = Arrive(n: nat) | OpenHs | OpenCcs | Get | Next | Rekey(c: Cipher)

  function Start(c: Cipher, wire: bytes): Conn { Conn(InitialReader(c), [], wire, false, [], 0) }

  /** One call, or some bytes arriving. Nothing happens after a failure. */
  function Play(w: Conn, maxLen: nat, m: Move): Conn {
    if w.failed then w else
    match m
    case Arrive(n) =>
      var k := Min(n, |w.coming|);
      w.(input := w.input + w.coming[..k], coming := w.coming[k..])
    case OpenHs => After(w, TlsReader.OpenHandshake(w.r, maxLen, w.input))
    case OpenCcs => After(w, OpenChangeCipherSpec(w.r, maxLen, w.input))
    case Get => w.(r := GetMessage(w.r).1)
    case Next =>
      var (msg, r') := NextMessage(w.r);
      if msg.Some? then w.(r := r', taken := w.taken + [msg.value]) else w
    case Rekey(c) =>
      var (ok, r') := SetReadState(w.r, c);
      w.(r := r', failed := !ok)
  }

  /** What follows from a verdict: the record's bytes leave the read buffer. */
  function After(w: Conn, res: (Verdict, Reader)): Conn {
    match res.0
    case Partial(_) => w.(r := res.1)
    case Opened(_, _, n) => w.(r := res.1, input := w.input[Min(n, |w.input|)..], done := w.done + 1)
    case _ => w.(r := res.1, failed := true)
  }

  function PlayAll(w: Conn, maxLen: nat, moves: seq<Move>): Conn
    decreases |moves|
  {
    if moves == [] then w else PlayAll(Play(w, maxLen, moves[0]), maxLen, moves[1..])
  }

  /** The receiver has the keys of the next record when it opens some of its bytes. */
  predicate InStep(w: Conn, ks: seq<Kept>, m: Move) {
    (m.OpenHs? || m.OpenCcs?) && w.input != [] && w.done < |ks| ==> w.r.c == ks[w.done].c
  }

  /** It changes its keys just where the sender did. */
  predicate AllInStep(w: Conn, ks: seq<Kept>, maxLen: nat, moves: seq<Move>)
    decreases |moves|
  {
    moves == [] || w.failed || (InStep(w, ks, moves[0]) && AllInStep(Play(w, maxLen, moves[0]), ks, maxLen, moves[1..]))
  }

  // ---- Safety ------------------------------------------------------------

  /** Nothing lost, repeated or reordered so far. beyond is what the sender has yet to
      write. */
  ghost predicate Follows(w: Conn, ks: seq<Kept>, beyond: bytes) {
    && w.done <= |ks| && w.input + w.coming + beyond == EncodeAll(RecordsIn(ks)[w.done..])
    && AreMessages(w.taken) && w.r.Ok()
    && Flatten(w.taken) + w.r.buf == HandshakeBytes(ks[..w.done])
  }

  /** The whole record at the front of the read buffer is the next one sealed. */
  lemma FrontRecord(w: Conn, ks: seq<Kept>, beyond: bytes)
    requires Follows(w, ks, beyond) && AllFit(RecordsIn(ks)) && ParseTls(w.input).Done?
    ensures w.done < |ks| && ParseTls(w.input).value == ks[w.done].rec && w.input != []
    ensures ParseTls(w.input).rest + w.coming + beyond == EncodeAll(RecordsIn(ks)[w.done + 1..])
  {
    ParseTlsMore(w.input, w.coming + beyond);
    Associate(w.input, w.coming, beyond);
    Associate(ParseTls(w.input).rest, w.coming, beyond);
    NextInFront(RecordsIn(ks), w.done);
  }

  lemma NextInFront(rs: seq<TlsRecord>, k: nat)
    requires AllFit(rs) && k <= |rs|
    ensures var parsed := ParseTls(EncodeAll(rs[k..]));
      if k == |rs| then parsed.Fail? else parsed == Done(rs[k], EncodeAll(rs[k + 1..]))
  {
    if k < |rs| {
      assert rs[k..][1..] == rs[k + 1..];
      TlsRoundTrip(rs[k], EncodeAll(rs[k + 1..]));
    }
  }

  /** Opening one more record adds its handshake plaintext, if any. */
  lemma OneMoreOpened(ks: seq<Kept>, k: nat)
    requires k < |ks|
    ensures HandshakeBytes(ks[..k + 1]) == HandshakeBytes(ks[..k]) + HandshakePart(ks[k])
  {
    assert ks[..k + 1] == ks[..k] + [ks[k]];
    HandshakeBytesSnoc(ks[..k], ks[k]);
  }

  /** A record's bytes leave the read buffer and its handshake plaintext is buffered. */
  lemma OpenedFollows(w: Conn, ks: seq<Kept>, beyond: bytes, r': Reader)
    requires Follows(w, ks, beyond) && AllFit(RecordsIn(ks)) && ParseTls(w.input).Done?
    requires ParseMessage(w.r.buf).Need? && r'.hasMessage == w.r.hasMessage
    requires r'.buf == w.r.buf + HandshakePart(Kept(ParseTls(w.input).value, w.r.c))
    requires w.done < |ks| ==> w.r.c == ks[w.done].c
    ensures Follows(w.(r := r', input := ParseTls(w.input).rest, done := w.done + 1), ks, beyond)
  {
    FrontRecord(w, ks, beyond);
    OneMoreOpened(ks, w.done);
    Associate(Flatten(w.taken), w.r.buf, HandshakePart(ks[w.done]));
  }

  /** What an opening function did to the reader: it accepted the record in front, or it
      left the buffer as it was. */
  ghost predicate Outcome(r: Reader, input: bytes, v: Verdict, r': Reader) {
    && r'.hasMessage == r.hasMessage && r'.c == r.c
    && if v.Opened? then
        && ParseMessage(r.buf).Need? && ParseTls(input).Done? && v.n == |input| - |ParseTls(input).rest|
        && r'.buf == r.buf + HandshakePart(Kept(ParseTls(input).value, r.c))
        && Unwrapped(r.c, ParseTls(input).value) == Some((v.typ, v.body))
      else r'.buf == r.buf
  }

  lemma HandshakeOutcome(r: Reader, maxLen: nat, input: bytes)
    ensures var (v, r') := TlsReader.OpenHandshake(r, maxLen, input); Outcome(r, input, v, r')
  {}

  lemma CcsOutcome(r: Reader, maxLen: nat, input: bytes)
    ensures var (v, r') := OpenChangeCipherSpec(r, maxLen, input); Outcome(r, input, v, r')
  {
    assert r.buf + [] == r.buf;
  }

  lemma AfterFollows(w: Conn, ks: seq<Kept>, beyond: bytes, v: Verdict, r': Reader)
    requires Follows(w, ks, beyond) && AllFit(RecordsIn(ks)) && Outcome(w.r, w.input, v, r')
    requires w.input != [] && w.done < |ks| ==> w.r.c == ks[w.done].c
    ensures Follows(After(w, (v, r')), ks, beyond)
  {
    hide EncodeAll, HandshakeBytes, HandshakePart, Unwrapped;
    if v.Opened? {
      FrontRecord(w, ks, beyond);
      RestOfInput(w.input);
      OpenedFollows(w, ks, beyond, r');
    }
  }

  lemma OpenFollows(w: Conn, maxLen: nat, ks: seq<Kept>, beyond: bytes, m: Move)
    requires Follows(w, ks, beyond) && AllFit(RecordsIn(ks)) && !w.failed && (m.OpenHs? || m.OpenCcs?)
    requires InStep(w, ks, m)
    ensures Follows(Play(w, maxLen, m), ks, beyond)
  {
    HandshakeOutcome(w.r, maxLen, w.input);
    CcsOutcome(w.r, maxLen, w.input);
    var (v, r') := if m.OpenHs? then TlsReader.OpenHandshake(w.r, maxLen, w.input)
      else OpenChangeCipherSpec(w.r, maxLen, w.input);
    AfterFollows(w, ks, beyond, v, r');
  }

  lemma RestOfInput(input: bytes)
    requires ParseTls(input).Done?
    ensures input[|input| - |ParseTls(input).rest|..] == ParseTls(input).rest
  {}

  lemma NextFollows(w: Conn, ks: seq<Kept>, beyond: bytes)
    requires Follows(w, ks, beyond) && ParseMessage(w.r.buf).Got?
    ensures var (msg, r') := NextMessage(w.r);
      Follows(w.(r := r', taken := w.taken + [msg.value]), ks, beyond)
  {
    var n := ParseMessage(w.r.buf).n;
    FlattenSnoc(w.taken, w.r.buf[..n]);
    assert w.r.buf == w.r.buf[..n] + w.r.buf[n..];
    Associate(Flatten(w.taken), w.r.buf[..n], w.r.buf[n..]);
  }

  lemma ArriveFollows(w: Conn, maxLen: nat, ks: seq<Kept>, beyond: bytes, n: nat)
    requires Follows(w, ks, beyond) && !w.failed
    ensures Follows(Play(w, maxLen, Arrive(n)), ks, beyond)
  {
    var k := Min(n, |w.coming|);
    assert (w.input + w.coming[..k]) + w.coming[k..] == w.input + w.coming;
  }

  lemma PlayFollows(w: Conn, maxLen: nat, ks: seq<Kept>, beyond: bytes, m: Move)
    requires Follows(w, ks, beyond) && AllFit(RecordsIn(ks)) && (w.failed || InStep(w, ks, m))
    ensures Follows(Play(w, maxLen, m), ks, beyond)
  {
    if w.failed { return; }
    match m
    case Arrive(n) => ArriveFollows(w, maxLen, ks, beyond, n);
    case Next => if ParseMessage(w.r.buf).Got? { NextFollows(w, ks, beyond); }
    case Get =>
    case Rekey(_) =>
    case _ => OpenFollows(w, maxLen, ks, beyond, m);
  }

  lemma {:induction false} RunFollows(w: Conn, maxLen: nat, ks: seq<Kept>, beyond: bytes, moves: seq<Move>)
    requires Follows(w, ks, beyond) && AllFit(RecordsIn(ks)) && AllInStep(w, ks, maxLen, moves)
    ensures Follows(PlayAll(w, maxLen, moves), ks, beyond)
    decreases |moves|
  {
    if w.failed {
      FailedStays(w, maxLen, moves);
    } else if moves != [] {
      PlayFollows(w, maxLen, ks, beyond, moves[0]);
      RunFollows(Play(w, maxLen, moves[0]), maxLen, ks, beyond, moves[1..]);
    }
  }

  lemma {:induction false} FailedStays(w: Conn, maxLen: nat, moves: seq<Move>)
    requires w.failed
    ensures PlayAll(w, maxLen, moves) == w
    decreases |moves|
  {
    if moves != [] { FailedStays(w, maxLen, moves[1..]); }
  }

  lemma {:induction false} OpenedPrefix(ks: seq<Kept>, k: nat)
    requires k <= |ks|
    ensures HandshakeBytes(ks[..k]) <= HandshakeBytes(ks)
  {
    assert ks == ks[..k] + ks[k..];
    HandshakeBytesAppend(ks[..k], ks[k..]);
  }

  lemma {:induction false} FollowsSafe(w: Conn, ks: seq<Kept>, beyond: bytes, ms: seq<bytes>)
    requires Follows(w, ks, beyond) && AreMessages(ms) && HandshakeBytes(ks) == Flatten(ms)
    ensures w.taken <= ms
    ensures w.done == |ks| && ParseMessage(w.r.buf).Need? ==> w.taken == ms && w.r.buf == []
  {
    OpenedPrefix(ks, w.done);
    TakenArePrefix(w.taken, w.r.buf, ms);
    if w.done == |ks| && ParseMessage(w.r.buf).Need? {
      assert ks[..w.done] == ks;
      AllTaken(w.taken, w.r.buf, ms);
    }
  }

  // ---- No refusal --------------------------------------------------------

  /** What makes a flight acceptable to a receiver: record sizes within the limits, no
      empty records, and messages it is willing to buffer. */
  ghost predicate Acceptable(max: nat, maxLen: nat, ks: seq<Kept>, ms: seq<bytes>) {
    && AreMessages(ms) && IsFlight(ks, max, ms)
    && (forall i :: 0 <= i < |ks| ==> ks[i].c.Within(max))
    && forall i :: 0 <= i < |ms| ==> |ms[i]| <= HM_LENGTH + maxLen
  }

  /** Type of the whole record in front, once decrypted. */
  function FrontType(w: Conn): Option<byte>
    requires ParseTls(w.input).Done?
  {
    match Unwrapped(w.r.c, ParseTls(w.input).value) case None => None case Some((typ, _)) => Some(typ)
  }

  /** The receiver takes whole messages before it opens the next record, asks for the type
      that record has, once it is there, and changes keys only when nothing is left over. */
  predicate Careful(w: Conn, m: Move) {
    && (m.OpenHs? || m.OpenCcs? ==>
         && ParseMessage(w.r.buf).Need?
         && (ParseTls(w.input).Done? ==> FrontType(w) == Some(if m.OpenHs? then RT_HANDSHAKE else RT_CCS)))
    && (m.Rekey? ==> !Unprocessed(w.r))
  }

  predicate AllCareful(w: Conn, maxLen: nat, moves: seq<Move>)
    decreases |moves|
  {
    moves == [] || (Careful(w, moves[0]) && AllCareful(Play(w, maxLen, moves[0]), maxLen, moves[1..]))
  }

  lemma AcceptableFits(max: nat, maxLen: nat, ks: seq<Kept>, ms: seq<bytes>)
    requires Acceptable(max, maxLen, ks, ms)
    ensures AllFit(RecordsIn(ks)) && NoneEmpty(ks)
    ensures forall i :: 0 <= i < |ks| ==> RecordFits(ks[i], max)
  {
    forall i | 0 <= i < |ks| ensures RecordFits(ks[i], max) { SoundFits(ks[i], max); }
    forall i | 0 <= i < |ks| ensures RecordsIn(ks)[i].Fits() { assert RecordFits(ks[i], max); }
    forall i | 0 <= i < |ms| ensures ms[i] != [] { assert IsMessage(ms[i]); }
  }

  /** The size and version checks pass. */
  ghost predicate RecordFits(k: Kept, max: nat) {
    && k.rec.Fits() && k.c.VersionOk(k.rec.version) && |k.rec.body| <= MAX_ENCRYPTED_LENGTH
    && Plain(k).Some? && Open(k.c, k.rec.body).Some?
    && |Open(k.c, k.rec.body).value| <= MAX_PLAIN_LENGTH + k.c.TypeLen()
    && (Plain(k).value.0 == RT_HANDSHAKE || Plain(k) == Some((RT_CCS, [1])))
  }

  lemma SoundFits(k: Kept, max: nat)
    requires Sound(k, max) && k.c.Within(max)
    ensures RecordFits(k, max)
  {
    WrapsUnwraps(k.rec, k.c, Plain(k).value.0, Plain(k).value.1);
  }

  lemma SameHeader(a: bytes, b: bytes, c: bytes)
    requires |a| >= RT_LENGTH
    ensures (a + b + c)[1..3] == a[1..3] && (a + b + c)[3..5] == a[3..5]
  {}

  /** The header checks pass on whatever has arrived of an acceptable flight. */
  lemma HeaderPasses(w: Conn, ks: seq<Kept>, beyond: bytes, max: nat)
    requires Follows(w, ks, beyond) && |w.input| >= RT_LENGTH
    requires w.done < |ks| ==> RecordFits(ks[w.done], max) && w.r.c == ks[w.done].c
    ensures w.r.c.VersionOk(FromBigEndian(w.input[1..3])) && FromBigEndian(w.input[3..5]) <= MAX_ENCRYPTED_LENGTH
  {
    var left := RecordsIn(ks)[w.done..];
    assert w.done < |ks| && left[0] == ks[w.done].rec;
    HeaderRoundTrip(left[0], EncodeAll(left[1..]));
    SameHeader(w.input, w.coming, beyond);
  }

  lemma StillAccepting(w: Conn, max: nat, maxLen: nat, ks: seq<Kept>, beyond: bytes, ms: seq<bytes>)
    requires Follows(w, ks, beyond) && Acceptable(max, maxLen, ks, ms)
    ensures Accepting(w.r.buf, maxLen) <==> ParseMessage(w.r.buf).Need?
  {
    OpenedPrefix(ks, w.done);
    if ParseMessage(w.r.buf).Need? { NeedIsShort(w.taken, w.r.buf, ms, maxLen); }
  }

  /** At a ChangeCipherSpec or a change of keys no part of a message is left over. */
  lemma NothingLeftOver(w: Conn, ks: seq<Kept>, beyond: bytes, ms: seq<bytes>)
    requires Follows(w, ks, beyond) && AreMessages(ms) && BetweenMessages(ks, ms) && ParseMessage(w.r.buf).Need?
    requires w.done < |ks| && Joint(ks, w.done)
    ensures w.r.buf == []
  {
    assert AtMessageEnd(HandshakeBytes(ks[..w.done]), ms);
    var k :| 0 <= k <= |ms| && HandshakeBytes(ks[..w.done]) == Flatten(ms[..k]);
    AllTaken(w.taken, w.r.buf, ms[..k]);
  }

  /** The record layer turns an honest record down exactly when a whole message waits. */
  lemma OpensExactly(w: Conn, max: nat, maxLen: nat, ks: seq<Kept>, beyond: bytes, ms: seq<bytes>)
    requires Follows(w, ks, beyond) && Acceptable(max, maxLen, ks, ms)
    requires w.input != [] && w.done < |ks| ==> w.r.c == ks[w.done].c
    ensures var (v, empties) := OpenTls(w.r, maxLen, w.input);
      && (v.Broken? <==> ParseMessage(w.r.buf).Got?) && !v.Alert?
      && (v.Opened? <==> ParseMessage(w.r.buf).Need? && ParseTls(w.input).Done?)
      && (v.Opened? ==> FrontType(w) == Some(v.typ) && (v.typ == RT_CCS ==> v.body == [1]))
      && (v.Opened? ==> v.typ == RT_HANDSHAKE || v.typ == RT_CCS)
  {
    hide FromBigEndian, EncodeTls, Stripped, EncodeAll, HandshakeBytes, Flatten;
    StillAccepting(w, max, maxLen, ks, beyond, ms);
    AcceptableFits(max, maxLen, ks, ms);
    if |w.input| >= RT_LENGTH { HeaderPasses(w, ks, beyond, max); }
    if ParseTls(w.input).Done? {
      FrontRecord(w, ks, beyond);
      if Plain(ks[w.done]).value.0 == RT_CCS && ParseMessage(w.r.buf).Need? {
        assert Joint(ks, w.done);
        NothingLeftOver(w, ks, beyond, ms);
      }
    }
  }

  lemma RefusedExactly(w: Conn, max: nat, maxLen: nat, ks: seq<Kept>, beyond: bytes, ms: seq<bytes>,
                       m: Move)
    requires Follows(w, ks, beyond) && Acceptable(max, maxLen, ks, ms) && !w.failed && InStep(w, ks, m)
    ensures Play(w, maxLen, m).failed <==> !Careful(w, m)
  {
    if m.OpenHs? || m.OpenCcs? { OpensExactly(w, max, maxLen, ks, beyond, ms); }
  }

  lemma {:induction false} RunRefusedExactly(w: Conn, max: nat, maxLen: nat, ks: seq<Kept>, beyond: bytes,
                                             ms: seq<bytes>, moves: seq<Move>)
    requires Follows(w, ks, beyond) && Acceptable(max, maxLen, ks, ms) && !w.failed && AllInStep(w, ks, maxLen, moves)
    ensures PlayAll(w, maxLen, moves).failed <==> !AllCareful(w, maxLen, moves)
    decreases |moves|
  {
    if moves != [] {
      var next := Play(w, maxLen, moves[0]);
      RefusedExactly(w, max, maxLen, ks, beyond, ms, moves[0]);
      if next.failed {
        FailedStays(next, maxLen, moves[1..]);
      } else {
        AcceptableFits(max, maxLen, ks, ms);
        PlayFollows(w, maxLen, ks, beyond, moves[0]);
        RunRefusedExactly(next, max, maxLen, ks, beyond, ms, moves[1..]);
      }
    }
  }

  // ---- Completion --------------------------------------------------------

  /** Everything has arrived and is opened, and no whole message is left. */
  predicate Drained(w: Conn) {
    !w.failed && w.coming == [] && w.input == [] && ParseMessage(w.r.buf).Need?
  }

  /** The next record is under other keys. */
  predicate OutOfStep(w: Conn, ks: seq<Kept>) {
    w.done < |ks| && w.r.c != ks[w.done].c
  }

  /** What a receiver does next that takes messages first. */
  function Sensible(w: Conn, ks: seq<Kept>): Move {
    var parsed := ParseTls(w.input);
    if ParseMessage(w.r.buf).Got? then Next
    else if OutOfStep(w, ks) then Rekey(ks[w.done].c)
    else if parsed.Fail? then Arrive(|w.coming|)
    else if FrontType(w) == Some(RT_HANDSHAKE) then OpenHs
    else OpenCcs
  }

  function ToDo(w: Conn, ks: seq<Kept>): nat {
    2 * |w.coming| + |w.input| + |w.r.buf| + if OutOfStep(w, ks) then 1 else 0
  }

  /** The keys on hand are those of the record before, or already those of the next. */
  ghost predicate KeysInStep(w: Conn, ks: seq<Kept>) {
    w.done < |ks| && w.r.c != ks[w.done].c ==> w.done > 0 && w.r.c == ks[w.done - 1].c
  }

  /** Until everything is delivered there is always a careful move that gets further. */
  lemma NeverStuck(w: Conn, max: nat, maxLen: nat, ks: seq<Kept>, ms: seq<bytes>)
    requires Follows(w, ks, []) && Acceptable(max, maxLen, ks, ms) && !w.failed && !Drained(w) && KeysInStep(w, ks)
    ensures var m, w' := Sensible(w, ks), Play(w, maxLen, Sensible(w, ks));
      Careful(w, m) && InStep(w, ks, m) && KeysInStep(w', ks) && ToDo(w', ks) < ToDo(w, ks)
  {
    AcceptableFits(max, maxLen, ks, ms);
    if ParseMessage(w.r.buf).Got? { return; }
    if OutOfStep(w, ks) {
      assert Joint(ks, w.done);
      NothingLeftOver(w, ks, [], ms);
    } else if ParseTls(w.input).Done? {
      OpeningHelps(w, max, maxLen, ks, ms);
    } else if w.coming == [] {
      WholeOrNothing(w, ks);
    }
  }

  /** Opening a record takes more bytes from the read buffer than it adds to the other. */
  lemma OpeningHelps(w: Conn, max: nat, maxLen: nat, ks: seq<Kept>, ms: seq<bytes>)
    requires Follows(w, ks, []) && Acceptable(max, maxLen, ks, ms) && AllFit(RecordsIn(ks)) && !w.failed
    requires ParseMessage(w.r.buf).Need? && ParseTls(w.input).Done? && !OutOfStep(w, ks)
    ensures var m, w' := Sensible(w, ks), Play(w, maxLen, Sensible(w, ks));
      Careful(w, m) && InStep(w, ks, m) && KeysInStep(w', ks) && ToDo(w', ks) < ToDo(w, ks)
  {
    FrontRecord(w, ks, []);
    OpensExactly(w, max, maxLen, ks, [], ms);
    var (v, r') := if Sensible(w, ks).OpenHs? then TlsReader.OpenHandshake(w.r, maxLen, w.input)
      else OpenChangeCipherSpec(w.r, maxLen, w.input);
    HandshakeOutcome(w.r, maxLen, w.input);
    CcsOutcome(w.r, maxLen, w.input);
    LessToDo(w, ks, v, r');
  }

  lemma {:induction false} StrippedShorter(plain: bytes)
    ensures Stripped(plain).Some? ==> |Stripped(plain).value.1| < |plain|
    decreases |plain|
  {
    if plain != [] { StrippedShorter(plain[..|plain| - 1]); }
  }

  lemma PlainShorter(k: Kept)
    ensures |HandshakePart(k)| <= |k.rec.body|
  {
    if Open(k.c, k.rec.body).Some? { StrippedShorter(Open(k.c, k.rec.body).value); }
  }

  lemma LessToDo(w: Conn, ks: seq<Kept>, v: Verdict, r': Reader)
    requires Outcome(w.r, w.input, v, r') && v.Opened? && w.done < |ks| && w.r.c == ks[w.done].c
    ensures ToDo(After(w, (v, r')), ks) < ToDo(w, ks) && KeysInStep(After(w, (v, r')), ks)
  {
    RestOfInput(w.input);
    PlainShorter(Kept(ParseTls(w.input).value, w.r.c));
  }

  /** Once everything has arrived, whole records are all there is. */
  lemma WholeOrNothing(w: Conn, ks: seq<Kept>)
    requires Follows(w, ks, []) && AllFit(RecordsIn(ks)) && w.coming == [] && ParseTls(w.input).Fail?
    ensures w.input == [] && w.done == |ks|
  {
    assert w.input + [] + [] == w.input;
    NextInFront(RecordsIn(ks), w.done);
  }

  /** From any state a careful receiver can go on to the end. */
  lemma {:induction false} CanFinish(w: Conn, max: nat, maxLen: nat, ks: seq<Kept>, ms: seq<bytes>)
    returns (moves: seq<Move>)
    requires Follows(w, ks, []) && Acceptable(max, maxLen, ks, ms) && !w.failed && KeysInStep(w, ks)
    ensures AllCareful(w, maxLen, moves) && AllInStep(w, ks, maxLen, moves) && Drained(PlayAll(w, maxLen, moves))
    decreases ToDo(w, ks)
  {
    moves := [];
    if !Drained(w) {
      var m := Sensible(w, ks);
      NeverStuck(w, max, maxLen, ks, ms);
      RefusedExactly(w, max, maxLen, ks, [], ms, m);
      AcceptableFits(max, maxLen, ks, ms);
      PlayFollows(w, maxLen, ks, [], m);
      var more := CanFinish(Play(w, maxLen, m), max, maxLen, ks, ms);
      moves := [m] + more;
      assert moves[1..] == more;
    }
  }

  // ---- Main results ------------------------------------------------------

  lemma StartFollows(s: TlsSender, c: Cipher)
    requires s.Valid()
    ensures s.wire <= EncodeAll(RecordsIn(s.records))
    ensures Follows(Start(c, s.wire), s.records, EncodeAll(RecordsIn(s.records))[|s.wire|..])
  {
    hide EncodeAll;
    Associate(s.wire, s.writeBuffer, s.Pending()[s.pendingOffset..]);
    var rs := RecordsIn(s.records);
    assert rs[0..] == rs && s.records[..0] == [];
    assert [] + s.wire + EncodeAll(rs)[|s.wire|..] == EncodeAll(rs);
  }

  /** However the bytes are cut up, whatever part of them the sender has written, and in
      whatever order the receiver opens records and takes messages: the messages taken
      are a prefix of those sent, under all the keys there were. All it takes is that
      record lengths fit their field, and that a record is opened with its own keys. */
  lemma {:induction false} DeliversInOrder(s: TlsSender, c: Cipher, maxLen: nat, moves: seq<Move>)
    requires s.Valid() && AreMessages(s.added) && AllFit(RecordsIn(s.records))
    requires AllInStep(Start(c, s.wire), s.records, maxLen, moves)
    ensures var w := PlayAll(Start(c, s.wire), maxLen, moves);
      && w.taken <= s.added
      && (w.done == |s.records| && ParseMessage(w.r.buf).Need? ==> w.taken == s.added && w.r.buf == [])
  {
    StartFollows(s, c);
    var beyond := EncodeAll(RecordsIn(s.records))[|s.wire|..];
    RunFollows(Start(c, s.wire), maxLen, s.records, beyond, moves);
    FollowsSafe(PlayAll(Start(c, s.wire), maxLen, moves), s.records, beyond, s.added);
  }

  /** Within the size limits the connection fails exactly if the receiver is careless. */
  lemma {:induction false} RefusedOnlyIfCareless(s: TlsSender, c: Cipher, maxLen: nat, moves: seq<Move>)
    requires s.Valid() && Acceptable(s.maxSendFragment, maxLen, s.records, s.added)
    requires AllInStep(Start(c, s.wire), s.records, maxLen, moves)
    ensures PlayAll(Start(c, s.wire), maxLen, moves).failed <==> !AllCareful(Start(c, s.wire), maxLen, moves)
  {
    StartFollows(s, c);
    var beyond := EncodeAll(RecordsIn(s.records))[|s.wire|..];
    RunRefusedExactly(Start(c, s.wire), s.maxSendFragment, maxLen, s.records, beyond, s.added, moves);
  }

  /** Once everything is flushed, every careful run can be continued until all of the
      messages have been delivered, through every change of keys, and a run that has
      drained the wire has delivered them. */
  lemma DeliversAll(s: TlsSender, c: Cipher, maxLen: nat, moves: seq<Move>)
      returns (more: seq<Move>)
    requires s.Valid() && s.wire == EncodeAll(RecordsIn(s.records))
    requires Acceptable(s.maxSendFragment, maxLen, s.records, s.added)
    requires AllInStep(Start(c, s.wire), s.records, maxLen, moves) && AllCareful(Start(c, s.wire), maxLen, moves)
    requires KeysInStep(PlayAll(Start(c, s.wire), maxLen, moves), s.records)
    ensures var w := PlayAll(Start(c, s.wire), maxLen, moves);
      && (Drained(w) ==> w.taken == s.added)
      && AllCareful(w, maxLen, more) && AllInStep(w, s.records, maxLen, more)
      && Drained(PlayAll(w, maxLen, more)) && PlayAll(w, maxLen, more).taken == s.added
  {
    var w := PlayAll(Start(c, s.wire), maxLen, moves);
    StartFollows(s, c);
    AcceptableFits(s.maxSendFragment, maxLen, s.records, s.added);
    RefusedOnlyIfCareless(s, c, maxLen, moves);
    RunFollows(Start(c, s.wire), maxLen, s.records, [], moves);
    more := CanFinish(w, s.maxSendFragment, maxLen, s.records, s.added);
    RunFollows(w, maxLen, s.records, [], more);
    if Drained(w) { DrainedIsAll(w, s.records, s.added); }
    DrainedIsAll(PlayAll(w, maxLen, more), s.records, s.added);
  }

  lemma {:induction false} DrainedIsAll(w: Conn, ks: seq<Kept>, ms: seq<bytes>)
    requires Follows(w, ks, []) && AllFit(RecordsIn(ks)) && AreMessages(ms) && HandshakeBytes(ks) == Flatten(ms)
    requires Drained(w)
    ensures w.taken == ms
  {
    WholeOrNothing(w, ks);
    FollowsSafe(w, ks, [], ms);
  }

  /** Where the keys change: the receiver is not refused once it has taken the messages
      before, and whenever the change is allowed, no message is spread over the records
      before and after. */
  lemma {:induction false} NothingAcrossKeys(s: TlsSender, c: Cipher, maxLen: nat, moves: seq<Move>)
    requires s.Valid() && AreMessages(s.added) && AllFit(RecordsIn(s.records))
    requires AllInStep(Start(c, s.wire), s.records, maxLen, moves)
    ensures var w := PlayAll(Start(c, s.wire), maxLen, moves);
      && w.done <= |s.records|
      && (w.done < |s.records| && Joint(s.records, w.done) && ParseMessage(w.r.buf).Need? ==> !Unprocessed(w.r))
      && (!Unprocessed(w.r) ==>
           && HandshakeBytes(s.records[..w.done]) == Flatten(w.taken) + w.r.buf
           && (w.r.buf == [] || (w.r.hasMessage && IsMessage(w.r.buf))))
  {
    StartFollows(s, c);
    var w, beyond := PlayAll(Start(c, s.wire), maxLen, moves), EncodeAll(RecordsIn(s.records))[|s.wire|..];
    RunFollows(Start(c, s.wire), maxLen, s.records, beyond, moves);
    if w.done < |s.records| && Joint(s.records, w.done) && ParseMessage(w.r.buf).Need? {
      NothingLeftOver(w, s.records, beyond, s.added);
    }
    if !Unprocessed(w.r) && w.r.buf != [] {
      assert w.r.buf[..ParseMessage(w.r.buf).n] == w.r.buf;
    }
  }

  /** What has been flushed comes apart into the records that were sealed exactly when their
      lengths fit, and their plaintext is the transcript. */
  lemma WireCarriesMessages(s: TlsSender)
    requires s.Valid() && s.wire == EncodeAll(RecordsIn(s.records))
    ensures RecordsOf(s.wire) == RecordsIn(s.records) <==> AllFit(RecordsIn(s.records))
    ensures HandshakeBytes(s.records) == Flatten(s.added) == s.transcript
  {
    RecordsRoundTripIff(RecordsIn(s.records));
  }
}
