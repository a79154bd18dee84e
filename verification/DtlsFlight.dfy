/** The outgoing flight of d1_both.cc on values: sealing records, cutting messages
    into fragments that fit, and what it means for fragments to tile a flight. */
module DtlsFlight {
  import opened Basics
  import opened DtlsCodec
  import opened DtlsWindow

  /** DTLS_OUTGOING_MESSAGE: a handshake message is serialised as one fragment. */
  datatype OutMsg = OutMsg(data: bytes, epoch: nat, isCcs: bool)

  /** What the record layer asks of a cipher: MaxOverhead and ExplicitNonceLen. The
      nonce is part of the overhead. */
  datatype CipherInfo = CipherInfo(maxOverhead: nat, nonceLen: nat)
  type Cipher = c: CipherInfo | c.nonceLen <= c.maxOverhead witness CipherInfo(0, 0)

  /** The sending half of a connection. cur and prev are the next record numbers of the
      current and the previous write epoch. */
  datatype Tx = Tx(msgs: seq<OutMsg>, written: nat, offset: nat, complete: bool, hasReply: bool, writeSeq: nat,
                   epoch: nat, cur: nat, prev: nat, curCipher: Cipher, prevCipher: Cipher, transcript: bytes)

  /** A record as it leaves: what was sealed, under which epoch and number, and its
      length on the wire. */
  datatype Sealed = Sealed(typ: byte, epoch: nat, number: nat, payload: bytes, len: nat)

  // ---- Building a flight -------------------------------------------------

  /** dtls1_init_message and dtls1_finish_message: a message in the form it is kept. */
  function BuildMessage(typ: byte, body: bytes, writeSeq: nat): bytes {
    EncodeHeader(Header(typ, |body|, writeSeq, 0, |body|)) + body
  }

  /** dtls_clear_outgoing_messages */
  function Cleared(tx: Tx): Tx {
    tx.(msgs := [], written := 0, offset := 0, complete := false, hasReply := false)
  }

  /** add_outgoing: a new flight begins when the old one was complete. */
  function Added(tx: Tx, isCcs: bool, data: bytes): (r: (bool, Tx)) {
    var t := if tx.complete then Cleared(tx) else tx;
    if |t.msgs| >= N || |data| >= 0x1_0000_0000 then (false, t)
    else (true, t.(msgs := t.msgs + [OutMsg(data, t.epoch, isCcs)],
                   writeSeq := if isCcs then t.writeSeq else (t.writeSeq + 1) % TWO_16,
                   transcript := if isCcs then t.transcript else t.transcript + data))
  }

  /** dtls1_set_write_state: the old cipher and counter stay usable for one epoch. */
  function NextWriteState(tx: Tx, cipher: Cipher): Tx {
    tx.(epoch := (tx.epoch + 1) % TWO_16, cur := 0, prev := tx.cur, curCipher := cipher, prevCipher := tx.curCipher)
  }

  /** The message as it is kept: type, length, number, offset 0 and the length again, then the
      body. */
  lemma MessageLayout(typ: byte, body: bytes, writeSeq: nat)
    ensures BuildMessage(typ, body, writeSeq)
      == [typ] + Three(|body|) + Two(writeSeq) + [0, 0, 0] + Three(|body|) + body
  {
    HeaderLayout(Header(typ, |body|, writeSeq, 0, |body|));
  }

  /** Adding to a flight: a complete one makes way first; seven messages, or 2^32 bytes, are
      too many; and only a handshake message takes a number and goes into the transcript. */
  lemma AddedExactly(tx: Tx, isCcs: bool, data: bytes)
    ensures var (ok, t) := Added(tx, isCcs, data);
      var msgs := if tx.complete then [] else tx.msgs;
      && (ok <==> |msgs| < 7 && |data| < 0x1_0000_0000)
      && t.msgs == msgs + (if ok then [OutMsg(data, tx.epoch, isCcs)] else [])
      && !t.complete
      && (if tx.complete then t.written == 0 && t.offset == 0 && !t.hasReply
          else t.written == tx.written && t.offset == tx.offset && t.hasReply == tx.hasReply)
      && t.writeSeq == (if ok && !isCcs then (tx.writeSeq + 1) % 0x1_0000 else tx.writeSeq)
      && t.transcript == (if ok && !isCcs then tx.transcript + data else tx.transcript)
      && t.epoch == tx.epoch && t.cur == tx.cur && t.prev == tx.prev
      && t.curCipher == tx.curCipher && t.prevCipher == tx.prevCipher
  {
    var msgs := if tx.complete then [] else tx.msgs;
    assert msgs + [] == msgs;
  }

  // ---- Sealing one record ------------------------------------------------

  datatype UseEpoch = CurrentEpoch | PreviousEpoch

  function CipherFor(tx: Tx, use: UseEpoch): Cipher {
    if use.PreviousEpoch? then tx.prevCipher else tx.curCipher
  }

  function NumberFor(tx: Tx, use: UseEpoch): nat {
    if use.PreviousEpoch? then tx.prev else tx.cur
  }

  function EpochFor(tx: Tx, use: UseEpoch): nat
    requires use.PreviousEpoch? ==> tx.epoch >= 1
  {
    if use.PreviousEpoch? then tx.epoch - 1 else tx.epoch
  }

  /** ssl_record_sequence_update: a 48-bit counter that reports its overflow. */
  function Bumped(tx: Tx, use: UseEpoch): (tx': Tx)
    ensures tx' == if use.PreviousEpoch? then tx.(prev := tx'.prev) else tx.(cur := tx'.cur)
  {
    var n := (NumberFor(tx, use) + 1) % TWO_48;
    if use.PreviousEpoch? then tx.(prev := n) else tx.(cur := n)
  }

  /** dtls_seal_record. cipherLen is the length the cipher produced, None if it failed.
      The number is used up even when the length check fails afterwards. */
  function SealRecord(tx: Tx, use: UseEpoch, typ: byte, payload: bytes, cipherLen: Option<nat>, maxOut: nat)
      : (r: (Option<Sealed>, Tx))
    requires use.PreviousEpoch? ==> tx.epoch >= 1
    ensures r.0.Some? ==>
      && r.0.value == Sealed(typ, EpochFor(tx, use), NumberFor(tx, use), payload, r.0.value.len)
      && r.0.value.len <= maxOut && r.1 == Bumped(tx, use) && cipherLen.Some?
      && r.0.value.len == RT_HEADER_LENGTH + cipherLen.value
    ensures r.1 == tx || r.1 == Bumped(tx, use)
  {
    if maxOut < RT_HEADER_LENGTH || cipherLen.None? || RT_HEADER_LENGTH + cipherLen.value > maxOut then (None, tx)
    else
      var tx' := Bumped(tx, use);
      if NumberFor(tx', use) == 0 || cipherLen.value >= TWO_16 then (None, tx')
      else (Some(Sealed(typ, EpochFor(tx, use), NumberFor(tx, use), payload, RT_HEADER_LENGTH + cipherLen.value)), tx')
  }

  // ---- Cutting the next message ------------------------------------------

  /** The epoch selection of seal_next_message. */
  function UseFor(tx: Tx, msg: OutMsg): (r: Option<UseEpoch>)
    ensures r == Some(PreviousEpoch) ==> tx.epoch >= 1 && msg.epoch == tx.epoch - 1
    ensures r == Some(CurrentEpoch) ==> msg.epoch == tx.epoch
    ensures r.None? <==> msg.epoch != tx.epoch && msg.epoch + 1 != tx.epoch
  {
    if tx.epoch >= 1 && msg.epoch == tx.epoch - 1 then Some(PreviousEpoch)
    else if msg.epoch == tx.epoch then Some(CurrentEpoch)
    else None
  }

  /** The message as the fragment it is stored as. */
  function WholeFragment(msg: OutMsg): Option<Fragment> {
    match ParseFragment(msg.data)
    case Fail => None
    case Done(f, rest) =>
      if rest == [] && f.h.fragOff == 0 && f.h.msgLen == |f.body| then Some(f) else None
  }

  function Overhead(tx: Tx, use: UseEpoch): nat {
    RT_HEADER_LENGTH + CipherFor(tx, use).maxOverhead
  }

  function Prefix(tx: Tx, use: UseEpoch): nat {
    RT_HEADER_LENGTH + CipherFor(tx, use).nonceLen
  }

  datatype SealResult = SealError(tx: Tx) | NoProgress | Progress(rec: Sealed, tx: Tx, whole: bool)

  /** The fragment of f from offset on that carries n bytes. */
  function Slice(f: Fragment, offset: nat, n: nat): bytes
    requires offset + n <= |f.body|
  {
    EncodeHeader(Header(f.h.typ, f.h.msgLen, f.h.seqNum, offset, n)) + f.body[offset..offset + n]
  }

  /** How many body bytes go into the next fragment. */
  function Todo(tx: Tx, use: UseEpoch, f: Fragment, maxOut: nat): nat
    requires tx.offset <= |f.body| && maxOut >= HM_HEADER_LENGTH + 1 + Overhead(tx, use)
  {
    Min(|f.body| - tx.offset, maxOut - HM_HEADER_LENGTH - Overhead(tx, use))
  }

  /** seal_next_message for the message at tx.written. */
  function SealNext(tx: Tx, maxOut: nat, cipherLen: Option<nat>): (r: SealResult)
    requires tx.written < |tx.msgs|
    ensures r.Progress? ==> r.rec.len <= maxOut
    ensures r.Progress? ==> r.tx.msgs == tx.msgs && r.tx.written == tx.written
  {
    var msg := tx.msgs[tx.written];
    match UseFor(tx, msg)
    case None => SealError(tx)
    case Some(use) =>
      if msg.isCcs then
        if maxOut < 1 + Overhead(tx, use) then NoProgress
        else
          var (rec, tx') := SealRecord(tx, use, RT_CCS, [1], cipherLen, maxOut);
          if rec.None? then SealError(tx') else Progress(rec.value, tx', true)
      else match WholeFragment(msg)
        case None => SealError(tx)
        case Some(f) =>
          if tx.offset > |f.body| then SealError(tx)
          else if maxOut < HM_HEADER_LENGTH + 1 + Overhead(tx, use) || maxOut < Prefix(tx, use) then NoProgress
          else
            var todo := Todo(tx, use, f, maxOut);
            if HM_HEADER_LENGTH + todo > maxOut - Prefix(tx, use) then SealError(tx)
            else
              var (rec, tx') := SealRecord(tx, use, RT_HANDSHAKE, Slice(f, tx.offset, todo), cipherLen, maxOut);
              if rec.None? then SealError(tx')
              else if tx.offset + todo == |f.body| then Progress(rec.value, tx'.(offset := 0), true)
              else Progress(rec.value, tx'.(offset := tx.offset + todo), false)
  }

  // ---- The cipher --------------------------------------------------------

  /** Length of the ciphertext for an epoch, a record number, a type and a plaintext, or
      None if the cipher fails. */
  type Sealer = (nat, nat, byte, bytes) -> Option<nat>

  function Ciphered(tx: Tx, use: UseEpoch, typ: byte, payload: bytes, sealer: Sealer): Option<nat>
    requires use.PreviousEpoch? ==> tx.epoch >= 1
  {
    sealer(EpochFor(tx, use), NumberFor(tx, use), typ, payload)
  }

  /** What seal_next_message gets from the cipher, if it comes to calling it. */
  function NextLen(tx: Tx, maxOut: nat, sealer: Sealer): Option<nat>
    requires tx.written < |tx.msgs|
  {
    var msg := tx.msgs[tx.written];
    match UseFor(tx, msg)
    case None => None
    case Some(use) =>
      if msg.isCcs then Ciphered(tx, use, RT_CCS, [1], sealer)
      else match WholeFragment(msg)
        case None => None
        case Some(f) =>
          if tx.offset > |f.body| || maxOut < HM_HEADER_LENGTH + 1 + Overhead(tx, use) then None
          else Ciphered(tx, use, RT_HANDSHAKE, Slice(f, tx.offset, Todo(tx, use, f, maxOut)), sealer)
  }

  /** seal_next_message with that cipher. */
  function SealNextWith(tx: Tx, maxOut: nat, sealer: Sealer): SealResult
    requires tx.written < |tx.msgs|
  {
    SealNext(tx, maxOut, NextLen(tx, maxOut, sealer))
  }

  /** The ciphers of the current and the previous epoch never fail and expand by at most
      their declared overhead. */
  ghost predicate Keeps(tx: Tx, sealer: Sealer) {
    forall use: UseEpoch, number, typ, payload
        {:trigger EpochFor(tx, use), sealer(EpochFor(tx, use), number, typ, payload)} ::
      (use.PreviousEpoch? ==> tx.epoch >= 1) ==>
        var len := sealer(EpochFor(tx, use), number, typ, payload);
        len.Some? && len.value <= |payload| + CipherFor(tx, use).maxOverhead
  }

  // ---- Tiling ------------------------------------------------------------

  /** Where the sender stands after rec, if rec is the right record at (w, o). */
  function After(msgs: seq<OutMsg>, w: nat, o: nat, rec: Sealed): Option<(nat, nat)> {
    if w >= |msgs| || rec.epoch != msgs[w].epoch then None
    else if msgs[w].isCcs then
      if rec.typ == RT_CCS && rec.payload == [1] then Some((w + 1, 0)) else None
    else match WholeFragment(msgs[w])
      case None => None
      case Some(f) =>
        var n := |rec.payload| - HM_HEADER_LENGTH;
        if rec.typ != RT_HANDSHAKE || n < 0 || o + n > |f.body| || rec.payload != Slice(f, o, n) then None
        else if o + n == |f.body| then Some((w + 1, 0))
        else if n == 0 then None
        else Some((w, o + n))
  }

  /** The records carry the flight from (w, o) to (w', o'), each fragment starting
      where the one before it ended. */
  predicate Tiles(msgs: seq<OutMsg>, w: nat, o: nat, recs: seq<Sealed>, w': nat, o': nat)
    decreases |recs|
  {
    if recs == [] then w == w' && o == o'
    else match After(msgs, w, o, recs[0])
      case None => false
      case Some(p) => Tiles(msgs, p.0, p.1, recs[1..], w', o')
  }

  lemma TailOfSum(a: seq<Sealed>, b: seq<Sealed>)
    requires a != []
    ensures a + b == [a[0]] + (a[1..] + b)
  {}

  lemma {:induction false} TilesAppend(msgs: seq<OutMsg>, w: nat, o: nat, a: seq<Sealed>, w1: nat, o1: nat,
                                       b: seq<Sealed>, w2: nat, o2: nat)
    requires Tiles(msgs, w, o, a, w1, o1) && Tiles(msgs, w1, o1, b, w2, o2)
    ensures Tiles(msgs, w, o, a + b, w2, o2)
    decreases |a|
  {
    if a == [] {
      assert a + b == b;
    } else {
      var p := After(msgs, w, o, a[0]).value;
      TilesAppend(msgs, p.0, p.1, a[1..], w1, o1, b, w2, o2);
      TailOfSum(a, b);
      TilesCons(msgs, w, o, a[0], p, a[1..] + b, w2, o2);
    }
  }

  lemma {:induction false} TilesCons(msgs: seq<OutMsg>, w: nat, o: nat, rec: Sealed, p: (nat, nat),
                                     recs: seq<Sealed>, w': nat, o': nat)
    requires After(msgs, w, o, rec) == Some(p) && Tiles(msgs, p.0, p.1, recs, w', o')
    ensures Tiles(msgs, w, o, [rec] + recs, w', o')
  {}

  /** A record holds body byte i of the message with number s. */
  predicate Carries(rec: Sealed, s: nat, i: nat) {
    && rec.typ == RT_HANDSHAKE && ParseFragment(rec.payload).Done?
    && var f := ParseFragment(rec.payload).value;
       f.h.seqNum == s && f.h.fragOff <= i < f.h.fragOff + f.h.fragLen
  }

  /** How many of the records hold that byte. */
  function Copies(recs: seq<Sealed>, s: nat, i: nat): nat {
    if recs == [] then 0 else (if Carries(recs[0], s, i) then 1 else 0) + Copies(recs[1..], s, i)
  }

  /** The handshake messages of a flight are well serialised and have different numbers. */
  ghost predicate FlightOk(msgs: seq<OutMsg>) {
    && (forall j {:trigger msgs[j]} :: 0 <= j < |msgs| && !msgs[j].isCcs ==> WholeFragment(msgs[j]).Some?)
    && forall j, k {:trigger msgs[j], msgs[k]} :: 0 <= j < k < |msgs| && !msgs[j].isCcs && !msgs[k].isCcs ==>
         SeqOf(msgs[j]) != SeqOf(msgs[k])
  }

  function SeqOf(msg: OutMsg): nat {
    match WholeFragment(msg) case None => 0 case Some(f) => f.h.seqNum
  }

  /** (w, o) comes before (j, i) or is it. */
  predicate Before(w: nat, o: nat, j: nat, i: nat) {
    w < j || (w == j && o <= i)
  }

  lemma SliceCarries(f: Fragment, o: nat, n: nat, rec: Sealed, s: nat, i: nat)
    requires f.h.Fits() && o + n <= |f.body| == f.h.msgLen
    requires rec.typ == RT_HANDSHAKE && rec.payload == Slice(f, o, n)
    ensures Carries(rec, s, i) <==> s == f.h.seqNum && o <= i < o + n
  {
    var g := Fragment(Header(f.h.typ, f.h.msgLen, f.h.seqNum, o, n), f.body[o..o + n]);
    FragmentRoundTrip(g, []);
    assert rec.payload + [] == rec.payload;
  }

  /** One record moves on, and carries exactly the bytes between. */
  lemma AfterCarries(msgs: seq<OutMsg>, w: nat, o: nat, rec: Sealed, j: nat, i: nat)
    requires FlightOk(msgs) && After(msgs, w, o, rec).Some?
    requires j < |msgs| && !msgs[j].isCcs && i < |WholeFragment(msgs[j]).value.body|
    ensures var p := After(msgs, w, o, rec).value;
      Carries(rec, SeqOf(msgs[j]), i) <==> Before(w, o, j, i) && !Before(p.0, p.1, j, i)
  {
    if !msgs[w].isCcs {
      var f := WholeFragment(msgs[w]).value;
      SliceCarries(f, o, |rec.payload| - HM_HEADER_LENGTH, rec, SeqOf(msgs[j]), i);
      if j != w { assert SeqOf(msgs[j]) != SeqOf(msgs[w]); }
    }
  }

  lemma AfterAdvances(msgs: seq<OutMsg>, w: nat, o: nat, rec: Sealed, j: nat, i: nat)
    requires After(msgs, w, o, rec).Some?
    ensures var p := After(msgs, w, o, rec).value; Before(p.0, p.1, j, i) ==> Before(w, o, j, i)
  {}

  /** No gap and no overlap: a byte between the two positions is carried by exactly one
      record, any other byte by none. */
  lemma {:induction false} EachByteOnce(msgs: seq<OutMsg>, w: nat, o: nat, recs: seq<Sealed>, w': nat, o': nat,
                                        j: nat, i: nat)
    requires FlightOk(msgs) && Tiles(msgs, w, o, recs, w', o')
    requires j < |msgs| && !msgs[j].isCcs && i < |WholeFragment(msgs[j]).value.body|
    ensures Copies(recs, SeqOf(msgs[j]), i) == if Before(w, o, j, i) && !Before(w', o', j, i) then 1 else 0
    ensures Before(w', o', j, i) ==> Before(w, o, j, i)
    decreases |recs|
  {
    if recs != [] {
      var p := After(msgs, w, o, recs[0]).value;
      EachByteOnce(msgs, p.0, p.1, recs[1..], w', o', j, i);
      AfterCarries(msgs, w, o, recs[0], j, i);
      AfterAdvances(msgs, w, o, recs[0], j, i);
    }
  }

  // ---- Progress ----------------------------------------------------------

  /** Body bytes of message w still to be sent. */
  function BytesLeft(msgs: seq<OutMsg>, w: nat, o: nat): nat {
    if w < |msgs| && WholeFragment(msgs[w]).Some? then Max(|WholeFragment(msgs[w]).value.body| - o, 0) else 0
  }

  /** Every record brings down (messages left, bytes left), lexicographically. */
  lemma AfterDecreases(msgs: seq<OutMsg>, w: nat, o: nat, rec: Sealed)
    requires After(msgs, w, o, rec).Some?
    ensures var p := After(msgs, w, o, rec).value;
      p.0 <= |msgs| && Further(msgs, w, o, p.0, p.1)
  {}

  function NextPos(r: SealResult): (nat, nat)
    requires r.Progress?
  {
    if r.whole then (r.tx.written + 1, 0) else (r.tx.written, r.tx.offset)
  }

  /** A sealed fragment is the right next one. */
  lemma SealNextTiles(tx: Tx, maxOut: nat, cipherLen: Option<nat>)
    requires tx.written < |tx.msgs| && SealNext(tx, maxOut, cipherLen).Progress?
    ensures var r := SealNext(tx, maxOut, cipherLen);
      && After(tx.msgs, tx.written, tx.offset, r.rec) == Some(NextPos(r))
      && (r.whole ==> r.tx.offset == if tx.msgs[tx.written].isCcs then tx.offset else 0)
      && (!r.whole ==> !tx.msgs[tx.written].isCcs)
  {}

  /** Room for one body byte and the overhead is enough not to be stuck. */
  lemma RoomyMovesOn(tx: Tx, maxOut: nat, cipherLen: Option<nat>)
    requires tx.written < |tx.msgs| && Roomy(tx, maxOut)
    ensures !SealNext(tx, maxOut, cipherLen).NoProgress?
  {}

  /** Room for a record of n body bytes under either cipher. */
  ghost predicate Roomy(tx: Tx, maxOut: nat) {
    && maxOut >= HM_HEADER_LENGTH + 1 + Overhead(tx, CurrentEpoch)
    && maxOut >= HM_HEADER_LENGTH + 1 + Overhead(tx, PreviousEpoch)
  }

  /** The position is in the flight, and at the start of anything but a handshake message. */
  predicate PosOk(tx: Tx) {
    && tx.written <= |tx.msgs|
    && (tx.written == |tx.msgs| || tx.msgs[tx.written].isCcs ==> tx.offset == 0)
  }

  /** The flight is of the current or the previous epoch and the position inside it. */
  ghost predicate Ready(tx: Tx) {
    && FlightOk(tx.msgs)
    && (forall j {:trigger tx.msgs[j]} :: 0 <= j < |tx.msgs| ==> UseFor(tx, tx.msgs[j]).Some?)
    && PosOk(tx)
    && (tx.written < |tx.msgs| && !tx.msgs[tx.written].isCcs ==>
         tx.offset <= |WholeFragment(tx.msgs[tx.written]).value.body|)
  }

  /** The sender after seal_next_packet's loop has stepped over a record. */
  function Moved(r: SealResult): Tx
    requires r.Progress?
  {
    if r.whole then r.tx.(written := r.tx.written + 1) else r.tx
  }

  lemma MovedOn(tx: Tx, maxOut: nat, cipherLen: Option<nat>)
    requires PosOk(tx) && tx.written < |tx.msgs| && SealNext(tx, maxOut, cipherLen).Progress?
    ensures var r := SealNext(tx, maxOut, cipherLen);
      && PosOk(Moved(r)) && SameSetup(tx, Moved(r))
      && After(tx.msgs, tx.written, tx.offset, r.rec) == Some((Moved(r).written, Moved(r).offset))
  {
    SealNextTiles(tx, maxOut, cipherLen);
    SealNextSetup(tx, maxOut, cipherLen);
  }

  /** Everything but the position and the record counters. */
  predicate SameSetup(a: Tx, b: Tx) {
    b == a.(written := b.written, offset := b.offset, cur := b.cur, prev := b.prev)
  }

  lemma SealNextSetup(tx: Tx, maxOut: nat, cipherLen: Option<nat>)
    requires tx.written < |tx.msgs|
    ensures match SealNext(tx, maxOut, cipherLen)
      case SealError(t) => SameSetup(tx, t) && t.written == tx.written && t.offset == tx.offset
      case NoProgress => true
      case Progress(_, t, _) => SameSetup(tx, t) && t.written == tx.written
  {
    match UseFor(tx, tx.msgs[tx.written])
    case None =>
    case Some(use) => assert SameSetup(tx, Bumped(tx, use));
  }

  /** (w, o) is further along the flight than (w0, o0). */
  predicate Further(msgs: seq<OutMsg>, w0: nat, o0: nat, w: nat, o: nat) {
    w > w0 || (w == w0 && BytesLeft(msgs, w, o) < BytesLeft(msgs, w0, o0))
  }

  lemma SealSucceeds(tx: Tx, use: UseEpoch, typ: byte, payload: bytes, cipherLen: Option<nat>, maxOut: nat)
    requires use.PreviousEpoch? ==> tx.epoch >= 1
    requires cipherLen.Some? && cipherLen.value <= |payload| + CipherFor(tx, use).maxOverhead
    requires |payload| + Overhead(tx, use) <= maxOut < TWO_16 + RT_HEADER_LENGTH
    requires NumberFor(tx, use) + 1 < TWO_48
    ensures SealRecord(tx, use, typ, payload, cipherLen, maxOut).0.Some?
  {}

  /** Numbers that sending the flight from (w, o) on may take: one for every byte and one for
      every message. */
  function Work(msgs: seq<OutMsg>, w: nat, o: nat): nat
    decreases |msgs| - w
  {
    if w >= |msgs| then 0 else BytesLeft(msgs, w, o) + 1 + Work(msgs, w + 1, 0)
  }

  /** Sealing the rest of the flight cannot fail: it is of the current or the previous epoch,
      the ciphers keep their promise, and there are numbers left. */
  ghost predicate Able(tx: Tx, sealer: Sealer) {
    && Ready(tx) && Keeps(tx, sealer)
    && tx.cur + Work(tx.msgs, tx.written, tx.offset) < TWO_48
    && tx.prev + Work(tx.msgs, tx.written, tx.offset) < TWO_48
  }

  lemma CcsSucceeds(tx: Tx, maxOut: nat, sealer: Sealer)
    requires Able(tx, sealer) && tx.written < |tx.msgs| && maxOut < TWO_16 + RT_HEADER_LENGTH
    requires tx.msgs[tx.written].isCcs
    ensures !SealNextWith(tx, maxOut, sealer).SealError?
  {
    var use := UseFor(tx, tx.msgs[tx.written]).value;
    assert NumberFor(tx, use) + 1 < TWO_48;
    var len := sealer(EpochFor(tx, use), NumberFor(tx, use), RT_CCS, [1]);
    if maxOut >= 1 + Overhead(tx, use) { SealSucceeds(tx, use, RT_CCS, [1], len, maxOut); }
  }

  lemma FragmentSucceeds(tx: Tx, maxOut: nat, sealer: Sealer)
    requires Able(tx, sealer) && tx.written < |tx.msgs| && maxOut < TWO_16 + RT_HEADER_LENGTH
    requires !tx.msgs[tx.written].isCcs
    ensures !SealNextWith(tx, maxOut, sealer).SealError?
  {
    var use, f := UseFor(tx, tx.msgs[tx.written]).value, WholeFragment(tx.msgs[tx.written]).value;
    assert NumberFor(tx, use) + 1 < TWO_48;
    if maxOut >= HM_HEADER_LENGTH + 1 + Overhead(tx, use) {
      var payload := Slice(f, tx.offset, Todo(tx, use, f, maxOut));
      var len := sealer(EpochFor(tx, use), NumberFor(tx, use), RT_HANDSHAKE, payload);
      SealSucceeds(tx, use, RT_HANDSHAKE, payload, len, maxOut);
    }
  }

  /** In whatever room, sealing the next message of such a flight does not fail, and with
      room for one body byte and the overhead it makes progress. */
  lemma SealNextSucceeds(tx: Tx, maxOut: nat, sealer: Sealer)
    requires Able(tx, sealer) && tx.written < |tx.msgs| && maxOut < TWO_16 + RT_HEADER_LENGTH
    ensures !SealNextWith(tx, maxOut, sealer).SealError?
    ensures Roomy(tx, maxOut) ==> SealNextWith(tx, maxOut, sealer).Progress?
  {
    if tx.msgs[tx.written].isCcs { CcsSucceeds(tx, maxOut, sealer); } else { FragmentSucceeds(tx, maxOut, sealer); }
    if Roomy(tx, maxOut) { RoomyMovesOn(tx, maxOut, NextLen(tx, maxOut, sealer)); }
  }

  /** Every record takes one of the numbers set aside for it. */
  lemma {:induction false} AfterWorks(msgs: seq<OutMsg>, w: nat, o: nat, rec: Sealed)
    requires After(msgs, w, o, rec).Some?
    ensures var p := After(msgs, w, o, rec).value; Work(msgs, p.0, p.1) + 1 <= Work(msgs, w, o)
  {}

  /** At most one counter moved, by one, unless it came round. */
  predicate TakesAtMostOne(tx: Tx, t: Tx) {
    t.cur <= tx.cur + 1 && t.prev <= tx.prev + 1
  }

  lemma RecordTakesOne(tx: Tx, use: UseEpoch, typ: byte, payload: bytes, cipherLen: Option<nat>, maxOut: nat)
    requires use.PreviousEpoch? ==> tx.epoch >= 1
    ensures TakesAtMostOne(tx, SealRecord(tx, use, typ, payload, cipherLen, maxOut).1)
  {}

  lemma SealTakesOne(tx: Tx, maxOut: nat, cipherLen: Option<nat>)
    requires tx.written < |tx.msgs| && SealNext(tx, maxOut, cipherLen).Progress?
    ensures TakesAtMostOne(tx, SealNext(tx, maxOut, cipherLen).tx)
  {
    var use := UseFor(tx, tx.msgs[tx.written]).value;
    if tx.msgs[tx.written].isCcs {
      RecordTakesOne(tx, use, RT_CCS, [1], cipherLen, maxOut);
    } else {
      var f := WholeFragment(tx.msgs[tx.written]).value;
      var payload := Slice(f, tx.offset, Todo(tx, use, f, maxOut));
      RecordTakesOne(tx, use, RT_HANDSHAKE, payload, cipherLen, maxOut);
    }
  }

  /** And what is left can be sealed as well. */
  lemma StaysAble(tx: Tx, maxOut: nat, sealer: Sealer)
    requires Able(tx, sealer) && tx.written < |tx.msgs| && SealNextWith(tx, maxOut, sealer).Progress?
    ensures Able(Moved(SealNextWith(tx, maxOut, sealer)), sealer)
  {
    var r := SealNextWith(tx, maxOut, sealer);
    MovedOn(tx, maxOut, NextLen(tx, maxOut, sealer));
    SealTakesOne(tx, maxOut, NextLen(tx, maxOut, sealer));
    AfterWorks(tx.msgs, tx.written, tx.offset, r.rec);
    StaysReady(tx, Moved(r), r.rec);
    StillKeeps(tx, Moved(r), sealer);
  }

  lemma StaysReady(tx: Tx, tx': Tx, rec: Sealed)
    requires Ready(tx) && SameSetup(tx, tx') && PosOk(tx')
    requires After(tx.msgs, tx.written, tx.offset, rec) == Some((tx'.written, tx'.offset))
    ensures Ready(tx')
  {
    forall j {:trigger tx'.msgs[j]} | 0 <= j < |tx'.msgs| ensures UseFor(tx', tx'.msgs[j]).Some? {
      assert UseFor(tx, tx.msgs[j]).Some?;
    }
  }

  lemma StillKeeps(tx: Tx, tx': Tx, sealer: Sealer)
    requires Keeps(tx, sealer) && SameSetup(tx, tx')
    ensures Keeps(tx', sealer)
  {
    forall use: UseEpoch, number, typ, payload
      {:trigger EpochFor(tx', use), sealer(EpochFor(tx', use), number, typ, payload)}
      | use.PreviousEpoch? ==> tx'.epoch >= 1
      ensures sealer(EpochFor(tx', use), number, typ, payload).Some?
      ensures sealer(EpochFor(tx', use), number, typ, payload).value <= |payload| + CipherFor(tx', use).maxOverhead
    {
      var len := sealer(EpochFor(tx, use), number, typ, payload);
    }
  }

  /** The position that records tile up to is determined by them, so records lost behind
      them leave a gap. */
  lemma {:induction false} GapExactly(msgs: seq<OutMsg>, w: nat, o: nat, sent: seq<Sealed>, w1: nat, o1: nat,
                                      lost: seq<Sealed>, w2: nat, o2: nat)
    requires Tiles(msgs, w, o, sent, w1, o1) && Tiles(msgs, w1, o1, lost, w2, o2)
    ensures Tiles(msgs, w, o, sent, w2, o2) <==> lost == []
    decreases |sent|
  {
    if sent == [] {
      if lost != [] { TilesFurther(msgs, w1, o1, lost, w2, o2); }
    } else {
      var p := After(msgs, w, o, sent[0]).value;
      GapExactly(msgs, p.0, p.1, sent[1..], w1, o1, lost, w2, o2);
    }
  }

  lemma {:induction false} TilesFurther(msgs: seq<OutMsg>, w: nat, o: nat, recs: seq<Sealed>, w': nat, o': nat)
    requires Tiles(msgs, w, o, recs, w', o') && recs != []
    ensures Further(msgs, w, o, w', o')
    decreases |recs|
  {
    var p := After(msgs, w, o, recs[0]).value;
    AfterDecreases(msgs, w, o, recs[0]);
    if recs[1..] != [] { TilesFurther(msgs, p.0, p.1, recs[1..], w', o'); }
  }

  /** Too little room is the only way not to progress: below one body byte and the
      overhead, or below the record prefix. */
  lemma NoProgressExact(tx: Tx, maxOut: nat, cipherLen: Option<nat>)
    requires Ready(tx) && tx.written < |tx.msgs|
    ensures var msg, use := tx.msgs[tx.written], UseFor(tx, tx.msgs[tx.written]).value;
      SealNext(tx, maxOut, cipherLen).NoProgress? <==>
        maxOut < Overhead(tx, use) + 1 + (if msg.isCcs then 0 else HM_HEADER_LENGTH)
  {}

  /** A fragment that does not finish its message fills the room it has, up to the overhead of
      the cipher of its epoch. */
  lemma FragmentFills(tx: Tx, maxOut: nat, cipherLen: Option<nat>)
    requires tx.written < |tx.msgs|
    ensures var r, msg := SealNext(tx, maxOut, cipherLen), tx.msgs[tx.written];
      r.Progress? && !r.whole ==>
        |r.rec.payload| + 13 + (if msg.epoch == tx.epoch then tx.curCipher else tx.prevCipher).maxOverhead == maxOut
  {}

  /** The cipher is given the record that leaves: its epoch, number, type and plaintext, and its
      result decides the length. */
  lemma SealsWhatLeaves(tx: Tx, maxOut: nat, sealer: Sealer)
    requires tx.written < |tx.msgs| && SealNextWith(tx, maxOut, sealer).Progress?
    ensures var rec := SealNextWith(tx, maxOut, sealer).rec;
      var len := sealer(rec.epoch, rec.number, rec.typ, rec.payload);
      len.Some? && rec.len == 13 + len.value
  {}

  // ---- A pass as single steps --------------------------------------------

  /** What send_flight and its callers do, one thing at a time: a packet begins, a record of
      it is sealed, its write fails, the flight is complete, the flight starts again. */
  datatype Stroke = Begin | Cut(maxOut: nat, cipherLen: Option<nat>) | Back | Finish | Restart

  /** The sender, the position a failed write goes back to, and all records sealed. */
  datatype Sending = Sending(tx: Tx, saved: (nat, nat), out: seq<Sealed>)

  function Stroked(s: Sending, k: Stroke): Sending {
    match k
    case Begin => s.(saved := (s.tx.written, s.tx.offset))
    case Cut(maxOut, cipherLen) =>
      if s.tx.written >= |s.tx.msgs| then s
      else (
        var r := SealNext(s.tx, maxOut, cipherLen);
        match r
        case NoProgress => s
        case SealError(tx) => s.(tx := tx)
        case Progress(rec, _, _) => s.(tx := Moved(r), out := s.out + [rec]))
    case Back => s.(tx := s.tx.(written := s.saved.0, offset := s.saved.1))
    case Finish => s.(tx := s.tx.(complete := true))
    case Restart => s.(tx := s.tx.(written := 0, offset := 0))
  }

  function StrokedAll(s: Sending, ks: seq<Stroke>): Sending
    decreases |ks|
  {
    if ks == [] then s else StrokedAll(Stroked(s, ks[0]), ks[1..])
  }

  lemma {:induction false} OneStroke(s: Sending, k: Stroke)
    ensures StrokedAll(s, [k]) == Stroked(s, k)
  {
    assert [k][1..] == [];
  }

  lemma {:induction false} StrokesAppend(s: Sending, a: seq<Stroke>, b: seq<Stroke>)
    ensures StrokedAll(s, a + b) == StrokedAll(StrokedAll(s, a), b)
    decreases |a|
  {
    if a == [] {
      assert a + b == b;
    } else {
      StrokesAppend(Stroked(s, a[0]), a[1..], b);
      assert (a + b)[1..] == a[1..] + b;
    }
  }

  /** These strokes lead from one state of the pass to the other. */
  ghost predicate Went(s: Sending, ks: seq<Stroke>, t: Sending) {
    StrokedAll(s, ks) == t
  }

  lemma Stayed(s: Sending)
    ensures Went(s, [], s)
  {}

  lemma WentOn(s: Sending, ks: seq<Stroke>, t: Sending, k: Stroke)
    requires Went(s, ks, t)
    ensures Went(s, ks + [k], Stroked(t, k))
  {
    StrokesAppend(s, ks, [k]);
    OneStroke(t, k);
  }

  lemma WentThrough(s: Sending, a: seq<Stroke>, t: Sending, b: seq<Stroke>, u: Sending)
    requires Went(s, a, t) && Went(t, b, u)
    ensures Went(s, a + b, u)
  {
    StrokesAppend(s, a, b);
  }
}
