/** tls_record.cc and s3_both.cc, receiving half, on values: opening a record, adding it
    to the handshake buffer, and taking messages out of it. */
module TlsReader {
  import opened Basics
  import opened DtlsCodec
  import opened TlsFraming

  /** kMaxEmptyRecords */
  const MAX_EMPTY_RECORDS: nat := 32

  /** The handshake buffer, whether its first message was handed out, empty_record_count,
      eight bits wide, and the read cipher. */
  datatype Reader = Reader(buf: bytes, hasMessage: bool, empties: nat, c: Cipher) {
    ghost predicate Ok() { hasMessage ==> ParseMessage(buf).Got? }
  }

  function InitialReader(c: Cipher): Reader { Reader([], false, 0, c) }

  /** tls_can_accept_handshake_data */
  predicate Accepting(buf: bytes, maxLen: nat) {
    ParseMessage(buf).Need? && ParseMessage(buf).n <= HM_LENGTH + maxLen
  }

  /** tls_has_unprocessed_handshake_data: bytes beyond the current message. */
  predicate Unprocessed(r: Reader) {
    |r.buf| > if r.hasMessage && ParseMessage(r.buf).Got? then ParseMessage(r.buf).n else 0
  }

  /** More bytes are needed, an error, an alert to process, or the plaintext of a record
      of n bytes. */
  datatype Verdict = Partial(need: nat) | Broken | Alert(n: nat) | Opened(typ: byte, body: bytes, n: nat)

  /** tls_open_record: the verdict on the read buffer and the new empty_record_count. */
  function OpenTls(r: Reader, maxLen: nat, input: bytes): (res: (Verdict, nat))
    ensures res.0.Opened? || res.0.Alert? ==> ParseTls(input).Done? && res.0.n == |input| - |ParseTls(input).rest|
  {
    if !Accepting(r.buf, maxLen) then (Broken, r.empties)
    else if |input| < RT_LENGTH then (Partial(RT_LENGTH), r.empties)
    else if !r.c.VersionOk(FromBigEndian(input[1..3])) then (Broken, r.empties)
    else if FromBigEndian(input[3..5]) > MAX_ENCRYPTED_LENGTH then (Broken, r.empties)
    else match ParseTls(input)
      case Fail => (Partial(RT_LENGTH + FromBigEndian(input[3..5])), r.empties)
      case Done(rec, rest) => OpenBody(r, rec, |input| - |rest|)
  }

  /** From decryption on. */
  function OpenBody(r: Reader, rec: TlsRecord, n: nat): (res: (Verdict, nat))
    ensures res.0.Opened? || res.0.Alert? ==> res.0.n == n
    ensures res.0.Opened? ==> Unwrapped(r.c, rec) == Some((res.0.typ, res.0.body))
  {
    match Open(r.c, rec.body)
    case None => (Broken, r.empties)
    case Some(plain) =>
      if |plain| > MAX_PLAIN_LENGTH + r.c.TypeLen() then (Broken, r.empties)
      else match Uncovered(r.c, rec.typ, plain)
        case None => (Broken, r.empties)
        case Some((typ, body)) =>
          var empties := if body == [] then (r.empties + 1) % 256 else 0;
          if body == [] && empties > MAX_EMPTY_RECORDS then (Broken, empties)
          else if typ == RT_ALERT then (Alert(n), empties)
          else if typ != RT_HANDSHAKE && Unprocessed(r) then (Broken, empties)
          else (Opened(typ, body, n), empties)
  }

  /** The record in front of the input, once its five header bytes are there. */
  function LengthOf(input: bytes): nat
    requires |input| >= 5
  {
    0x100 * (input[3] as nat) + input[4] as nat
  }

  function VersionOf(input: bytes): nat
    requires |input| >= 5
  {
    0x100 * (input[1] as nat) + input[2] as nat
  }

  /** Its plaintext, if it is long enough for what the cipher adds. */
  function PlainOf(c: Cipher, input: bytes): Option<bytes>
    requires |input| >= 5 && |input| >= 5 + LengthOf(input)
  {
    var n := LengthOf(input);
    if n < c.nonceLen + c.tagLen then None else Some(input[5 + c.nonceLen..5 + n - c.tagLen])
  }

  /** A version other than the cipher's, or without one a major version other than 3; and more
      than 16704 bytes. */
  predicate BadFront(c: Cipher, input: bytes)
    requires |input| >= 5
  {
    (if c.isNull then VersionOf(input) / 0x100 != 3 else VersionOf(input) != c.version) || LengthOf(input) > 16704
  }

  lemma FrontOf(input: bytes)
    requires |input| >= 5
    ensures FromBigEndian(input[1..3]) == VersionOf(input) && FromBigEndian(input[3..5]) == LengthOf(input)
  {
    ShortValues(input[1..3]);
    ShortValues(input[3..5]);
  }

  lemma BodyOf(c: Cipher, input: bytes)
    requires |input| >= 5 && |input| >= 5 + LengthOf(input)
    ensures ParseTls(input).Done? && |input| - |ParseTls(input).rest| == 5 + LengthOf(input)
    ensures ParseTls(input).value.typ == input[0] && Open(c, ParseTls(input).value.body) == PlainOf(c, input)
  {
    FrontOf(input);
    var n := LengthOf(input);
    if n >= c.nonceLen + c.tagLen { SliceOfSlice(input, 5, 5 + n, c.nonceLen, n - c.tagLen); }
  }

  lemma SliceOfSlice(s: bytes, a: nat, b: nat, lo: nat, hi: nat)
    requires a <= b <= |s| && lo <= hi <= b - a
    ensures s[a..b][lo..hi] == s[a + lo..a + hi]
  {
    var x, y := s[a..b][lo..hi], s[a + lo..a + hi];
    forall i | 0 <= i < |x| ensures x[i] == y[i] {}
  }

  /** More bytes are asked for exactly when a header, or the record it announces, is not there
      yet; and how many. */
  lemma PartialExactly(r: Reader, maxLen: nat, input: bytes)
    ensures var v := OpenTls(r, maxLen, input).0;
      && (v.Partial? <==>
            Accepting(r.buf, maxLen)
            && (|input| < 5 || (!BadFront(r.c, input) && |input| < 5 + LengthOf(input))))
      && (v.Partial? ==> v.need == if |input| < 5 then 5 else 5 + LengthOf(input))
  {
    if |input| >= 5 { FrontOf(input); }
  }

  /** A whole record is refused exactly when it does not decrypt, is too long, hides no type or
      hides one behind another than application data, is the 33rd in a row without content, or
      is neither handshake data nor an alert while handshake data is left over. */
  lemma BrokenExactly(r: Reader, maxLen: nat, input: bytes)
    requires Accepting(r.buf, maxLen) && |input| >= 5 && !BadFront(r.c, input) && |input| >= 5 + LengthOf(input)
    ensures var (v, empties), plain := OpenTls(r, maxLen, input), PlainOf(r.c, input);
      if plain.None? then v.Broken?
      else if |plain.value| > 16384 + (if r.c.hidesType then 1 else 0) then v.Broken?
      else if r.c.hidesType && (input[0] != 23 || Stripped(plain.value).None?) then v.Broken?
      else
        var (typ, body) := if r.c.hidesType then Stripped(plain.value).value else (input[0], plain.value);
        && empties == (if body == [] then (r.empties + 1) % 256 else 0)
        && (v.Broken? <==> (body == [] && empties > 32) || (typ != 22 && typ != 21 && Unprocessed(r)))
        && (v.Alert? <==> typ == 21 && !(body == [] && empties > 32))
        && (v.Opened? ==> v.typ == typ && v.body == body)
        && (v.Opened? || v.Alert? ==> v.n == 5 + LengthOf(input))
  {
    FrontOf(input);
    BodyOf(r.c, input);
  }

  /** And nothing is opened while a whole message waits, one too long is in front, or the header
      is bad. */
  lemma RefusesFront(r: Reader, maxLen: nat, input: bytes)
    requires !Accepting(r.buf, maxLen) || (|input| >= 5 && BadFront(r.c, input))
    ensures OpenTls(r, maxLen, input) == (Broken, r.empties)
  {
    if |input| >= 5 { FrontOf(input); }
  }

  /** More is accepted exactly while the message in front is incomplete and, once its length
      is known, not longer than allowed. */
  lemma AcceptsExactly(buf: bytes, maxLen: nat)
    ensures Accepting(buf, maxLen) <==>
      (|buf| < 4 || |buf| < 4 + BodyLength(buf) <= 4 + maxLen)
  {
    ParseExactly(buf);
  }

  function BodyLength(buf: bytes): nat
    requires |buf| >= 4
  {
    0x1_0000 * (buf[1] as nat) + 0x100 * (buf[2] as nat) + buf[3] as nat
  }

  /** ssl3_open_handshake */
  function OpenHandshake(r: Reader, maxLen: nat, input: bytes): (Verdict, Reader) {
    var (v, empties) := OpenTls(r, maxLen, input);
    var r' := r.(empties := empties);
    if !v.Opened? then (v, r')
    else if v.typ != RT_HANDSHAKE then (Broken, r')
    else (v, r'.(buf := r.buf + v.body))
  }

  /** ssl3_open_change_cipher_spec */
  function OpenChangeCipherSpec(r: Reader, maxLen: nat, input: bytes): (Verdict, Reader) {
    var (v, empties) := OpenTls(r, maxLen, input);
    var r' := r.(empties := empties);
    if v.Opened? && (v.typ != RT_CCS || v.body != [1]) then (Broken, r') else (v, r')
  }

  /** A handshake record is appended and no other; what passes as a ChangeCipherSpec is one byte
      1 of type 20; neither touches what is buffered otherwise. */
  lemma OpenedExactly(r: Reader, maxLen: nat, input: bytes)
    ensures var t, h, c := OpenTls(r, maxLen, input), OpenHandshake(r, maxLen, input),
                           OpenChangeCipherSpec(r, maxLen, input);
      && (h.0.Opened? <==> t.0.Opened? && t.0.typ == 22)
      && (c.0.Opened? <==> t.0.Opened? && t.0.typ == 20 && t.0.body == [1])
      && (h.0 == t.0 || h.0.Broken?) && (c.0 == t.0 || c.0.Broken?)
      && h.1 == r.(empties := t.1, buf := if h.0.Opened? then r.buf + t.0.body else r.buf)
      && c.1 == r.(empties := t.1)
  {}

  /** ssl3_set_read_state: refused while anything but the current message is buffered. */
  function SetReadState(r: Reader, c: Cipher): (bool, Reader) {
    if Unprocessed(r) then (false, r) else (true, r.(c := c))
  }

  /** ssl3_get_message */
  function GetMessage(r: Reader): (Option<bytes>, Reader) {
    var parsed := ParseMessage(r.buf);
    if parsed.Got? then (Some(r.buf[..parsed.n]), r.(hasMessage := true)) else (None, r)
  }

  /** ssl3_next_message, with the message it drops; without one it does nothing. */
  function NextMessage(r: Reader): (Option<bytes>, Reader) {
    var parsed := ParseMessage(r.buf);
    if parsed.Got? then (Some(r.buf[..parsed.n]), r.(buf := r.buf[parsed.n..], hasMessage := false)) else (None, r)
  }

  /** A whole message in front is handed out, and is then the current one: what is left over is
      what stands behind it, and going on keeps exactly that. */
  lemma HandedOut(r: Reader)
    requires ParseMessage(r.buf).Got?
    ensures var n := ParseMessage(r.buf).n;
      && GetMessage(r).0 == Some(r.buf[..n])
      && (Unprocessed(GetMessage(r).1) <==> |r.buf| > n)
      && NextMessage(GetMessage(r).1) == (Some(r.buf[..n]), Reader(r.buf[n..], false, r.empties, r.c))
  {}
}
