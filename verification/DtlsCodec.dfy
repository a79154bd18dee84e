/** Big-endian integers, handshake fragment headers and DTLS record headers
    (sections 4.1 and 4.2.2 of RFC 6347). */
module DtlsCodec {
  import opened Basics

  const HM_HEADER_LENGTH: nat := 12
  const RT_HEADER_LENGTH: nat := 13
  /** dtls1_min_mtu and kDefaultMTU */
  const MIN_MTU: nat := 256 - 28
  const DEFAULT_MTU: nat := 1500 - 28
  /** SSL3_RT_MAX_PLAIN_LENGTH and SSL3_RT_MAX_ENCRYPTED_LENGTH */
  const MAX_PLAIN_LENGTH: nat := 16384
  const MAX_ENCRYPTED_LENGTH: nat := 16384 + 320
  const RT_CCS: byte := 20
  const RT_ALERT: byte := 21
  const RT_HANDSHAKE: byte := 22
  const RT_APP_DATA: byte := 23
  const TWO_16: nat := 0x1_0000
  const TWO_24: nat := 0x100_0000
  const TWO_48: nat := 0x1_0000_0000_0000

  /** CBB_add_u8, u16, u24: n bytes of v, most significant first. */
  function BigEndian(v: nat, n: nat): (e: bytes)
    ensures |e| == n
    decreases n, v
  {
    if n == 0 then [] else BigEndian(v / 256, n - 1) + [v % 256]
  }

  function FromBigEndian(s: bytes): nat {
    if s == [] then 0 else 256 * FromBigEndian(s[..|s| - 1]) + s[|s| - 1]
  }

  function Pow256(n: nat): (p: nat)
    ensures p > 0
  {
    if n == 0 then 1 else 256 * Pow256(n - 1)
  }

  lemma {:induction false} BigEndianRoundTrip(v: nat, n: nat)
    requires v < Pow256(n)
    ensures FromBigEndian(BigEndian(v, n)) == v
    decreases n
  {
    if n > 0 {
      BigEndianRoundTrip(v / 256, n - 1);
      assert BigEndian(v, n)[..n - 1] == BigEndian(v / 256, n - 1);
    }
  }

  lemma {:induction false} FromBigEndianBound(s: bytes)
    ensures FromBigEndian(s) < Pow256(|s|)
    decreases |s|
  {
    if s != [] { FromBigEndianBound(s[..|s| - 1]); }
  }

  lemma Pow256Table()
    ensures Pow256(1) == 0x100 && Pow256(2) == TWO_16 && Pow256(3) == TWO_24 && Pow256(6) == TWO_48
  {}

  /** hm_header_st */
  datatype Header = Header(typ: byte, msgLen: nat, seqNum: nat, fragOff: nat, fragLen: nat) {
    predicate Fits() {
      msgLen < TWO_24 && seqNum < TWO_16 && fragOff < TWO_24 && fragLen < TWO_24
    }
  }

  function EncodeHeader(h: Header): (e: bytes)
    ensures |e| == HM_HEADER_LENGTH
  {
    [h.typ] + BigEndian(h.msgLen, 3) + BigEndian(h.seqNum, 2) + BigEndian(h.fragOff, 3) + BigEndian(h.fragLen, 3)
  }

  datatype Fragment = Fragment(h: Header, body: bytes)

  /** dtls1_parse_fragment: a header and as many bytes as it announces. */
  function ParseFragment(bs: bytes): (r: Parsed<Fragment>)
    ensures r.Done? ==> r.value.h.Fits() && |r.value.body| == r.value.h.fragLen
    ensures r.Done? ==> |r.rest| + HM_HEADER_LENGTH + r.value.h.fragLen == |bs|
  {
    if |bs| < HM_HEADER_LENGTH then Fail else
    var h := Header(bs[0], FromBigEndian(bs[1..4]), FromBigEndian(bs[4..6]), FromBigEndian(bs[6..9]),
                    FromBigEndian(bs[9..12]));
    assert h.Fits() by {
      Pow256Table();
      FromBigEndianBound(bs[1..4]);
      FromBigEndianBound(bs[4..6]);
      FromBigEndianBound(bs[6..9]);
      FromBigEndianBound(bs[9..12]);
    }
    if |bs| < HM_HEADER_LENGTH + h.fragLen then Fail
    else Done(Fragment(h, bs[12..12 + h.fragLen]), bs[12 + h.fragLen..])
  }

  /** Parsing finds the fragment that was written, and leaves what follows it. */
  lemma FragmentRoundTrip(f: Fragment, rest: bytes)
    requires f.h.Fits() && |f.body| == f.h.fragLen
    ensures ParseFragment(EncodeHeader(f.h) + f.body + rest) == Done(f, rest)
  {
    var h, bs := f.h, EncodeHeader(f.h) + f.body + rest;
    Pow256Table();
    BigEndianRoundTrip(h.msgLen, 3);
    BigEndianRoundTrip(h.seqNum, 2);
    BigEndianRoundTrip(h.fragOff, 3);
    BigEndianRoundTrip(h.fragLen, 3);
    assert bs[1..4] == BigEndian(h.msgLen, 3) && bs[4..6] == BigEndian(h.seqNum, 2);
    assert bs[6..9] == BigEndian(h.fragOff, 3) && bs[9..12] == BigEndian(h.fragLen, 3);
    assert bs[12..12 + h.fragLen] == f.body && bs[12 + h.fragLen..] == rest;
  }

  // ---- Records -----------------------------------------------------------

  /** A record on the wire: header fields and the sealed body. */
  datatype WireRecord = WireRecord(typ: byte, version: nat, epoch: nat, number: nat, body: bytes) {
    predicate Fits() {
      version < TWO_16 && epoch < TWO_16 && number < TWO_48 && |body| < TWO_16
    }
  }

  /** The bytes dtls_seal_record produces. */
  function EncodeRecord(r: WireRecord): bytes {
    [r.typ] + BigEndian(r.version, 2) + BigEndian(r.epoch, 2) + BigEndian(r.number, 6)
    + BigEndian(|r.body|, 2) + r.body
  }

  /** The header dtls_open_record reads; the eight sequence bytes are epoch and number. */
  function ParseRecord(bs: bytes): (r: Parsed<WireRecord>)
    ensures r.Done? ==> r.value.Fits() && |r.rest| + RT_HEADER_LENGTH + |r.value.body| == |bs|
  {
    if |bs| < RT_HEADER_LENGTH then Fail else
    var len := FromBigEndian(bs[11..13]);
    if |bs| < RT_HEADER_LENGTH + len then Fail else
    var r := WireRecord(bs[0], FromBigEndian(bs[1..3]), FromBigEndian(bs[3..5]), FromBigEndian(bs[5..11]),
                        bs[13..13 + len]);
    assert r.Fits() by {
      Pow256Table();
      FromBigEndianBound(bs[1..3]);
      FromBigEndianBound(bs[3..5]);
      FromBigEndianBound(bs[5..11]);
      FromBigEndianBound(bs[11..13]);
    }
    Done(r, bs[13 + len..])
  }

  lemma RecordRoundTrip(r: WireRecord, rest: bytes)
    requires r.Fits()
    ensures ParseRecord(EncodeRecord(r) + rest) == Done(r, rest)
    ensures |EncodeRecord(r)| == RT_HEADER_LENGTH + |r.body|
  {
    var bs, len := EncodeRecord(r) + rest, |r.body|;
    Pow256Table();
    BigEndianRoundTrip(r.version, 2);
    BigEndianRoundTrip(r.epoch, 2);
    BigEndianRoundTrip(r.number, 6);
    BigEndianRoundTrip(len, 2);
    assert bs[1..3] == BigEndian(r.version, 2) && bs[3..5] == BigEndian(r.epoch, 2);
    assert bs[5..11] == BigEndian(r.number, 6) && bs[11..13] == BigEndian(len, 2);
    assert bs[13..13 + len] == r.body && bs[13 + len..] == rest;
  }

  /** The eight sequence bytes as one 64-bit integer. */
  function SequenceNumber(epoch: nat, number: nat): nat {
    epoch * TWO_48 + number
  }

  /** to_u64_be of the sequence bytes in a record. */
  lemma {:induction false} SequenceBytes(epoch: nat, number: nat)
    requires epoch < TWO_16 && number < TWO_48
    ensures FromBigEndian(BigEndian(epoch, 2) + BigEndian(number, 6)) == SequenceNumber(epoch, number)
  {
    Pow256Table();
    BigEndianRoundTrip(epoch, 2);
    BigEndianRoundTrip(number, 6);
    FromBigEndianAppend(BigEndian(epoch, 2), BigEndian(number, 6));
  }

  lemma {:induction false} FromBigEndianAppend(a: bytes, b: bytes)
    ensures FromBigEndian(a + b) == FromBigEndian(a) * Pow256(|b|) + FromBigEndian(b)
    decreases |b|
  {
    if b == [] {
      assert a + b == a;
    } else {
      var b' := b[..|b| - 1];
      FromBigEndianAppend(a, b');
      assert (a + b)[..|a + b| - 1] == a + b' && (a + b)[|a + b| - 1] == b[|b| - 1];
      Scale(FromBigEndian(a), Pow256(|b'|));
    }
  }

  lemma Scale(x: nat, p: nat)
    ensures 256 * (x * p) == x * (256 * p)
  {}

  // ---- The bytes one by one ----------------------------------------------

  function Two(v: nat): bytes {
    [v / 0x100 % 256, v % 256]
  }

  function Three(v: nat): bytes {
    [v / 0x1_0000 % 256, v / 0x100 % 256, v % 256]
  }

  lemma {:induction false} UpToThree(v: nat)
    ensures BigEndian(v, 1) == [v % 256] && BigEndian(v, 2) == Two(v) && BigEndian(v, 3) == Three(v)
  {
    var u, w := v / 256, v / 256 / 256;
    assert BigEndian(u, 1) == BigEndian(w, 0) + [u % 256];
    assert BigEndian(w, 1) == BigEndian(w / 256, 0) + [w % 256];
    assert BigEndian(u, 2) == BigEndian(w, 1) + [u % 256];
  }

  lemma {:induction false} ShortNumbers(v: nat)
    ensures BigEndian(v, 2) == Two(v) && BigEndian(v, 3) == Three(v)
    ensures BigEndian(v, 6) == Three(v / 0x100_0000) + Three(v)
  {
    var w := v / 0x100_0000;
    UpToThree(v);
    UpToThree(w);
    assert v / 256 / 256 / 256 == w;
    assert BigEndian(v / 256 / 256, 4) == BigEndian(w, 3) + [v / 256 / 256 % 256];
    assert BigEndian(v / 256, 5) == BigEndian(v / 256 / 256, 4) + [v / 256 % 256];
    assert BigEndian(v, 6) == BigEndian(v / 256, 5) + [v % 256];
  }

  /** A fragment header: type, length of the message, its number, offset and length of the
      fragment, high bytes first. */
  lemma HeaderLayout(h: Header)
    ensures EncodeHeader(h) == [h.typ] + Three(h.msgLen) + Two(h.seqNum) + Three(h.fragOff) + Three(h.fragLen)
  {
    ShortNumbers(h.msgLen);
    ShortNumbers(h.seqNum);
    ShortNumbers(h.fragOff);
    ShortNumbers(h.fragLen);
  }

  /** A record: type, version, epoch, 48-bit number, length and body. */
  lemma RecordLayout(r: WireRecord)
    ensures EncodeRecord(r)
      == [r.typ] + Two(r.version) + Two(r.epoch) + (Three(r.number / 0x100_0000) + Three(r.number))
         + Two(|r.body|) + r.body
  {
    ShortNumbers(r.version);
    ShortNumbers(r.epoch);
    ShortNumbers(r.number);
    ShortNumbers(|r.body|);
  }

  lemma {:induction false} ShortValues(b: bytes)
    ensures |b| == 2 ==> FromBigEndian(b) == 0x100 * (b[0] as nat) + b[1] as nat
    ensures |b| == 3 ==> FromBigEndian(b) == 0x1_0000 * (b[0] as nat) + 0x100 * (b[1] as nat) + b[2] as nat
  {
    if |b| == 2 || |b| == 3 {
      var c := b[..|b| - 1];
      assert FromBigEndian(b) == 256 * FromBigEndian(c) + b[|b| - 1];
      var d := c[..|c| - 1];
      assert FromBigEndian(c) == 256 * FromBigEndian(d) + c[|c| - 1];
      if |d| == 1 { assert d[..0] == [] && FromBigEndian(d) == 256 * FromBigEndian([]) + d[0]; }
    }
  }
}
