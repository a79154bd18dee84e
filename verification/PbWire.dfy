/** The Protocol Buffers wire format by itself: the four layouts of a value as literal
    bytes, what the decoder skips, and which layout the encoder gives each type. */
module PbWire {
  import opened Basics
  import opened PbVarint
  import opened PbVarintWidth
  import opened PbTypes
  import opened PbEncodeSpec
  import opened PbDecodeSpec
  import opened PbValid

  /** A value on the wire: groups of seven bits, all but the last marked; eight bytes; a
      length and that many bytes; four bytes. */
  datatype Wire = V(groups: bytes) | F64(word: bytes) | L(len: bytes, body: bytes) | F32(word: bytes) {
    predicate Ok() {
      match this
      case V(g) => g != [] && g[|g| - 1] < 128 && forall i :: 0 <= i < |g| - 1 ==> g[i] >= 128
      case F64(word) => |word| == 8
      case L(len, body) => DecodeVarint32(len) == Done(|body|, [])
      case F32(word) => |word| == 4
    }

    function Code(): nat {
      match this case V(_) => 0 case F64(_) => 1 case L(_, _) => 2 case F32(_) => 5
    }

    function Raw(): bytes {
      match this case V(g) => g case F64(word) => word case L(len, body) => len + body case F32(word) => word
    }
  }

  /** The layout that belongs to a type. */
  predicate Kind(l: LType, w: Wire) {
    match l
    case Varint | UVarint | SVarint => w.V?
    case Fixed32 => w.F32?
    case Fixed64 => w.F64?
    case Bytes | String | Submessage | FixedLengthBytes => w.L?
  }

  // ---- Every reader ignores what follows the bytes it consumed -----------

  lemma {:induction false} VarintLengthExtends(bs: bytes, y: bytes)
    requires VarintLength(bs).Some?
    ensures VarintLength(bs + y) == VarintLength(bs)
    decreases |bs|
  {
    if bs[0] >= 128 {
      VarintLengthExtends(bs[1..], y);
      assert (bs + y)[1..] == bs[1..] + y;
    }
  }

  lemma VarintExtends(bs: bytes, y: bytes)
    requires DecodeVarint(bs).Done?
    ensures DecodeVarint(bs + y) == Done(DecodeVarint(bs).value, DecodeVarint(bs).rest + y)
  {
    VarintLengthExtends(bs, y);
    var n := VarintLength(bs).value;
    assert (bs + y)[..n] == bs[..n] && (bs + y)[n..] == bs[n..] + y;
  }

  lemma {:induction false} Varint32RestExtends(bs: bytes, p: nat, acc: nat, y: bytes)
    requires p < 256 && DecodeVarint32Rest(bs, p, acc).Done?
    ensures var r := DecodeVarint32Rest(bs, p, acc);
      DecodeVarint32Rest(bs + y, p, acc) == Done(r.value, r.rest + y)
    decreases |bs|
  {
    assert (bs + y)[0] == bs[0] && (bs + y)[1..] == bs[1..] + y;
    if bs[0] >= 128 {
      var acc' := if p >= 32 then acc else Bits.Or(acc, Bits.Low(Bits.Shl(bs[0] % 128, p), 32));
      Varint32RestExtends(bs[1..], (p + 7) % 256, acc', y);
    }
  }

  lemma Varint32Extends(bs: bytes, y: bytes)
    requires DecodeVarint32(bs).Done?
    ensures DecodeVarint32(bs + y) == Done(DecodeVarint32(bs).value, DecodeVarint32(bs).rest + y)
  {
    assert (bs + y)[0] == bs[0] && (bs + y)[1..] == bs[1..] + y;
    if bs[0] >= 128 { Varint32RestExtends(bs[1..], 7, bs[0] % 128, y); }
  }

  lemma ReadExtends(bs: bytes, n: nat, y: bytes)
    requires n <= |bs|
    ensures Read(bs + y, n) == Done(bs[..n], bs[n..] + y)
  {
    assert (bs + y)[..n] == bs[..n] && (bs + y)[n..] == bs[n..] + y;
  }

  lemma PayloadExtends(bs: bytes, y: bytes)
    requires Payload(bs).Done?
    ensures Payload(bs + y) == Done(Payload(bs).value, Payload(bs).rest + y)
  {
    Varint32Extends(bs, y);
    ReadExtends(DecodeVarint32(bs).rest, DecodeVarint32(bs).value, y);
  }

  /** And the bytes it consumed are enough for it. */
  lemma {:induction false} Varint32RestPrefix(bs: bytes, p: nat, acc: nat) returns (n: nat)
    requires p < 256 && DecodeVarint32Rest(bs, p, acc).Done?
    ensures 1 <= n <= |bs| && bs[n..] == DecodeVarint32Rest(bs, p, acc).rest
    ensures DecodeVarint32Rest(bs[..n], p, acc) == Done(DecodeVarint32Rest(bs, p, acc).value, [])
    decreases |bs|
  {
    n := 1;
    if bs[0] >= 128 {
      var acc' := if p >= 32 then acc else Bits.Or(acc, Bits.Low(Bits.Shl(bs[0] % 128, p), 32));
      var n' := Varint32RestPrefix(bs[1..], (p + 7) % 256, acc');
      n := n' + 1;
      assert bs[..n][1..] == bs[1..][..n'] && bs[n..] == bs[1..][n'..];
    } else {
      assert bs[..1][1..] == [];
    }
  }

  lemma Varint32Prefix(bs: bytes) returns (n: nat)
    requires DecodeVarint32(bs).Done?
    ensures 1 <= n <= |bs| && bs[n..] == DecodeVarint32(bs).rest
    ensures DecodeVarint32(bs[..n]) == Done(DecodeVarint32(bs).value, [])
  {
    n := 1;
    if bs[0] >= 128 {
      var n' := Varint32RestPrefix(bs[1..], 7, bs[0] % 128);
      n := n' + 1;
      assert bs[..n][1..] == bs[1..][..n'] && bs[n..] == bs[1..][n'..];
    } else {
      assert bs[..1][1..] == [];
    }
  }

  // ---- What the decoder finds in a value ---------------------------------

  lemma {:induction false} GroupsLength(g: bytes, rest: bytes)
    requires V(g).Ok()
    ensures VarintLength(g + rest) == Some(|g|)
    decreases |g|
  {
    assert (g + rest)[0] == g[0];
    if |g| > 1 {
      assert V(g[1..]).Ok();
      GroupsLength(g[1..], rest);
      assert (g + rest)[1..] == g[1..] + rest;
    }
  }

  /** The bytes up to the first one below 0x80. */
  lemma {:induction false} LengthGroups(bs: bytes)
    requires VarintLength(bs).Some?
    ensures V(bs[..VarintLength(bs).value]).Ok()
    decreases |bs|
  {
    var n := VarintLength(bs).value;
    if bs[0] >= 128 {
      LengthGroups(bs[1..]);
      assert bs[..n] == [bs[0]] + bs[1..][..n - 1];
    }
  }

  lemma DelimitedReads(w: Wire, rest: bytes)
    requires w.L? && w.Ok()
    ensures DecodeVarint32(w.Raw() + rest) == Done(|w.body|, w.body + rest)
    ensures Read(w.body + rest, |w.body|) == Done(w.body, rest)
    ensures Payload(w.Raw() + rest) == Done(w.body, rest)
  {
    Varint32Extends(w.len, w.body + rest);
    assert w.Raw() + rest == w.len + (w.body + rest) && [] + (w.body + rest) == w.body + rest;
    assert (w.body + rest)[..|w.body|] == w.body && (w.body + rest)[|w.body|..] == rest;
  }

  // ---- Skipping ----------------------------------------------------------

  lemma SkipsWire(w: Wire, rest: bytes)
    requires w.Ok()
    ensures SkipField(w.Code(), w.Raw() + rest) == Done((), rest)
  {
    assert (w.Raw() + rest)[|w.Raw()|..] == rest;
    match w
    case V(g) => GroupsLength(g, rest);
    case L(_, _) => DelimitedReads(w, rest);
    case _ =>
  }

  lemma SkippedWire(wt: nat, bs: bytes) returns (w: Wire)
    requires SkipField(wt, bs).Done?
    ensures w.Ok() && w.Code() == wt && bs == w.Raw() + SkipField(wt, bs).rest
  {
    if wt == 0 {
      LengthGroups(bs);
      w := V(bs[..VarintLength(bs).value]);
    } else if wt == 2 {
      w := SkippedDelimited(bs);
    } else {
      var n := if wt == 1 then 8 else 4;
      w := if wt == 1 then F64(bs[..n]) else F32(bs[..n]);
      assert bs == bs[..n] + bs[n..];
    }
  }

  lemma SkippedDelimited(bs: bytes) returns (w: Wire)
    requires Payload(bs).Done?
    ensures w.L? && w.Ok() && w.body == Payload(bs).value && bs == w.Raw() + Payload(bs).rest
  {
    var n := Varint32Prefix(bs);
    var size := DecodeVarint32(bs).value;
    w := L(bs[..n], bs[n..][..size]);
    assert bs == bs[..n] + bs[n..] && bs[n..] == bs[n..][..size] + bs[n..][size..];
    Associate(bs[..n], w.body, bs[n..][size..]);
  }

  /** pb_skip_field, whatever the wire type and the bytes: it passes over one value of the
      layout that the wire type announces, and fails exactly when there is none. */
  lemma SkipExactly(wt: nat, bs: bytes, rest: bytes)
    ensures SkipField(wt, bs) == Done((), rest) <==> exists w: Wire :: w.Ok() && w.Code() == wt && bs == w.Raw() + rest
  {
    if SkipField(wt, bs) == Done((), rest) {
      var w := SkippedWire(wt, bs);
    }
    if w: Wire :| w.Ok() && w.Code() == wt && bs == w.Raw() + rest {
      SkipsWire(w, rest);
    }
  }

  // ---- Fields on the wire ------------------------------------------------

  /** The values of a packed array, one behind the other. */
  function RawAll(ws: seq<Wire>): bytes {
    if ws == [] then [] else ws[0].Raw() + RawAll(ws[1..])
  }

  /** What stands behind a key: one value, or a length and the values of an array. */
  datatype Content = One(w: Wire) | Packed(len: bytes, ws: seq<Wire>) {
    predicate Ok() {
      match this
      case One(w) => w.Ok()
      case Packed(len, ws) =>
        L(len, RawAll(ws)).Ok() && forall i :: 0 <= i < |ws| ==> ws[i].Ok()
    }

    function Code(): nat { match this case One(w) => w.Code() case Packed(_, _) => 2 }

    function Raw(): bytes { match this case One(w) => w.Raw() case Packed(len, ws) => len + RawAll(ws) }

    function Values(): seq<Wire> { match this case One(w) => [w] case Packed(_, ws) => ws }
  }

  /** A key, of whatever length, that stands for a tag and the code of what follows it. */
  datatype Rec = Rec(tag: nat, key: bytes, what: Content) {
    predicate Ok() {
      what.Ok() && DecodeVarint32(key) == Done(8 * tag + what.Code(), [])
    }

    function Raw(): bytes { key + what.Raw() }
  }

  /** A message on the wire. */
  function RecBytes(recs: seq<Rec>): bytes {
    if recs == [] then [] else recs[0].Raw() + RecBytes(recs[1..])
  }

  lemma {:induction false} RecBytesAppend(a: seq<Rec>, b: seq<Rec>)
    ensures RecBytes(a + b) == RecBytes(a) + RecBytes(b)
    decreases |a|
  {
    if a == [] {
      assert a + b == b;
    } else {
      RecBytesAppend(a[1..], b);
      assert (a + b)[1..] == a[1..] + b && (a + b)[0] == a[0];
      Associate(a[0].Raw(), RecBytes(a[1..]), RecBytes(b));
    }
  }

  lemma RecKey(r: Rec, rest: bytes)
    requires r.Ok()
    ensures r.Raw() != [] && r.Raw() + rest == r.key + (r.what.Raw() + rest)
    ensures DecodeVarint32(r.Raw() + rest) == Done(8 * r.tag + r.what.Code(), r.what.Raw() + rest)
    ensures (8 * r.tag + r.what.Code()) / 8 == r.tag && (8 * r.tag + r.what.Code()) % 8 == r.what.Code()
  {
    Varint32Extends(r.key, r.what.Raw() + rest);
    Associate(r.key, r.what.Raw(), rest);
    assert [] + (r.what.Raw() + rest) == r.what.Raw() + rest;
  }

  lemma SkipsContent(c: Content, rest: bytes)
    requires c.Ok()
    ensures SkipField(c.Code(), c.Raw() + rest) == Done((), rest)
  {
    SkipsWire(match c case One(w) => w case Packed(len, ws) => L(len, RawAll(ws)), rest);
  }

  // ---- What the encoder writes -------------------------------------------

  lemma {:induction false} VarintIsGroups(v: nat)
    ensures V(EncodeVarint(v)).Ok()
    decreases v
  {
    if v >= 128 {
      VarintIsGroups(v / 128);
      assert EncodeVarint(v) == [v % 128 + 128] + EncodeVarint(v / 128);
    }
  }

  lemma {:induction false} DelimitedIsLayout(s: bytes)
    requires |s| < TWO_32
    ensures L(EncodeVarint(|s|), s).Ok() && L(EncodeVarint(|s|), s).Raw() == Delimited(s)
  {
    Varint32RoundTrip(|s|, []);
    assert EncodeVarint(|s|) + [] == EncodeVarint(|s|);
  }

  /** The value is laid out as its type says, and the key in front of it announces that layout. */
  lemma {:induction false} Layout(f: Field, v: Value) returns (w: Wire)
    requires EncodeValue(f, v).Some? && |EncodeValue(f, v).value| < TWO_32
    ensures w.Ok() && Kind(f.l, w) && w.Raw() == EncodeValue(f, v).value
    ensures TaggedValue(f, v) == Some(EncodeVarint(8 * f.tag + w.Code()) + w.Raw())
  {
    var e := EncodeValue(f, v).value;
    match f.l {
      case Varint | UVarint =>
        VarintIsGroups(ToUnsigned(v.v, TWO_64));
        w := V(e);
      case SVarint =>
        VarintIsGroups(ZigZag(v.v));
        w := V(e);
      case Fixed32 => w := F32(e);
      case Fixed64 => w := F64(e);
      case Bytes => w := DelimitedWire(v.buf[..v.size]);
      case String => w := DelimitedWire(v.buf[..StrLen(v.buf)]);
      case Submessage => w := DelimitedWire(EncodeMessage(f.ptr.fields, v.m).value);
      case FixedLengthBytes => w := DelimitedWire(v.buf);
    }
  }

  lemma DelimitedWire(s: bytes) returns (w: Wire)
    requires |Delimited(s)| < TWO_32
    ensures w.L? && w.Ok() && w.Raw() == Delimited(s) && w.body == s
  {
    DelimitedIsLayout(s);
    w := L(EncodeVarint(|s|), s);
  }

  /** A key and one value, as the encoder writes them. */
  lemma TaggedRec(f: Field, v: Value) returns (r: Rec)
    requires EncodeValue(f, v).Some? && |EncodeValue(f, v).value| < TWO_32
    ensures r.Ok() && r.tag == f.tag && r.what.One? && Kind(f.l, r.what.w)
    ensures r.what.w.Raw() == EncodeValue(f, v).value && TaggedValue(f, v) == Some(r.Raw())
  {
    var w := Layout(f, v);
    var key := EncodeVarint(8 * f.tag + w.Code());
    Varint32RoundTrip(8 * f.tag + w.Code(), []);
    assert key + [] == key;
    r := Rec(f.tag, key, One(w));
  }
}
