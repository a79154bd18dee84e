/** The retransmission timer of d1_lib.cc (section 4.2.4.1 of RFC 6347): starting,
    stopping, backing off, and the limit on retransmissions. */
module DtlsTimer {
  import opened Basics
  import opened Bits
  import opened PbVarint
  import opened DtlsCodec

  const MAX_DURATION: nat := 60000
  const DTLS1_MTU_TIMEOUTS: nat := 2
  const DTLS1_MAX_TIMEOUTS: nat := 12
  const MT_FINISHED: byte := 20
  const INT_MAX: nat := 0x7fff_ffff

  /** OPENSSL_timeval, with usec below a million. */
  datatype Time = Time(sec: nat, usec: nat) {
    predicate Ok() { usec < 1000000 }

    function Micros(): nat { 1000000 * sec + usec }
  }

  const ZERO: Time := Time(0, 0)

  // ---- Backing off -------------------------------------------------------

  /** dtls1_double_timeout, in 32 bits. */
  function Doubled(ms: nat): nat {
    Min(2 * ms % TWO_32, MAX_DURATION)
  }

  /** Twice as long, up to a minute, unless that takes more than 32 bits: then the top bit is
      lost first. */
  lemma DoubledExactly(ms: nat)
    requires ms < 0x1_0000_0000
    ensures ms < 0x8000_0000 ==> Doubled(ms) == if 2 * ms > 60000 then 60000 else 2 * ms
    ensures ms >= 0x8000_0000 ==> Doubled(ms) == Doubled(ms - 0x8000_0000)
  {}

  /** Duration after k doublings. */
  function Duration(initial: nat, k: nat): nat {
    if k == 0 then initial else Doubled(Duration(initial, k - 1))
  }

  lemma {:induction false} BackoffFormula(initial: nat, k: nat)
    requires initial <= MAX_DURATION
    ensures Duration(initial, k) == Min(MAX_DURATION, initial * Pow2(k))
    decreases k
  {
    if k > 0 {
      BackoffFormula(initial, k - 1);
      Twice(initial, Pow2(k - 1));
      DoubledMin(initial * Pow2(k - 1));
    }
  }

  lemma Twice(a: nat, p: nat)
    ensures a * (2 * p) == 2 * (a * p)
  {}

  lemma DoubledMin(x: nat)
    ensures Doubled(Min(MAX_DURATION, x)) == Min(MAX_DURATION, 2 * x)
  {}

  /** The duration is min(60000, initial * 2^k) after every number k of timeouts
      exactly when the initial duration is at most 60000 ms. */
  lemma BackoffExactly(initial: nat)
    ensures (forall k: nat :: Duration(initial, k) == Min(60000, initial * Pow2(k))) <==> initial <= 60000
  {
    if initial <= MAX_DURATION {
      forall k: nat ensures Duration(initial, k) == Min(MAX_DURATION, initial * Pow2(k)) { BackoffFormula(initial, k); }
    } else {
      assert Duration(initial, 0) == initial && Pow2(0) == 1;
      assert Duration(initial, 0) != Min(MAX_DURATION, initial * Pow2(0));
    }
  }

  // ---- The retry budget --------------------------------------------------

  /** How many of the first n checks since the timer was stopped allow a retransmission:
      num_timeouts is an unsigned 32-bit counter. */
  function Retries(n: nat): nat {
    if n == 0 then 0 else Retries(n - 1) + if n % TWO_32 <= DTLS1_MAX_TIMEOUTS then 1 else 0
  }

  lemma {:induction false} RetriesWithinRange(n: nat)
    requires n < TWO_32
    ensures Retries(n) == Min(n, DTLS1_MAX_TIMEOUTS)
    decreases n
  {
    if n > 0 { RetriesWithinRange(n - 1); }
  }

  lemma {:induction false} RetriesGrow(m: nat, n: nat)
    requires m <= n
    ensures Retries(m) <= Retries(n)
    decreases n
  {
    if m < n { RetriesGrow(m, n - 1); }
  }

  /** At most twelve retransmissions, exactly as long as the counter has not come round. */
  lemma {:induction false} RetryBudgetExactly(n: nat)
    ensures Retries(n) <= 12 <==> n < TWO_32
    ensures n < TWO_32 ==> Retries(n) == Min(n, 12)
  {
    if n < TWO_32 {
      RetriesWithinRange(n);
    } else {
      RetriesWithinRange(TWO_32 - 1);
      var wrapped := TWO_32;
      assert Retries(wrapped) == Retries(wrapped - 1) + 1;
      RetriesGrow(wrapped, n);
    }
  }

  // ---- The timer ---------------------------------------------------------

  /** How a remaining time in microseconds is reported: nothing below 15 ms, and at
      most INT_MAX seconds. */
  function Shown(micros: int): (t: Time)
    ensures t.Ok()
    ensures micros < 15000 <==> t == ZERO
    ensures 15000 <= micros < 1000000 * INT_MAX ==> t.Micros() == micros
    ensures t.sec <= INT_MAX
  {
    if micros < 15000 then ZERO else Time(Min(micros / 1000000, INT_MAX), micros % 1000000)
  }

  lemma Normalised(micros: int, sec: int, usec: int)
    requires micros == 1000000 * sec + usec && 0 <= usec < 1000000
    ensures micros / 1000000 == sec && micros % 1000000 == usec
  {}

  /** An MTU reported by the transport that is taken over. */
  predicate UsableMtu(mtu: int) {
    MIN_MTU <= mtu <= 0x4000_0000
  }

  datatype TimeoutResult = NotExpired | GiveUp | Retransmitted

  datatype PostHandshake = DecodeError | TooManyTimeouts | RetransmitAndDiscard | DiscardOnly | Unexpected

  /** checks counts dtls1_check_timeout_num since the timer was last stopped, retries the
      retransmissions it allowed, and doublings the timeouts since the duration was reset. */
  class Timer {
    var nextTimeout: Time
    var durationMs: nat
    var initialMs: nat
    var numTimeouts: nat
    var mtu: nat
    ghost var checks: nat
    ghost var retries: nat
    ghost var doublings: nat

    ghost predicate Valid()
      reads this
    {
      && nextTimeout.Ok() && initialMs < TWO_32
      && numTimeouts == checks % TWO_32 && retries == Retries(checks)
      && durationMs == Duration(initialMs, doublings)
    }

    /** No timer runs, and the counts are as after a start. */
    ghost predicate Stopped()
      reads this
    {
      nextTimeout == ZERO && checks == 0 && retries == 0 && doublings == 0
    }

    constructor (initialMs: nat)
      requires initialMs < TWO_32
      ensures Valid() && nextTimeout == ZERO && checks == 0 && retries == 0 && doublings == 0
    {
      nextTimeout, durationMs, this.initialMs, numTimeouts, mtu := ZERO, initialMs, initialMs, 0, 0;
      checks, retries, doublings := 0, 0, 0;
    }

    /** dtls1_start_timer: a timer that was not running begins with the initial duration. */
    method Start(now: Time)
      requires Valid() && now.Ok()
      modifies `nextTimeout, `durationMs, `doublings
      ensures Valid() && doublings == if old(nextTimeout) == ZERO then 0 else old(doublings)
      ensures nextTimeout.Micros() == now.Micros() + 1000 * durationMs
    {
      if nextTimeout == ZERO {
        durationMs := initialMs;
        doublings := 0;
      }
      var sec, usec := now.sec + durationMs / 1000, now.usec + durationMs % 1000 * 1000;
      if usec >= 1000000 { sec, usec := sec + 1, usec - 1000000; }
      nextTimeout := Time(sec, usec);
    }

    /** dtls1_stop_timer */
    method Stop()
      requires Valid()
      modifies this
      ensures Valid() && Stopped() && numTimeouts == 0 && durationMs == initialMs
      ensures initialMs == old(initialMs) && mtu == old(mtu)
    {
      numTimeouts, nextTimeout, durationMs := 0, ZERO, initialMs;
      checks, retries, doublings := 0, 0, 0;
    }

    /** DTLSv1_get_timeout: the time left, with less than 15 ms shown as none. */
    method GetTimeout(now: Time) returns (running: bool, left: Time)
      requires nextTimeout.Ok() && now.Ok()
      ensures running <==> nextTimeout != ZERO
      ensures running ==> left == Shown(nextTimeout.Micros() - now.Micros())
    {
      if nextTimeout == ZERO { return false, ZERO; }
      if nextTimeout.sec < now.sec || (nextTimeout.sec == now.sec && nextTimeout.usec <= now.usec) {
        return true, ZERO;
      }
      var sec, usec := nextTimeout.sec - now.sec, 0;
      if nextTimeout.usec >= now.usec {
        usec := nextTimeout.usec - now.usec;
      } else {
        usec := 1000000 + nextTimeout.usec - now.usec;
        sec := sec - 1;
      }
      Normalised(nextTimeout.Micros() - now.Micros(), sec, usec);
      if sec == 0 && usec < 15000 { usec := 0; }
      return true, Time(if sec > INT_MAX then INT_MAX else sec, usec);
    }

    /** dtls1_is_timer_expired: 15 ms early counts. */
    method IsExpired(now: Time) returns (r: bool)
      requires nextTimeout.Ok() && now.Ok()
      ensures r <==> nextTimeout != ZERO && nextTimeout.Micros() < now.Micros() + 15000
    {
      var running, left := GetTimeout(now);
      return running && left.sec == 0 && left.usec == 0;
    }

    /** dtls1_check_timeout_num: after two timeouts the MTU may fall back, after twelve
        the connection fails. fallback is the transport's answer, if it may be asked. */
    method CheckTimeoutNum(fallback: Option<int>) returns (ok: bool)
      requires Valid()
      modifies `numTimeouts, `mtu, `checks, `retries
      ensures Valid() && checks == old(checks) + 1
      ensures ok <==> checks % 0x1_0000_0000 <= 12
      ensures retries == old(retries) + if ok then 1 else 0
      ensures mtu == if checks % 0x1_0000_0000 > 2 && fallback.Some? && 228 <= fallback.value <= 0x4000_0000
        then fallback.value else old(mtu)
    {
      numTimeouts := (numTimeouts + 1) % TWO_32;
      checks := checks + 1;
      if numTimeouts > DTLS1_MTU_TIMEOUTS && fallback.Some? {
        if UsableMtu(fallback.value) { mtu := fallback.value; }
      }
      ok := numTimeouts <= DTLS1_MAX_TIMEOUTS;
      if ok { retries := retries + 1; }
    }

    /** DTLSv1_handle_timeout, up to the retransmission itself. The clock is read once
        to see whether the timer has expired and again to start it anew. */
    method HandleTimeout(now: Time, later: Time, fallback: Option<int>) returns (r: TimeoutResult)
      requires Valid() && now.Ok() && later.Ok()
      modifies `nextTimeout, `durationMs, `numTimeouts, `mtu, `checks, `retries, `doublings
      ensures Valid()
      ensures r.NotExpired? <==>
        !(old(nextTimeout) != ZERO && old(nextTimeout).Micros() < now.Micros() + 15000)
      ensures r.NotExpired? ==> unchanged(this)
      ensures !r.NotExpired? ==> checks == old(checks) + 1
      ensures r.GiveUp? <==> !r.NotExpired? && checks % 0x1_0000_0000 > 12
      ensures mtu == if !r.NotExpired? && checks % 0x1_0000_0000 > 2 && fallback.Some?
          && 228 <= fallback.value <= 0x4000_0000
        then fallback.value else old(mtu)
      ensures r.Retransmitted? <==> retries == old(retries) + 1
      ensures r.Retransmitted? ==>
        && doublings == old(doublings) + 1
        && nextTimeout.Micros() == later.Micros() + 1000 * Duration(initialMs, doublings)
      ensures checks < TWO_32 ==> retries <= 12
    {
      RetryBudgetExactly(checks);
      RetryBudgetExactly(checks + 1);
      var expired := IsExpired(now);
      if !expired { return NotExpired; }
      var ok := CheckTimeoutNum(fallback);
      if !ok { return GiveUp; }
      durationMs, doublings := Doubled(durationMs), doublings + 1;
      Start(later);
      return Retransmitted;
    }

    /** dtls1_open_app_data on a handshake record: the first fragment of the peer's
        Finished again means that our last flight was lost. */
    method RepeatedFinished(payload: bytes, readSeq: nat, fallback: Option<int>) returns (r: PostHandshake)
      requires Valid()
      modifies `numTimeouts, `mtu, `checks, `retries
      ensures Valid()
      ensures r.RetransmitAndDiscard? || r.TooManyTimeouts? <==>
        var p := ParseFragment(payload);
        p.Done? && p.value.h.typ == MT_FINISHED && p.value.h.seqNum + 1 == readSeq && p.value.h.fragOff == 0
      ensures r.TooManyTimeouts? ==> checks % 0x1_0000_0000 > 12
      ensures r.DecodeError? <==> ParseFragment(payload).Fail?
      ensures r.DiscardOnly? <==>
        var p := ParseFragment(payload);
        p.Done? && p.value.h.typ == MT_FINISHED && p.value.h.seqNum + 1 == readSeq && p.value.h.fragOff != 0
      ensures checks == old(checks) + if r.RetransmitAndDiscard? || r.TooManyTimeouts? then 1 else 0
      ensures retries == old(retries) + if r.RetransmitAndDiscard? then 1 else 0
      ensures checks < TWO_32 ==> retries <= 12
    {
      RetryBudgetExactly(checks);
      RetryBudgetExactly(checks + 1);
      var parsed := ParseFragment(payload);
      if parsed.Fail? { return DecodeError; }
      var h := parsed.value.h;
      if h.typ == MT_FINISHED && h.seqNum == readSeq - 1 {
        if h.fragOff == 0 {
          var ok := CheckTimeoutNum(fallback);
          if !ok { return TooManyTimeouts; }
          return RetransmitAndDiscard;
        }
        return DiscardOnly;
      }
      return Unexpected;
    }
  }
}
