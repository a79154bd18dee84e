/** What every run of a sender, a lossy network and a receiver satisfies, and the runs
    that show where it ends. */
module DtlsTheorems {
  import opened Basics
  import opened DtlsCodec
  import opened DtlsReplay
  import opened DtlsWindow
  import opened DtlsFlight
  import opened DtlsRun
  import opened DtlsSender

  // ---- Counting the steps of a run ---------------------------------------

  /** Messages the run adds. */
  function Adds(actions: seq<Action>): nat {
    if actions == [] then 0 else (if actions[0].AddMessage? then 1 else 0) + Adds(actions[1..])
  }

  /** Changes of the write state. */
  function EpochChanges(actions: seq<Action>): nat {
    if actions == [] then 0 else (if actions[0].NextWriteEpoch? then 1 else 0) + EpochChanges(actions[1..])
  }

  predicate Seals(a: Action) {
    a.SealOne? || a.WriteOther?
  }

  /** Numbers that one step may take of write state e. */
  function Share(a: Action, era: nat, e: nat): nat {
    if Seals(a) && (era == e || era == e + 1) then 1 else 0
  }

  /** Sealing steps while write state e, or the one after it, is the present one, for a run
      that begins in the given write state. */
  function SealsFor(actions: seq<Action>, era: nat, e: nat): nat {
    if actions == [] then 0
    else
      Share(actions[0], era, e)
      + SealsFor(actions[1..], if actions[0].NextWriteEpoch? then era + 1 else era, e)
  }

  lemma SentStep(w: World, a: Action)
    requires RxOk(w.rx)
    ensures |Next(w, a).sent| <= |w.sent| + if a.AddMessage? then 1 else 0
  {}

  lemma EraStep(w: World, a: Action)
    requires RxOk(w.rx)
    ensures Next(w, a).era == w.era + if a.NextWriteEpoch? then 1 else 0
  {}

  lemma {:induction false} SpentCounts(w: World, tx: Tx, rec: Option<Sealed>, e: nat)
    ensures Count(Spend(w, tx, rec).used, e) <= Count(w.used, e) + if w.era == e || w.era == e + 1 then 1 else 0
  {
    var spent := Spent(w.tx, tx, w.era, rec);
    if spent == [] { assert w.used + spent == w.used; } else { CountSnoc(w.used, spent[0], e); }
  }

  lemma UsedStep(w: World, a: Action)
    requires RxOk(w.rx) && !Seals(a)
    ensures Next(w, a).used == w.used
  {}

  lemma {:induction false} SealCounts(w: World, a: Action, e: nat)
    requires RxOk(w.rx) && Seals(a)
    ensures Count(Next(w, a).used, e) <= Count(w.used, e) + if w.era == e || w.era == e + 1 then 1 else 0
  {
    match a
    case SealOne(maxOut, cipherLen) =>
      if w.tx.written < |w.tx.msgs| {
        match SealNext(w.tx, maxOut, cipherLen)
        case NoProgress =>
        case SealError(tx) => SpentCounts(w, tx, None, e);
        case Progress(rec, _, _) => SpentCounts(w, Moved(SealNext(w.tx, maxOut, cipherLen)), Some(rec), e);
      }
    case WriteOther(typ, payload, maxOut, cipherLen) =>
      if Writable(typ, payload) {
        var (rec, tx) := SealRecord(w.tx, CurrentEpoch, typ, payload, cipherLen, maxOut);
        SpentCounts(w, tx, rec, e);
      }
  }

  lemma {:induction false} CountStep(w: World, a: Action, e: nat)
    requires RxOk(w.rx)
    ensures Count(Next(w, a).used, e) <= Count(w.used, e) + Share(a, w.era, e)
  {
    if Seals(a) { SealCounts(w, a, e); } else { UsedStep(w, a); }
  }

  /** The first step of a run, and what it counts. */
  lemma FirstStep(w: World, actions: seq<Action>, e: nat) returns (next: World)
    requires Inv(w) && actions != []
    ensures Inv(next) && RunFrom(w, actions) == RunFrom(next, actions[1..])
    ensures |next.sent| <= |w.sent| + if actions[0].AddMessage? then 1 else 0
    ensures next.era == w.era + if actions[0].NextWriteEpoch? then 1 else 0
    ensures Count(next.used, e) <= Count(w.used, e) + Share(actions[0], w.era, e)
  {
    next := Next(w, actions[0]);
    NextInv(w, actions[0]);
    SentStep(w, actions[0]);
    EraStep(w, actions[0]);
    CountStep(w, actions[0], e);
  }

  /** Between the two states lie the given steps. */
  ghost predicate Bounded(w: World, after: World, actions: seq<Action>, e: nat) {
    && |after.sent| <= |w.sent| + Adds(actions)
    && after.era == w.era + EpochChanges(actions)
    && Count(after.used, e) <= Count(w.used, e) + SealsFor(actions, w.era, e)
  }

  lemma {:induction false} BoundedMore(w: World, next: World, after: World, actions: seq<Action>, e: nat)
    requires actions != [] && Bounded(next, after, actions[1..], e)
    requires |next.sent| <= |w.sent| + if actions[0].AddMessage? then 1 else 0
    requires next.era == w.era + if actions[0].NextWriteEpoch? then 1 else 0
    requires Count(next.used, e) <= Count(w.used, e) + Share(actions[0], w.era, e)
    ensures Bounded(w, after, actions, e)
  {}

  lemma {:induction false} RunCounts(w: World, actions: seq<Action>, e: nat)
    requires Inv(w)
    ensures Bounded(w, RunFrom(w, actions), actions, e)
    decreases |actions|
  {
    if actions != [] {
      var next := FirstStep(w, actions, e);
      RunCounts(next, actions[1..], e);
      BoundedMore(w, next, RunFrom(next, actions[1..]), actions, e);
    }
  }

  // ---- Delivery ----------------------------------------------------------

  lemma {:induction false} FlattenPrefix(a: seq<bytes>, n: nat)
    requires n <= |a|
    ensures |Flatten(a[..n])| <= |Flatten(a)| && Flatten(a[..n]) == Flatten(a)[..|Flatten(a[..n])|]
  {
    assert a == a[..n] + a[n..];
    FlattenAppend(a[..n], a[n..]);
  }

  /** Delivery safety: whatever is lost, repeated, delayed or reordered, however often
      the flight is retransmitted and recut for other sizes, and however often record
      counters and epochs wrap round, the messages taken are a prefix of those added, byte
      for byte what the sender fed to its transcript. Message numbers are 16 bits, so
      fewer than 2^16 messages may be added. */
  lemma {:induction false} DeliverySafety(cipher: Cipher, maxLen: nat, actions: seq<Action>)
    requires Adds(actions) < TWO_16
    ensures var w := Reached(cipher, maxLen, actions);
      && |w.sent| <= Adds(actions)
      && w.delivered <= w.sent && |w.delivered| == w.rx.readSeq
      && w.tx.transcript == Flatten(w.sent)
      && Flatten(w.delivered) <= w.tx.transcript
  {
    InitInv(cipher, maxLen);
    RunCounts(Init(cipher, maxLen), actions, 0);
    var w := Reached(cipher, maxLen, actions);
    FlattenPrefix(w.sent, w.rx.readSeq);
  }

  /** Each of these messages is what one of the actions asked for, in the same order: its type
      and body behind a header with the message's own number. */
  ghost predicate Asked(sent: seq<bytes>, base: nat, actions: seq<Action>, picks: seq<nat>) {
    && base <= |sent| && |picks| == |sent| - base
    && (forall i, j :: 0 <= i < j < |picks| ==> picks[i] < picks[j])
    && forall i :: 0 <= i < |picks| ==> picks[i] < |actions| && AskedBy(sent[base + i], base + i, actions[picks[i]])
  }

  predicate AskedBy(data: bytes, s: nat, a: Action) {
    a.AddMessage? && data == [a.typ] + Three(|a.body|) + Two(s) + [0, 0, 0] + Three(|a.body|) + a.body
  }

  /** after is before, or before and the message asked for. */
  ghost predicate SentBy(before: seq<bytes>, after: seq<bytes>, a: Action) {
    || after == before
    || (|after| == |before| + 1 && after[..|before|] == before && AskedBy(after[|before|], |before|, a))
  }

  lemma SentOne(w: World, a: Action)
    requires RxOk(w.rx) && w.tx.writeSeq == |w.sent|
    ensures SentBy(w.sent, Next(w, a).sent, a)
  {
    hide RxOk, BuildMessage, Three, Two;
    if a.AddMessage? {
      MessageLayout(a.typ, a.body, w.tx.writeSeq);
    } else {
      OthersSendNone(w, a);
    }
  }

  lemma OthersSendNone(w: World, a: Action)
    requires RxOk(w.rx) && !a.AddMessage?
    ensures Next(w, a).sent == w.sent
  {
    hide RxOk, SealNext, SealRecord, OpenHandshake, GetMessage, NextMessage;
  }

  lemma NextSent(w: World, a: Action) returns (next: World)
    requires Inv(w) && |w.sent| < TWO_16
    ensures Inv(next) && next == Next(w, a) && SentBy(w.sent, next.sent, a)
    ensures |next.sent| <= |w.sent| + if a.AddMessage? then 1 else 0
  {
    next := Next(w, a);
    NextInv(w, a);
    SentStep(w, a);
    assert Honest(w);
    SentOne(w, a);
  }

  /** The picks of a run, from those of the run without its first action. */
  lemma AskedMore(before: seq<bytes>, next: seq<bytes>, after: seq<bytes>, actions: seq<Action>, later: seq<nat>)
      returns (picks: seq<nat>)
    requires actions != [] && next <= after && Asked(after, |next|, actions[1..], later)
    requires SentBy(before, next, actions[0])
    ensures before <= after && Asked(after, |before|, actions, picks)
  {
    hide AskedBy;
    var shifted := seq(|later|, i requires 0 <= i < |later| => later[i] + 1);
    forall i | 0 <= i < |shifted|
      ensures shifted[i] < |actions| && AskedBy(after[|next| + i], |next| + i, actions[shifted[i]])
    {
      assert actions[shifted[i]] == actions[1..][later[i]];
    }
    if next == before {
      picks := shifted;
    } else {
      picks := [0] + shifted;
      AskedFirst(before, next, after, actions, shifted);
    }
  }

  lemma AskedFirst(before: seq<bytes>, next: seq<bytes>, after: seq<bytes>, actions: seq<Action>, shifted: seq<nat>)
    requires actions != [] && next <= after && next != before && SentBy(before, next, actions[0])
    requires |shifted| == |after| - |next|
    requires forall i, j :: 0 <= i < j < |shifted| ==> shifted[i] < shifted[j]
    requires forall i :: 0 <= i < |shifted| ==>
      0 < shifted[i] < |actions| && AskedBy(after[|next| + i], |next| + i, actions[shifted[i]])
    ensures before <= after && Asked(after, |before|, actions, [0] + shifted)
  {
    hide AskedBy;
    var picks := [0] + shifted;
    forall i | 0 <= i < |picks|
      ensures picks[i] < |actions| && AskedBy(after[|before| + i], |before| + i, actions[picks[i]])
    {
      if i > 0 { assert picks[i] == shifted[i - 1] && |next| + (i - 1) == |before| + i; }
    }
  }

  lemma FirstSent(w: World, actions: seq<Action>) returns (next: World)
    requires Inv(w) && actions != [] && |w.sent| + Adds(actions) < TWO_16
    ensures Inv(next) && RunFrom(w, actions) == RunFrom(next, actions[1..])
    ensures |next.sent| + Adds(actions[1..]) < TWO_16
    ensures SentBy(w.sent, next.sent, actions[0])
  {
    hide Inv, SentBy;
    next := NextSent(w, actions[0]);
  }

  lemma {:induction false} SentGrows(w: World, actions: seq<Action>) returns (picks: seq<nat>)
    requires Inv(w) && |w.sent| + Adds(actions) < TWO_16
    ensures w.sent <= RunFrom(w, actions).sent && Asked(RunFrom(w, actions).sent, |w.sent|, actions, picks)
    decreases |actions|
  {
    hide Asked, AskedBy, Inv;
    if actions == [] {
      picks := [];
      NoneAsked(w.sent);
    } else {
      var next := FirstSent(w, actions);
      var later := SentGrows(next, actions[1..]);
      picks := AskedMore(w.sent, next.sent, RunFrom(next, actions[1..]).sent, actions, later);
    }
  }

  lemma NoneAsked(sent: seq<bytes>)
    ensures Asked(sent, |sent|, [], [])
  {}

  /** So what is delivered is what was asked for: message i is the one that the i-th accepted
      request for a message gave the type and the body of. */
  lemma {:induction false} DeliveredWasAdded(cipher: Cipher, maxLen: nat, actions: seq<Action>)
      returns (picks: seq<nat>)
    requires Adds(actions) < TWO_16
    ensures var w := Reached(cipher, maxLen, actions);
      && Asked(w.sent, 0, actions, picks) && |w.delivered| <= |picks|
      && forall i :: 0 <= i < |w.delivered| ==>
           picks[i] < |actions| && AskedBy(w.delivered[i], i, actions[picks[i]])
  {
    InitInv(cipher, maxLen);
    picks := SentGrows(Init(cipher, maxLen), actions);
    DeliverySafety(cipher, maxLen, actions);
    var w := Reached(cipher, maxLen, actions);
    forall i | 0 <= i < |w.delivered| ensures picks[i] < |actions| && AskedBy(w.delivered[i], i, actions[picks[i]]) {
      assert w.delivered[i] == w.sent[0 + i];
    }
  }

  /** And once the next message is whole, it can be taken. */
  lemma {:induction false} WholeIsDelivered(w: World)
    requires Inv(w) && !w.dead && CurrentComplete(w.rx)
    ensures RunFrom(w, [Get, Take]).delivered == w.delivered + [Current(w.rx).value.Raw()]
    ensures RunFrom(w, [Get, Take]).rx.readSeq == (w.rx.readSeq + 1) % TWO_16
  {
    hide Inv, CurrentComplete, Next, Current;
    var got, taken := TakesNext(w);
    RunCons(w, Get, [Take]);
    RunCons(got, Take, []);
    assert [Get] + [Take] == [Get, Take] && [Take] + [] == [Take];
  }

  lemma TakesNext(w: World) returns (got: World, taken: World)
    requires Inv(w) && !w.dead && CurrentComplete(w.rx)
    ensures Inv(got) && Inv(taken) && got == Next(w, Get) && taken == Next(got, Take)
    ensures taken.delivered == w.delivered + [Current(w.rx).value.Raw()]
    ensures taken.rx.readSeq == (w.rx.readSeq + 1) % TWO_16
  {
    hide SenderStep, NumberInv, Honest, EpochInv, Agrees;
    got := Next(w, Get);
    NextInv(w, Get);
    taken := Next(got, Take);
    NextInv(got, Take);
  }

  // ---- ChangeCipherSpec --------------------------------------------------

  predicate TakesCcs(actions: seq<Action>) {
    exists i :: 0 <= i < |actions| && actions[i].TakeCcs?
  }

  lemma SenderApart(w: World, a: Action)
    requires RxOk(w.rx) && !FromReceiver(a)
    ensures Next(w, a).rx == w.rx && Next(w, a).nullCipher == w.nullCipher
  {
    hide RxOk, SealNext, SealRecord, Added;
  }

  lemma CcsKept(w: World, r: Sealed, opens: bool)
    requires RxOk(w.rx) && w.rx.hasCcs
    ensures var w' := ReceiveStep(w, r, opens);
      w'.rx.hasCcs && w'.rx.epoch == w.rx.epoch && w'.nullCipher == w.nullCipher
  {
    hide RxOk, OpenHandshake;
    OpenExactly(w.rx, r.typ, r.payload, w.nullCipher, w.maxLen);
  }

  lemma CcsStays(w: World, a: Action)
    requires RxOk(w.rx) && w.rx.hasCcs && !a.TakeCcs?
    ensures var w' := Next(w, a); w'.rx.hasCcs && w'.rx.epoch == w.rx.epoch && w'.nullCipher == w.nullCipher
  {
    hide RxOk, ReceiveStep, SenderStep;
    if !FromReceiver(a) {
      SenderApart(w, a);
    } else if a.Receive? && a.i < |w.log| {
      CcsKept(w, w.log[a.i], a.opens);
    }
  }

  /** A ChangeCipherSpec that was received stays remembered, and the keys stay as they are,
      until it is taken. */
  lemma {:induction false} KeysWaitForCcs(w: World, actions: seq<Action>)
    requires Inv(w) && w.rx.hasCcs && !TakesCcs(actions)
    ensures var w' := RunFrom(w, actions);
      w'.rx.hasCcs && w'.rx.epoch == w.rx.epoch && w'.nullCipher == w.nullCipher
    decreases |actions|
  {
    if actions != [] {
      var next := CcsFirst(w, actions);
      KeysWaitForCcs(next, actions[1..]);
    }
  }

  lemma CcsFirst(w: World, actions: seq<Action>) returns (next: World)
    requires Inv(w) && w.rx.hasCcs && actions != [] && !TakesCcs(actions)
    ensures Inv(next) && RunFrom(w, actions) == RunFrom(next, actions[1..]) && !TakesCcs(actions[1..])
    ensures next.rx.hasCcs && next.rx.epoch == w.rx.epoch && next.nullCipher == w.nullCipher
  {
    next := Next(w, actions[0]);
    NextInv(w, actions[0]);
    CcsStays(w, actions[0]);
  }

  // ---- Record numbers ----------------------------------------------------

  /** No two numbers taken look the same on the wire. */
  ghost predicate Distinct(used: seq<Use>) {
    forall i, j {:trigger used[i], used[j]} :: 0 <= i < j < |used| ==>
      used[i].era % TWO_16 != used[j].era % TWO_16 || used[i].number != used[j].number
  }

  /** No write state takes more than 2^48 numbers, and no two that share a 16-bit epoch
      take any. */
  ghost predicate WithinBounds(used: seq<Use>) {
    && (forall e: nat {:trigger Count(used, e)} :: Count(used, e) <= TWO_48)
    && forall e: nat, f: nat {:trigger NotBoth(used, e, f)} :: e < f && SameEpoch(e, f) ==> NotBoth(used, e, f)
  }

  /** Write states that share a 16-bit epoch. */
  predicate SameEpoch(e: nat, f: nat) {
    e % TWO_16 == f % TWO_16
  }

  ghost predicate NotBoth(used: seq<Use>, e: nat, f: nat) {
    Count(used, e) == 0 || Count(used, f) == 0
  }

  lemma {:induction false} CountPrefix(used: seq<Use>, i: nat, e: nat)
    requires i < |used|
    ensures Count(used[..i + 1], e) == Count(used[..i], e) + if used[i].era == e then 1 else 0
  {
    assert used[..i + 1] == used[..i] + [used[i]];
    CountSnoc(used[..i], used[i], e);
  }

  lemma {:induction false} CountMono(used: seq<Use>, i: nat, j: nat, e: nat)
    requires i <= j <= |used|
    ensures Count(used[..i], e) <= Count(used[..j], e)
    decreases j
  {
    if i < j {
      CountMono(used, i, j - 1, e);
      CountPrefix(used, j - 1, e);
    }
  }

  /** Where the n-th number of a write state was taken. */
  lemma {:induction false} Nth(used: seq<Use>, e: nat, n: nat) returns (i: nat)
    requires n < Count(used, e)
    ensures i < |used| && used[i].era == e && Count(used[..i], e) == n
    decreases |used|
  {
    var last := |used| - 1;
    if used[last].era == e && Count(used[..last], e) == n {
      i := last;
    } else {
      i := Nth(used[..last], e, n);
      assert used[..last][..i] == used[..i];
    }
  }

  lemma BoundsSuffice(used: seq<Use>, i: nat, j: nat)
    requires Counted(used) && WithinBounds(used) && i < j < |used| && used[i].era % TWO_16 == used[j].era % TWO_16
    ensures used[i].number != used[j].number
  {
    var e, f := used[i].era, used[j].era;
    assert used[..|used|] == used;
    CountPrefix(used, i, e);
    CountPrefix(used, j, f);
    CountMono(used, i + 1, j, e);
    CountMono(used, i + 1, |used|, e);
    CountMono(used, j + 1, |used|, f);
    assert e == f by { assert NotBoth(used, Min(e, f), Max(e, f)) || e == f; }
    SmallMod(Count(used[..i], e));
    SmallMod(Count(used[..j], e));
  }

  lemma SmallMod(n: nat)
    requires n < TWO_48
    ensures n % TWO_48 == n
  {}

  lemma FirstIsZero(used: seq<Use>, e: nat) returns (i: nat)
    requires Counted(used) && Count(used, e) > 0
    ensures i < |used| && used[i].era == e && used[i].number == 0 && Count(used[..i], e) == 0
  {
    i := Nth(used, e, 0);
  }

  lemma AgainZero(used: seq<Use>, e: nat) returns (j: nat)
    requires Counted(used) && Count(used, e) > TWO_48
    ensures j < |used| && used[j].era == e && used[j].number == 0 && Count(used[..j], e) == TWO_48
  {
    j := Nth(used, e, TWO_48);
  }

  lemma {:induction false} NoSecondRound(used: seq<Use>, e: nat)
    requires Counted(used) && Distinct(used)
    ensures Count(used, e) <= TWO_48
  {
    if Count(used, e) > TWO_48 {
      var i := FirstIsZero(used, e);
      var j := AgainZero(used, e);
    }
  }

  lemma NoSecondEpoch(used: seq<Use>, e: nat, f: nat)
    requires Counted(used) && Distinct(used) && e < f && SameEpoch(e, f)
    ensures NotBoth(used, e, f)
  {
    if Count(used, e) > 0 && Count(used, f) > 0 {
      var i := FirstIsZero(used, e);
      var j := FirstIsZero(used, f);
    }
  }

  lemma BoundsNeeded(used: seq<Use>)
    requires Counted(used) && Distinct(used)
    ensures WithinBounds(used)
  {
    forall e: nat ensures Count(used, e) <= TWO_48 { NoSecondRound(used, e); }
    forall e: nat, f: nat {:trigger NotBoth(used, e, f)} | e < f && SameEpoch(e, f)
      ensures NotBoth(used, e, f)
    {
      NoSecondEpoch(used, e, f);
    }
  }

  lemma {:induction false} InLeft(used: seq<Use>, r: Sealed) returns (k: nat)
    requires r in Left(used)
    ensures k < |used| && used[k].sealed == Some(r)
    decreases |used|
  {
    var last := |used| - 1;
    if used[last].sealed == Some(r) { k := last; } else { k := InLeft(used[..last], r); }
  }

  /** Records carry different numbers if the numbers taken are different. */
  lemma {:induction false} LogDistinct(used: seq<Use>, i: nat, j: nat)
    requires Counted(used) && Distinct(used) && i < j < |Left(used)|
    ensures Left(used)[i].epoch != Left(used)[j].epoch || Left(used)[i].number != Left(used)[j].number
    decreases |used|
  {
    var last := |used| - 1;
    var rest := used[..last];
    forall k {:trigger rest[k]} | 0 <= k < |rest| ensures rest[k] == used[k] && rest[..k] == used[..k] {}
    if j < |Left(rest)| {
      LogDistinct(rest, i, j);
    } else {
      var k := InLeft(rest, Left(rest)[i]);
      assert used[k].sealed == Some(Left(used)[i]) && used[last].sealed == Some(Left(used)[j]);
    }
  }

  lemma DistinctExactly(used: seq<Use>)
    requires Counted(used)
    ensures Distinct(used) <==> WithinBounds(used)
  {
    if Distinct(used) { BoundsNeeded(used); }
    if WithinBounds(used) {
      forall i, j {:trigger used[i], used[j]} | 0 <= i < j < |used|
        ensures used[i].era % TWO_16 != used[j].era % TWO_16 || used[i].number != used[j].number
      {
        if used[i].era % TWO_16 == used[j].era % TWO_16 { BoundsSuffice(used, i, j); }
      }
    }
  }

  ghost predicate DistinctRecords(log: seq<Sealed>) {
    forall i, j {:trigger log[i], log[j]} :: 0 <= i < j < |log| ==>
      log[i].epoch != log[j].epoch || log[i].number != log[j].number
  }

  lemma {:induction false} LeftDistinct(used: seq<Use>)
    requires Counted(used) && WithinBounds(used)
    ensures DistinctRecords(Left(used))
  {
    DistinctExactly(used);
    var log := Left(used);
    forall i, j {:trigger log[i], log[j]} | 0 <= i < j < |log|
      ensures log[i].epoch != log[j].epoch || log[i].number != log[j].number
    {
      LogDistinct(used, i, j);
    }
  }

  /** The record numbers a run takes are all different on the wire exactly when no write
      state takes more than 2^48 of them and no 16-bit epoch is taken up again; and then
      no two records that left have the same epoch and number. */
  lemma RecordNumbersExactly(cipher: Cipher, maxLen: nat, actions: seq<Action>)
    ensures var w := Reached(cipher, maxLen, actions);
      && (Distinct(w.used) <==> WithinBounds(w.used))
      && (WithinBounds(w.used) ==> DistinctRecords(w.log))
  {
    var w := Reached(cipher, maxLen, actions);
    DistinctExactly(w.used);
    if WithinBounds(w.used) { LeftDistinct(w.used); }
  }

  lemma {:induction false} BoundsFromCounts(used: seq<Use>, era: nat)
    requires era < TWO_16 && forall i {:trigger used[i]} :: 0 <= i < |used| ==> used[i].era <= era
    requires forall e: nat {:trigger Count(used, e)} :: Count(used, e) <= TWO_48
    ensures WithinBounds(used)
  {
    forall e: nat, f: nat {:trigger NotBoth(used, e, f)} | e < f && SameEpoch(e, f)
      ensures NotBoth(used, e, f)
    {
      LateEpoch(e, f);
      NoneOfLater(used, era, f);
    }
  }

  /** No two records of a run have the same epoch and number, although sealing moves between
      two epochs, retransmits, and repeats packets after failed writes: it is enough that
      the write state changes fewer than 2^16 times, and that there are at most 2^48
      sealing steps in which a write state is the present or the previous one. */
  lemma {:induction false} RecordNumbersUnique(cipher: Cipher, maxLen: nat, actions: seq<Action>)
    requires EpochChanges(actions) < TWO_16
    requires forall e: nat :: SealsFor(actions, 0, e) <= TWO_48
    ensures DistinctRecords(Reached(cipher, maxLen, actions).log)
  {
    var used := Reached(cipher, maxLen, actions).used;
    InitInv(cipher, maxLen);
    RunCounts(Init(cipher, maxLen), actions, 0);
    forall e: nat {:trigger Count(used, e)} ensures Count(used, e) <= TWO_48 {
      RunCounts(Init(cipher, maxLen), actions, e);
    }
    BoundsFromCounts(used, Reached(cipher, maxLen, actions).era);
    LeftDistinct(used);
  }

  lemma LateEpoch(e: nat, f: nat)
    requires e < f && SameEpoch(e, f)
    ensures f >= TWO_16
  {}

  function Repeat(a: Action, n: nat): seq<Action> {
    if n == 0 then [] else [a] + Repeat(a, n - 1)
  }

  const SENT_LENGTH: nat := RT_HEADER_LENGTH + 17

  /** One byte of application data, under a cipher that adds sixteen. */
  function Send(): Action {
    WriteOther(RT_APP_DATA, [0], SENT_LENGTH, Some(17))
  }

  /** The record that makes. */
  function SentRecord(epoch: nat, number: nat): Sealed {
    Sealed(RT_APP_DATA, epoch, number, [0], SENT_LENGTH)
  }

  /** The run is n times the same step. */
  ghost predicate Repeats(actions: seq<Action>, n: nat) {
    |actions| == n && (n > 0 ==> actions[0] == Send() && Repeats(actions[1..], n - 1))
  }

  lemma {:induction false} RepeatRepeats(n: nat)
    ensures Repeats(Repeat(Send(), n), n)
    decreases n
  {
    if n > 0 {
      RepeatRepeats(n - 1);
      assert Repeat(Send(), n)[1..] == Repeat(Send(), n - 1);
    }
  }

  /** Sending one record, with the counter below its last value. */
  lemma SendsOne(w: World)
    requires RxOk(w.rx) && w.tx.cur + 1 < TWO_48
    ensures Next(w, Send()).tx == w.tx.(cur := w.tx.cur + 1)
    ensures Next(w, Send()).log == w.log + [SentRecord(w.tx.epoch, w.tx.cur)]
  {
    var bumped := Bumped(w.tx, CurrentEpoch);
    assert bumped == w.tx.(cur := w.tx.cur + 1);
    assert SealRecord(w.tx, CurrentEpoch, RT_APP_DATA, [0], Some(17), SENT_LENGTH)
      == (Some(SentRecord(w.tx.epoch, w.tx.cur)), bumped);
  }

  lemma SendsFirst(w: World, actions: seq<Action>, n: nat) returns (next: World)
    requires Inv(w) && w.tx.cur + 1 < TWO_48 && n > 0 && Repeats(actions, n)
    ensures Inv(next) && RunFrom(w, actions) == RunFrom(next, actions[1..])
    ensures next.tx.cur == w.tx.cur + 1 && next.tx.epoch == w.tx.epoch
    ensures next.log == w.log + [SentRecord(w.tx.epoch, w.tx.cur)]
  {
    SendsOne(w);
    NextInv(w, Send());
    next := Next(w, Send());
  }

  /** The records between the two logs are n, numbered from the counter on. */
  ghost predicate SentRecords(before: World, after: World, n: nat) {
    && after.tx.cur == before.tx.cur + n && after.tx.epoch == before.tx.epoch
    && |after.log| == |before.log| + n && before.log <= after.log
    && (n > 0 ==> after.log[|before.log|] == SentRecord(before.tx.epoch, before.tx.cur))
  }

  lemma SentMore(w: World, next: World, after: World, n: nat)
    requires next.tx.cur == w.tx.cur + 1 && next.tx.epoch == w.tx.epoch && SentRecords(next, after, n)
    requires next.log == w.log + [SentRecord(w.tx.epoch, w.tx.cur)]
    ensures SentRecords(w, after, n + 1)
  {}

  lemma {:induction false} Sends(w: World, actions: seq<Action>, n: nat)
    requires Inv(w) && w.tx.cur + n < TWO_48 && Repeats(actions, n)
    ensures SentRecords(w, RunFrom(w, actions), n)
    decreases n
  {
    if n > 0 {
      var next := SendsFirst(w, actions, n);
      Sends(next, actions[1..], n - 1);
      SentMore(w, next, RunFrom(next, actions[1..]), n - 1);
    }
  }

  lemma SplitFirst(a: seq<Action>, b: seq<Action>)
    requires a != []
    ensures a + b != [] && (a + b)[0] == a[0] && (a + b)[1..] == a[1..] + b
  {}

  lemma {:induction false} RunAppend(w: World, a: seq<Action>, b: seq<Action>)
    requires Inv(w)
    ensures RunFrom(w, a + b) == RunFrom(RunFrom(w, a), b)
    decreases |a|
  {
    if a == [] {
      assert a + b == b;
    } else {
      SplitFirst(a, b);
      NextInv(w, a[0]);
      RunAppend(Next(w, a[0]), a[1..], b);
    }
  }

  /** The bound is reached and needed: after the handshake's change of keys, 2^48 records of
      that epoch and one more, the first and the last record that left have the same epoch
      and number. Sealing the record with number 2^48 - 1 fails, but leaves the counter
      at zero. */
  lemma NumbersRepeat(cipher: Cipher, next: Cipher, maxLen: nat, n: nat)
    requires n == TWO_48
    ensures var w := Reached(cipher, maxLen, [NextWriteEpoch(next)] + Repeat(Send(), n - 1) + [Send(), Send()]);
      |w.log| == n && w.log[0] == w.log[n - 1] == SentRecord(1, 0)
  {
    hide RunFrom;
    var many := Repeat(Send(), n - 1);
    RepeatRepeats(n - 1);
    var keyed := KeysChange(cipher, next, maxLen, many + [Send(), Send()]);
    Sends(keyed, many, n - 1);
    RunAppend(keyed, many, [Send(), Send()]);
    var w := RunFrom(keyed, many);
    SendsTwo(w);
    FirstAndLast(w.log, n - 1);
    Rejoin(NextWriteEpoch(next), many, [Send(), Send()]);
  }

  /** A run that begins with the handshake's change of keys. */
  lemma KeysChange(cipher: Cipher, next: Cipher, maxLen: nat, rest: seq<Action>)
      returns (keyed: World)
    ensures Inv(keyed) && keyed.tx.epoch == 1 && keyed.tx.cur == 0 && keyed.log == []
    ensures Reached(cipher, maxLen, [NextWriteEpoch(next)] + rest) == RunFrom(keyed, rest)
  {
    hide Inv, RunFrom;
    keyed := FirstKeys(cipher, next, maxLen);
    RunCons(Init(cipher, maxLen), NextWriteEpoch(next), rest);
  }

  lemma FirstKeys(cipher: Cipher, next: Cipher, maxLen: nat) returns (keyed: World)
    ensures Inv(Init(cipher, maxLen)) && keyed == Next(Init(cipher, maxLen), NextWriteEpoch(next))
    ensures Inv(keyed) && keyed.tx.epoch == 1 && keyed.tx.cur == 0 && keyed.log == []
  {
    InitInv(cipher, maxLen);
    NextInv(Init(cipher, maxLen), NextWriteEpoch(next));
    keyed := Next(Init(cipher, maxLen), NextWriteEpoch(next));
  }

  lemma {:induction false} RunCons(w: World, a: Action, rest: seq<Action>)
    requires Inv(w) && Inv(Next(w, a))
    ensures RunFrom(w, [a] + rest) == RunFrom(Next(w, a), rest)
  {
    assert ([a] + rest)[1..] == rest;
  }

  lemma Rejoin(a: Action, b: seq<Action>, c: seq<Action>)
    ensures [a] + b + c == [a] + (b + c)
  {}

  lemma FirstAndLast(log: seq<Sealed>, n: nat)
    requires |log| == n && n > 0 && log[0] == SentRecord(1, 0)
    ensures var more := log + [SentRecord(1, 0)]; |more| == n + 1 && more[0] == more[n] == SentRecord(1, 0)
  {}

  /** At the last number the first record fails and the second one begins again at zero. */
  lemma {:induction false} SendsTwo(w: World)
    requires Inv(w) && w.tx.cur == TWO_48 - 1
    ensures RunFrom(w, [Send(), Send()]).log
      == w.log + [SentRecord(w.tx.epoch, 0)]
  {
    WrapsAtLast(w);
    NextInv(w, Send());
    var w1 := Next(w, Send());
    SendsOne(w1);
    NextInv(w1, Send());
    assert [Send(), Send()][1..] == [Send()] && [Send()][1..] == [];
    assert RunFrom(w, [Send(), Send()]) == RunFrom(w1, [Send()]) == RunFrom(Next(w1, Send()), []);
  }

  lemma WrapsAtLast(w: World)
    requires RxOk(w.rx) && w.tx.cur == TWO_48 - 1
    ensures Next(w, Send()).tx == w.tx.(cur := 0) && Next(w, Send()).log == w.log
  {
    assert SealRecord(w.tx, CurrentEpoch, RT_APP_DATA, [0], Some(17), SENT_LENGTH) == (None, w.tx.(cur := 0));
  }

  // ---- A pass of the flight as steps of the run --------------------------

  function ActionOf(k: Stroke): Action {
    match k
    case Begin => BeginPacket
    case Cut(maxOut, cipherLen) => SealOne(maxOut, cipherLen)
    case Back => WriteFails
    case Finish => Flush
    case Restart => Rewind
  }

  function ActionsOf(ks: seq<Stroke>): seq<Action> {
    if ks == [] then [] else [ActionOf(ks[0])] + ActionsOf(ks[1..])
  }

  function SendingOf(w: World): Sending {
    Sending(w.tx, w.savedAt, w.log)
  }

  lemma StrokeIsAction(w: World, k: Stroke)
    requires Inv(w)
    ensures var w', s := Next(w, ActionOf(k)), Stroked(SendingOf(w), k);
      w' == w.(tx := s.tx, savedAt := s.saved, log := s.out, used := w'.used)
  {
    hide Inv, RxOk, SealNext, SealStep;
    if k.Cut? && w.tx.written < |w.tx.msgs| { CutIsAction(w, k.maxOut, k.cipherLen); }
  }

  lemma CutIsAction(w: World, maxOut: nat, cipherLen: Option<nat>)
    requires w.tx.written < |w.tx.msgs|
    ensures var w', s := SealStep(w, maxOut, cipherLen), Stroked(SendingOf(w), Cut(maxOut, cipherLen));
      w' == w.(tx := s.tx, log := s.out, used := w'.used) && s.saved == w.savedAt
  {
    match SealNext(w.tx, maxOut, cipherLen)
    case NoProgress =>
    case SealError(tx) => assert Spend(w, tx, None) == w.(tx := tx, used := Spend(w, tx, None).used);
    case Progress(rec, _, _) =>
  }

  /** What send_flight, dtls1_flush_flight or dtls1_retransmit_outgoing_messages did to a
      sender, from any state of a run, the run can do in as many steps: the same sender,
      and the same records in the log, those sent first. */
  lemma {:induction false} PassIsRun(w: World, result: FlightResult, sent: seq<seq<Sealed>>, lost: seq<Sealed>,
                                     ks: seq<Stroke>, to: Sending)
    requires Inv(w) && Went(SendingOf(w), ks, to) && OutFlown(w.log, to.out, result, sent, lost)
    ensures var w' := RunFrom(w, ActionsOf(ks));
      && w' == w.(tx := to.tx, savedAt := to.saved, log := to.out, used := w'.used)
      && w.log + Records(sent) + lost <= w'.log
  {
    var _ := StrokesRun(w, ks);
  }

  lemma {:induction false} StrokesRun(w: World, ks: seq<Stroke>) returns (w': World)
    requires Inv(w)
    ensures RunFrom(w, ActionsOf(ks)) == w'
    ensures var s := StrokedAll(SendingOf(w), ks);
      w' == w.(tx := s.tx, savedAt := s.saved, log := s.out, used := w'.used)
    decreases |ks|
  {
    if ks == [] {
      w' := w;
    } else {
      var next := OneStep(w, ks[0]);
      w' := StrokesRun(next, ks[1..]);
      RunCons(w, ActionOf(ks[0]), ActionsOf(ks[1..]));
    }
  }

  lemma OneStep(w: World, k: Stroke) returns (next: World)
    requires Inv(w)
    ensures next == Next(w, ActionOf(k)) && Inv(next) && SendingOf(next) == Stroked(SendingOf(w), k)
    ensures next == w.(tx := next.tx, savedAt := next.savedAt, log := next.log, used := next.used)
  {
    next := Next(w, ActionOf(k));
    NextInv(w, ActionOf(k));
    StrokeIsAction(w, k);
  }

  // ---- Acceptance --------------------------------------------------------

  /** In every reachable state the window is exact: an accepted record is new, and is
      remembered; a discarded one changes nothing. */
  lemma AcceptedOnce(cipher: Cipher, maxLen: nat, actions: seq<Action>, r: Sealed, opens: bool)
    ensures var w := Reached(cipher, maxLen, actions);
      var n := SequenceNumber(r.epoch, r.number);
      && Agrees(w.window, w.accepted)
      && (Accept(w, r, opens).Some? <==>
           r.epoch == w.rx.epoch && opens && n !in w.accepted && n + 64 > w.window.maxSeq)
      && (Accept(w, r, opens).Some? ==> n in Accept(w, r, opens).value.accepted)
      && (Accept(w, r, opens).None? ==> ReceiveStep(w, r, opens) == w)
  {
    var w := Reached(cipher, maxLen, actions);
    DiscardExact(w.window, w.accepted, SequenceNumber(r.epoch, r.number));
  }

  /** What a record that arrives does in every reachable state: one that is old, known, of another
      epoch or does not open, nothing; one too long ends the connection; any other is
      remembered, and is given to the handshake unless it is an alert. */
  lemma ReceivedExactly(w: World, i: nat, opens: bool)
    requires Inv(w) && !w.dead && i < |w.log|
    ensures var r, w' := w.log[i], Next(w, Receive(i, opens));
      var n := SequenceNumber(r.epoch, r.number);
      if !(opens && r.epoch == w.rx.epoch && n !in w.accepted && n + 64 > w.window.maxSeq) then w' == w
      else if |r.payload| > 16384 then w' == w.(dead := true)
      else
        var v := OpenHandshake(w.rx, r.typ, r.payload, w.nullCipher, w.maxLen);
        && w'.accepted == w.accepted + {n}
        && w'.rx == (if r.typ == 21 then w.rx else v.rx) && w'.dead == (r.typ != 21 && v.Bad?)
  {
    hide RxOk, OpenHandshake, NumberInv, Honest, EpochInv, Record;
    DiscardExact(w.window, w.accepted, SequenceNumber(w.log[i].epoch, w.log[i].number));
  }

  /** What the caller's requests do to the flight: a message of up to 2^24 - 1 bytes is added
      exactly if there is room for it; only a complete flight can be answered, and only an
      answered one is dropped in the end. */
  lemma RequestsExactly(w: World, typ: byte, body: bytes)
    requires Inv(w) && |w.sent| < TWO_16
    ensures var w' := Next(w, AddMessage(typ, body));
      if |body| < 0x100_0000 && (w.tx.complete || |w.tx.msgs| < 7)
      then |w'.sent| == |w.sent| + 1 && AskedBy(w'.sent[|w.sent|], |w.sent|, AddMessage(typ, body))
      else w'.sent == w.sent
    ensures Next(w, Replied).tx == w.tx.(hasReply := w.tx.hasReply || w.tx.complete)
    ensures Next(w, HandshakeDone).tx
      == if w.tx.hasReply then w.tx.(msgs := [], written := 0, offset := 0, complete := false, hasReply := false)
         else w.tx
  {
    hide RxOk, NumberInv, EpochInv, Agrees, AskedBy, Next;
    assert w.tx.writeSeq == |w.sent| by { assert Honest(w); }
    AddsExactly(w, typ, body);
    AnswersExactly(w);
  }

  lemma AddsExactly(w: World, typ: byte, body: bytes)
    requires RxOk(w.rx) && w.tx.writeSeq == |w.sent|
    ensures var w' := Next(w, AddMessage(typ, body));
      if |body| < 0x100_0000 && (w.tx.complete || |w.tx.msgs| < 7)
      then |w'.sent| == |w.sent| + 1 && AskedBy(w'.sent[|w.sent|], |w.sent|, AddMessage(typ, body))
      else w'.sent == w.sent
  {
    hide RxOk, BuildMessage, Added, Three, Two;
    var data := BuildMessage(typ, body, w.tx.writeSeq);
    MessageLayout(typ, body, w.tx.writeSeq);
    AddedExactly(w.tx, false, data);
    assert |data| == 12 + |body| by { MessageLength(typ, body, w.tx.writeSeq); }
  }

  lemma MessageLength(typ: byte, body: bytes, writeSeq: nat)
    ensures |BuildMessage(typ, body, writeSeq)| == 12 + |body|
  {}

  lemma AnswersExactly(w: World)
    requires RxOk(w.rx)
    ensures Next(w, Replied).tx == w.tx.(hasReply := w.tx.hasReply || w.tx.complete)
    ensures Next(w, HandshakeDone).tx
      == if w.tx.hasReply then w.tx.(msgs := [], written := 0, offset := 0, complete := false, hasReply := false)
         else w.tx
  {
    hide RxOk;
  }

  /** A message handed out for the first time, even an empty one, was made and filled in the
      present read epoch only; and occupied slots always hold messages of the window. */
  lemma NewMessageOneEpoch(cipher: Cipher, maxLen: nat, actions: seq<Action>)
    ensures var w := Reached(cipher, maxLen, actions);
      && RxOk(w.rx)
      && (!w.rx.hasMessage && GetMessage(w.rx).0.Some? ==>
           && GetMessage(w.rx).0.value.epochs == {w.rx.epoch}
           && GetMessage(w.rx).0.value.seqNum == w.rx.readSeq)
  {
    var w := Reached(cipher, maxLen, actions);
    if !w.rx.hasMessage && GetMessage(w.rx).0.Some? {
      assert w.rx.slots[w.rx.readSeq % N].Some?;
      SlotNumber(w.rx, w.rx.readSeq);
    }
  }
}
