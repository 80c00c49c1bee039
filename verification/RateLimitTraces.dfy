/** What the limiter guarantees over whole traces of requests on one key. */
module RateLimitTraces {
  import opened Wrappers
  import opened RateLimit

  function After(w: int, block: int, reqs: seq<Request>): Slot {
    if reqs == [] then None
    else Step(w, block, After(w, block, reqs[..|reqs| - 1]), reqs[|reqs| - 1]).0
  }

  /** The decision on the last request of a trace. */
  function LastDecision(w: int, block: int, reqs: seq<Request>): Decision
    requires reqs != []
  {
    Step(w, block, After(w, block, reqs[..|reqs| - 1]), reqs[|reqs| - 1]).1
  }

  /** How many requests in the closed interval from lo to hi were admitted. */
  function AdmittedIn(w: int, block: int, reqs: seq<Request>, lo: int, hi: int): nat {
    if reqs == [] then 0
    else
      AdmittedIn(w, block, reqs[..|reqs| - 1], lo, hi)
      + (if lo <= reqs[|reqs| - 1].now <= hi && LastDecision(w, block, reqs).Admitted? then 1 else 0)
  }

  function RequestsIn(reqs: seq<Request>, lo: int, hi: int): nat {
    if reqs == [] then 0
    else RequestsIn(reqs[..|reqs| - 1], lo, hi) + (if lo <= reqs[|reqs| - 1].now <= hi then 1 else 0)
  }

  predicate Chronological(reqs: seq<Request>) {
    forall i, j :: 0 <= i < j < |reqs| ==> reqs[i].now <= reqs[j].now
  }

  function Last(reqs: seq<Request>): int
    requires reqs != []
  {
    reqs[|reqs| - 1].now
  }

  predicate LimitsAtMost(reqs: seq<Request>, max: int) {
    forall r :: r in reqs ==> r.limit <= max
  }

  predicate LimitsAtLeast(reqs: seq<Request>, min: int) {
    forall r :: r in reqs ==> r.limit >= min
  }

  // ----- at most twice the limit

  function Min(a: int, b: int): int { if a < b then a else b }

  /** Two windows of admissions, less the one that cannot fall into the same interval. */
  function Bound(w: int, block: int, max: int): int {
    if block == w && block != 0 then 2 * max else 2 * max - 1
  }

  /** The stored entry outlives its window, and both times are later than `seen`. */
  ghost predicate Covers(w: int, block: int, slot: Slot, last: int) {
    slot.Some? ==>
      var Entry(d, expires) := slot.value;
      && d.count >= 1 && d.firstRequest <= last
      && (expires.Some? ==> expires.value >= d.firstRequest + w)
      && (expires.Some? && !(block == w && block != 0) ==> expires.value > d.firstRequest + w)
  }

  /**
   * The account for the interval that starts at a: its admissions belong to the
   * current window, or to it and one earlier window, or lie all in the past.
   */
  ghost predicate Account(w: int, block: int, max: int, slot: Slot, a: int, n: nat, last: int) {
    if slot.None? then n == 0
    else
      var Entry(d, expires) := slot.value;
      var current := Min(d.count, max);
      || (&& n <= current
          && (d.firstRequest < a ==> n < current || n == 0)
          && (n > 0 ==> last >= a && d.firstRequest + w >= a && (expires.Some? ==> expires.value > a)))
      || (n <= Bound(w, block, max) - max + current && d.firstRequest > a)
      || (n <= Bound(w, block, max) && d.firstRequest > a + w)
  }

  lemma StepAccount(w: int, block: int, max: int, slot: Slot, r: Request, a: int, n: nat, last: int)
    requires w >= 0 && (block == 0 || block >= w) && max >= 1 && r.limit <= max && last <= r.now
    requires Covers(w, block, slot, last) && Account(w, block, max, slot, a, n, last)
    ensures var (slot', d) := Step(w, block, slot, r);
            && Covers(w, block, slot', r.now)
            && Account(w, block, max, slot', a, n + (if a <= r.now <= a + w && d.Admitted? then 1 else 0), r.now)
  {
  }

  lemma {:induction false} TraceAccount(w: int, block: int, max: int, reqs: seq<Request>, a: int)
    requires w >= 0 && (block == 0 || block >= w) && max >= 1
    requires Chronological(reqs) && LimitsAtMost(reqs, max)
    ensures reqs != [] ==> Covers(w, block, After(w, block, reqs), Last(reqs))
    ensures reqs != [] ==>
              Account(w, block, max, After(w, block, reqs), a, AdmittedIn(w, block, reqs, a, a + w), Last(reqs))
  {
    if reqs != [] {
      var before, r := reqs[..|reqs| - 1], reqs[|reqs| - 1];
      TraceAccount(w, block, max, before, a);
      StepAccount(w, block, max, After(w, block, before), r, a, AdmittedIn(w, block, before, a, a + w),
                  if before == [] then r.now else Last(before));
    }
  }

  /** No closed interval one window long ever admits more than the bound, whatever limits each request had. */
  lemma AdmissionsBounded(w: int, block: int, max: int, reqs: seq<Request>, a: int)
    requires w >= 0 && (block == 0 || block >= w) && max >= 1
    requires Chronological(reqs) && LimitsAtMost(reqs, max)
    ensures AdmittedIn(w, block, reqs, a, a + w) <= Bound(w, block, max)
  {
    TraceAccount(w, block, max, reqs, a);
  }

  lemma TraceExtends(w: int, block: int, reqs: seq<Request>, r: Request, lo: int, hi: int)
    ensures var (slot, d) := Step(w, block, After(w, block, reqs), r);
            && After(w, block, reqs + [r]) == slot && LastDecision(w, block, reqs + [r]) == d
            && AdmittedIn(w, block, reqs + [r], lo, hi)
                 == AdmittedIn(w, block, reqs, lo, hi) + (if lo <= r.now <= hi && d.Admitted? then 1 else 0)
  {
    assert (reqs + [r])[..|reqs|] == reqs;
  }

  /** Whatever the reputation of each caller, the options of the limiter bound what it admits. */
  lemma OptionsBoundAdmissions(o: Options, calls: seq<(int, IpVerdict)>, reqs: seq<Request>, a: int)
    requires o.max >= 1 && o.window >= 0
    requires o.suspiciousMultiplier.Some? ==> o.suspiciousMultiplier.value <= 1.0
    requires BlockMs(o) == 0 || BlockMs(o) >= o.window
    requires |calls| == |reqs| && Chronological(reqs)
    requires forall i :: 0 <= i < |reqs| ==> reqs[i] == Request(calls[i].0, Limit(o, calls[i].1))
    ensures AdmittedIn(o.window, BlockMs(o), reqs, a, a + o.window) <= 2 * o.max
    ensures o.blockDuration.None? ==> AdmittedIn(o.window, BlockMs(o), reqs, a, a + o.window) <= 2 * o.max - 1
  {
    forall r | r in reqs ensures r.limit <= o.max {
      var i :| 0 <= i < |reqs| && reqs[i] == r;
      LimitBounds(o, calls[i].1);
    }
    AdmissionsBounded(o.window, BlockMs(o), o.max, reqs, a);
  }

  /** Bots alone: in any window at most a fifth of what the options allow, or two requests. */
  lemma BotAdmissions(o: Options, calls: seq<(int, IpVerdict)>, reqs: seq<Request>, a: int)
    requires o.max >= 1 && o.window >= 0 && o.ipAdjustment
    requires BlockMs(o) == 0 || BlockMs(o) >= o.window
    requires |calls| == |reqs| && Chronological(reqs)
    requires forall i :: 0 <= i < |calls| ==> calls[i].1 == Infrastructure(true)
    requires forall i :: 0 <= i < |reqs| ==> reqs[i] == Request(calls[i].0, Limit(o, calls[i].1))
    ensures var n := AdmittedIn(o.window, BlockMs(o), reqs, a, a + o.window);
            n <= 2 || 5 * n <= o.max
  {
    LimitShares(o);
    hide Limit;
    var limit := Limit(o, Infrastructure(true));
    forall r | r in reqs ensures r.limit <= limit {
      var i :| 0 <= i < |reqs| && reqs[i] == r;
    }
    AdmissionsBounded(o.window, BlockMs(o), limit, reqs, a);
  }

  // ----- the bound is sharp, and a block shorter than the window loses it

  /** An unblocked window that began at `first` with `count` requests so far. */
  ghost predicate OpenWindow(w: int, slot: Slot, first: int, count: int) {
    slot.Some? && slot.value.value == Data(count, first, None)
    && slot.value.expires.Some? && slot.value.expires.value > first + w
  }

  ghost predicate Sees(w: int, slot: Slot, now: int, first: int, count: int) {
    if count == 0 then Current(w, slot, now).None? && first == now
    else OpenWindow(w, slot, first, count) && first <= now <= first + w
  }

  ghost predicate Trace(reqs: seq<Request>, max: int, last: int) {
    Chronological(reqs) && LimitsAtMost(reqs, max) && (reqs != [] ==> Last(reqs) <= last)
  }

  lemma AdmitOne(w: int, slot: Slot, block: int, r: Request, first: int, count: nat)
    requires w >= 0 && Sees(w, slot, r.now, first, count) && count + 1 <= r.limit
    ensures Step(w, block, slot, r).1 == Admitted
    ensures OpenWindow(w, Step(w, block, slot, r).0, first, count + 1)
  {
  }

  lemma TraceSnoc(reqs: seq<Request>, r: Request, max: int)
    requires Trace(reqs, max, r.now) && r.limit <= max
    ensures Trace(reqs + [r], max, r.now)
  {
  }

  /** n requests at one instant are all admitted while the limit has room. */
  lemma Burst(w: int, block: int, reqs: seq<Request>, n: nat, r: Request, first: int, count: nat, lo: int, hi: int)
    returns (reqs': seq<Request>)
    requires w >= 0 && n >= 1 && count + n <= r.limit && Sees(w, After(w, block, reqs), r.now, first, count)
    requires Trace(reqs, r.limit, r.now)
    ensures Trace(reqs', r.limit, r.now)
    ensures OpenWindow(w, After(w, block, reqs'), first, count + n)
    ensures AdmittedIn(w, block, reqs', lo, hi)
         == AdmittedIn(w, block, reqs, lo, hi) + (if lo <= r.now <= hi then n else 0)
  {
    reqs' := reqs;
    for i := 0 to n
      invariant Trace(reqs', r.limit, r.now)
      invariant if i == 0 then reqs' == reqs else OpenWindow(w, After(w, block, reqs'), first, count + i)
      invariant AdmittedIn(w, block, reqs', lo, hi)
             == AdmittedIn(w, block, reqs, lo, hi) + (if lo <= r.now <= hi then i else 0)
    {
      assert first <= r.now <= first + w;
      AdmitOne(w, After(w, block, reqs'), block, r, first, count + i);
      TraceExtends(w, block, reqs', r, lo, hi);
      TraceSnoc(reqs', r, r.limit);
      reqs' := reqs' + [r];
    }
  }

  /** One request too many closes the window until the block ends. */
  lemma Overflow(w: int, block: int, reqs: seq<Request>, r: Request, first: int, lo: int, hi: int)
    requires block > 0 && OpenWindow(w, After(w, block, reqs), first, r.limit) && first <= r.now <= first + w
    requires Trace(reqs, r.limit, r.now)
    ensures Trace(reqs + [r], r.limit, r.now)
    ensures forall now :: now >= r.now + block ==> Current(w, After(w, block, reqs + [r]), now).None?
    ensures AdmittedIn(w, block, reqs + [r], lo, hi) == AdmittedIn(w, block, reqs, lo, hi)
  {
    TraceExtends(w, block, reqs, r, lo, hi);
    TraceSnoc(reqs, r, r.limit);
  }

  /** A block of just one window lets two full windows touch. */
  lemma TwiceAttained(w: int, max: int) returns (reqs: seq<Request>)
    requires w >= 1 && max >= 1
    ensures Chronological(reqs) && LimitsAtMost(reqs, max) && AdmittedIn(w, w, reqs, 0, w) == 2 * max
  {
    var r := Request(0, max);
    reqs := Burst(w, w, [], max, r, 0, 0, 0, w);
    Overflow(w, w, reqs, r, 0, 0, w);
    reqs := reqs + [r];
    reqs := Burst(w, w, reqs, max, Request(w, max), w, 0, 0, w);
  }

  lemma LateBurst(w: int, block: int, max: int) returns (reqs: seq<Request>)
    requires w >= 1 && max >= 1
    ensures Trace(reqs, max, w) && OpenWindow(w, After(w, block, reqs), 0, max)
    ensures AdmittedIn(w, block, reqs, w, 2 * w) == max - 1
  {
    reqs := Burst(w, block, [], 1, Request(0, max), 0, 0, w, 2 * w);
    if max > 1 {
      reqs := Burst(w, block, reqs, max - 1, Request(w, max), 0, 1, w, 2 * w);
    }
  }

  /** Some trace admits exactly the bound within one closed interval. */
  lemma BoundAttained(w: int, block: int, max: int) returns (reqs: seq<Request>, a: int)
    requires w >= 1 && (block == 0 || block >= w) && max >= 1
    ensures Chronological(reqs) && LimitsAtMost(reqs, max)
    ensures AdmittedIn(w, block, reqs, a, a + w) == Bound(w, block, max)
  {
    hide Chronological, LimitsAtMost, AdmittedIn, After, OpenWindow;
    if block == w {
      a := 0;
      reqs := TwiceAttained(w, max);
    } else {
      a := w;
      reqs := LateBurst(w, block, max);
      reqs := Burst(w, block, reqs, max, Request(w + 1, max), w + 1, 0, w, 2 * w);
    }
  }

  ghost predicate NeverOverTwice(w: int, block: int) {
    forall max, reqs, a ::
      max >= 1 && Chronological(reqs) && LimitsAtMost(reqs, max) ==> AdmittedFrom(w, block, reqs, a) <= 2 * max
  }

  function AdmittedFrom(w: int, block: int, reqs: seq<Request>, a: int): nat {
    AdmittedIn(w, block, reqs, a, a + w)
  }

  /** Five admissions in one window under a limit of two. */
  lemma ShortBlockOverrun(w: int, block: int) returns (reqs: seq<Request>)
    requires 0 < block < w
    ensures Chronological(reqs) && LimitsAtMost(reqs, 2) && AdmittedFrom(w, block, reqs, w) == 5
  {
    hide Chronological, LimitsAtMost, AdmittedIn;
    reqs := LateBurst(w, block, 2);
    reqs := Burst(w, block, reqs, 2, Request(w + 1, 2), w + 1, 0, w, 2 * w);
    Overflow(w, block, reqs, Request(w + 1, 2), w + 1, w, 2 * w);
    reqs := Burst(w, block, reqs + [Request(w + 1, 2)], 2, Request(w + 1 + block, 2), w + 1 + block, 0, w, 2 * w);
  }

  /** Twice the limit holds of every trace exactly when there is no block time or it spans the window. */
  lemma TwiceTheLimitExactlyWhen(w: int, block: int)
    requires w >= 0 && block >= 0
    ensures NeverOverTwice(w, block) <==> block == 0 || block >= w
  {
    if block == 0 || block >= w {
      forall max, reqs, a | max >= 1 && Chronological(reqs) && LimitsAtMost(reqs, max)
        ensures AdmittedFrom(w, block, reqs, a) <= 2 * max
      {
        AdmissionsBounded(w, block, max, reqs, a);
      }
    } else {
      var reqs := ShortBlockOverrun(w, block);
      assert AdmittedFrom(w, block, reqs, w) > 2 * 2;
    }
  }

  // ----- a modest caller is never refused

  /** No closed interval one window long holds more than n requests. */
  ghost predicate Modest(w: int, reqs: seq<Request>, n: int) {
    forall a :: RequestsFrom(w, reqs, a) <= n
  }

  function RequestsFrom(w: int, reqs: seq<Request>, a: int): nat {
    RequestsIn(reqs, a, a + w)
  }

  lemma {:induction false} ModestNeverRefused(w: int, block: int, reqs: seq<Request>, least: int)
    requires w >= 0 && Chronological(reqs) && LimitsAtLeast(reqs, least) && Modest(w, reqs, least)
    ensures reqs != [] ==> LastDecision(w, block, reqs).Admitted?
    ensures match After(w, block, reqs)
            case None => reqs == []
            case Some(e) =>
              reqs != [] && e.value.blockExpiry.None? && e.value.firstRequest <= Last(reqs)
              && e.value.count <= RequestsFrom(w, reqs, e.value.firstRequest)
  {
    if reqs != [] {
      var before, r := reqs[..|reqs| - 1], reqs[|reqs| - 1];
      forall a ensures RequestsFrom(w, before, a) <= least {
        assert RequestsFrom(w, before, a) <= RequestsFrom(w, reqs, a) <= least;
      }
      ModestNeverRefused(w, block, before, least);
      var slot := After(w, block, before);
      match Current(w, slot, r.now)
      case None => assert RequestsFrom(w, reqs, r.now) <= least;
      case Some(d) => assert RequestsFrom(w, reqs, d.firstRequest) <= least;
    }
  }

  // ----- a refusal lasts exactly to the end of its window

  lemma {:induction false} BlockOutlastsWindow(w: int, block: int, reqs: seq<Request>)
    requires w >= 0 && block > w && Chronological(reqs)
    ensures match After(w, block, reqs)
            case None => reqs == []
            case Some(Entry(d, expires)) =>
              reqs != [] && d.firstRequest <= Last(reqs)
              && (d.blockExpiry.Some? ==> d.blockExpiry == expires && expires.value > d.firstRequest + w)
  {
    if reqs != [] {
      BlockOutlastsWindow(w, block, reqs[..|reqs| - 1]);
    }
  }

  /** The slot holds a block that ends after its window. */
  ghost predicate BlockedBeyond(w: int, slot: Slot) {
    && slot.Some? && slot.value.value.blockExpiry.Some? && slot.value.value.blockExpiry == slot.value.expires
    && slot.value.expires.value > slot.value.value.firstRequest + w
  }

  lemma StepBehindBlock(w: int, block: int, slot: Slot, r: Request)
    requires BlockedBeyond(w, slot) && r.limit >= 1
    ensures var (next, decision) := Step(w, block, slot, r);
            && (decision.Admitted? <==> r.now > slot.value.value.firstRequest + w)
            && (r.now <= slot.value.value.firstRequest + w ==> next == slot)
            && (r.now > slot.value.value.firstRequest + w ==> next.value.value == Data(1, r.now, None))
  {
  }

  lemma RefusalBlocks(w: int, block: int, reqs: seq<Request>)
    requires w >= 0 && block > w && Chronological(reqs) && reqs != [] && !LastDecision(w, block, reqs).Admitted?
    ensures BlockedBeyond(w, After(w, block, reqs))
  {
    BlockOutlastsWindow(w, block, reqs[..|reqs| - 1]);
    BlockOutlastsWindow(w, block, reqs);
  }

  /**
   * After a refusal, a later request is refused exactly up to the end of the
   * window that the refused one was counted in; the next one opens a window.
   */
  lemma RefusedUntilWindowEnds(w: int, block: int, reqs: seq<Request>, r: Request)
    requires w >= 0 && block > w && Chronological(reqs + [r]) && reqs != [] && r.limit >= 1
    requires !LastDecision(w, block, reqs).Admitted?
    ensures var slot := After(w, block, reqs);
            && slot.Some?
            && (LastDecision(w, block, reqs + [r]).Admitted? <==> r.now > slot.value.value.firstRequest + w)
            && (r.now <= slot.value.value.firstRequest + w ==> After(w, block, reqs + [r]) == slot)
            && (r.now > slot.value.value.firstRequest + w ==>
                  After(w, block, reqs + [r]).value.value == Data(1, r.now, None))
  {
    assert forall i :: 0 <= i < |reqs| ==> (reqs + [r])[i] == reqs[i];
    assert (reqs + [r])[..|reqs|] == reqs && (reqs + [r])[|reqs|] == r;
    hide Step, BlockedBeyond;
    RefusalBlocks(w, block, reqs);
    StepBehindBlock(w, block, After(w, block, reqs), r);
    assert After(w, block, reqs).Some? by { BlockOutlastsWindow(w, block, reqs); }
  }
}
