/**
 * Each decision of the limiter, told from the requests before it and what was
 * decided on them: which window a request belongs to, how many were counted in it,
 * and whether a refusal in it still holds.
 */
module RateLimitDecisions {
  import opened Wrappers
  import opened TtlCache
  import opened RateLimit
  import opened RateLimitTraces

  /** The last request that no block turned away: it was counted, and admitted or refused. */
  function LastCounted(w: int, block: int, reqs: seq<Request>): (k: nat)
    requires reqs != []
    ensures k < |reqs|
  {
    if |reqs| == 1 || !LastDecision(w, block, reqs).Blocked? then |reqs| - 1
    else LastCounted(w, block, reqs[..|reqs| - 1])
  }

  /** That request was refused for exceeding the limit. */
  predicate Refused(w: int, block: int, reqs: seq<Request>)
    requires reqs != []
  {
    LastDecision(w, block, reqs[..LastCounted(w, block, reqs) + 1]).Exceeded?
  }

  /**
   * At this instant the window of the last request is still open: it is not older than
   * its length, and no block that began in it has run out.
   */
  predicate StillOpen(w: int, block: int, reqs: seq<Request>, now: int)
    decreases |reqs|, 1
  {
    && reqs != []
    && now - reqs[Opener(w, block, reqs)].now <= w
    && (block != 0 && Refused(w, block, reqs) ==> now < reqs[LastCounted(w, block, reqs)].now + block)
  }

  /** The request that opened the window which the last request belongs to. */
  function Opener(w: int, block: int, reqs: seq<Request>): (f: nat)
    requires reqs != []
    ensures f < |reqs|
    decreases |reqs|, 0
  {
    var before := reqs[..|reqs| - 1];
    if StillOpen(w, block, before, reqs[|reqs| - 1].now) then Opener(w, block, before) else |reqs| - 1
  }

  /** How many requests from number f on were counted. */
  function CountedFrom(w: int, block: int, reqs: seq<Request>, f: nat): nat {
    if |reqs| <= f then 0
    else
      CountedFrom(w, block, reqs[..|reqs| - 1], f) + if LastDecision(w, block, reqs).Blocked? then 0 else 1
  }

  /** What is stored is told by the requests. */
  ghost predicate Told(w: int, block: int, reqs: seq<Request>) {
    if reqs == [] then After(w, block, reqs).None?
    else
      var f, k := Opener(w, block, reqs), LastCounted(w, block, reqs);
      && f <= k
      && After(w, block, reqs).Some?
      && TellsOf(w, block, After(w, block, reqs).value, reqs[f].now, CountedFrom(w, block, reqs, f), reqs[k].now,
                 Refused(w, block, reqs))
  }

  ghost predicate TellsOf(w: int, block: int, e: Entry<Data>, first: int, count: nat, last: int, refused: bool) {
    && e.value.firstRequest == first <= last && last - first <= w && e.value.count == count
    && if refused then
         && e.value.blockExpiry == Some(last + block)
         && e.expires == (if block != 0 then Some(last + block) else None)
       else
         && e.expires == Some(last + AdmitTtlMs(w, last - first))
         && (e.value.blockExpiry.Some? ==> block == 0 && e.value.blockExpiry.value <= last)
  }

  /** Which decision the entry leads to, and what it leaves. */
  lemma StepTells(w: int, block: int, e: Entry<Data>, first: int, count: nat, last: int, refused: bool, r: Request)
    requires w >= 0 && block >= 0 && TellsOf(w, block, e, first, count, last, refused) && last <= r.now
    ensures var open := r.now - first <= w && (block != 0 && refused ==> r.now < last + block);
            var (slot, d) := Step(w, block, Some(e), r);
            && (d.Blocked? <==> open && block != 0 && refused)
            && (d.Blocked? ==>
                  && slot == Some(e)
                  && 1000 * (d.retryAfterSeconds - 1) < last + block - r.now <= 1000 * d.retryAfterSeconds)
            && (!d.Blocked? ==>
                  && (d.Exceeded? <==> (if open then count else 0) + 1 > r.limit)
                  && slot.Some?
                  && TellsOf(w, block, slot.value, if open then first else r.now, (if open then count else 0) + 1,
                             r.now, d.Exceeded?))
  {
  }

  lemma FirstTells(w: int, block: int, r: Request)
    requires w >= 0 && block >= 0
    ensures var (slot, d) := Step(w, block, None, r);
            && !d.Blocked? && (d.Exceeded? <==> 1 > r.limit) && slot.Some?
            && TellsOf(w, block, slot.value, r.now, 1, r.now, d.Exceeded?)
  {
  }

  lemma CountedExtends(w: int, block: int, reqs: seq<Request>, r: Request, f: nat)
    requires f <= |reqs|
    ensures var d := LastDecision(w, block, reqs + [r]);
            && CountedFrom(w, block, reqs + [r], f) == CountedFrom(w, block, reqs, f) + (if d.Blocked? then 0 else 1)
            && (!d.Blocked? ==> LastCounted(w, block, reqs + [r]) == |reqs|)
            && (d.Blocked? && reqs != [] ==> LastCounted(w, block, reqs + [r]) == LastCounted(w, block, reqs))
            && (StillOpen(w, block, reqs, r.now) ==>
                  Opener(w, block, reqs + [r]) == Opener(w, block, reqs))
            && (!StillOpen(w, block, reqs, r.now) ==> Opener(w, block, reqs + [r]) == |reqs|)
  {
    assert (reqs + [r])[..|reqs|] == reqs;
  }

  lemma RefusedExtends(w: int, block: int, reqs: seq<Request>, r: Request)
    ensures var d := LastDecision(w, block, reqs + [r]);
            && (!d.Blocked? ==> (Refused(w, block, reqs + [r]) <==> d.Exceeded?))
            && (d.Blocked? && reqs != [] ==> (Refused(w, block, reqs + [r]) <==> Refused(w, block, reqs)))
  {
    CountedExtends(w, block, reqs, r, 0);
    var all := reqs + [r];
    if !LastDecision(w, block, all).Blocked? {
      assert all[..|all|] == all;
    } else if reqs != [] {
      var k := LastCounted(w, block, reqs);
      assert all[..k + 1] == reqs[..k + 1];
    }
  }

  lemma {:induction false} TraceTells(w: int, block: int, reqs: seq<Request>)
    requires w >= 0 && block >= 0 && Chronological(reqs)
    ensures Told(w, block, reqs)
  {
    if reqs != [] {
      var n := |reqs| - 1;
      var before, r := reqs[..n], reqs[n];
      assert reqs == before + [r];
      TraceTells(w, block, before);
      OneMoreTold(w, block, before, r);
    }
  }

  lemma OneMoreTold(w: int, block: int, before: seq<Request>, r: Request)
    requires w >= 0 && block >= 0 && Chronological(before + [r]) && Told(w, block, before)
    ensures Told(w, block, before + [r])
    ensures Decided(w, block, before, r)
  {
    hide TellsOf, Opener, StillOpen, LastCounted, Refused, CountedFrom, Step;
    var all := before + [r];
    TraceExtends(w, block, before, r, 0, 0);
    RefusedExtends(w, block, before, r);
    OpensAnew(w, block, before, r);
    if before == [] {
      FirstTells(w, block, r);
    } else {
      var f, k := Opener(w, block, before), LastCounted(w, block, before);
      CountedExtends(w, block, before, r, f);
      assert all[k] == before[k] && all[f] == before[f] && all[|before|] == r;
      StepTells(w, block, After(w, block, before).value, before[f].now, CountedFrom(w, block, before, f), before[k].now,
                Refused(w, block, before), r);
      OpenTells(w, block, before, r.now);
    }
  }

  /** What `StillOpen` says, in the words of `StepTells`. */
  lemma OpenTells(w: int, block: int, reqs: seq<Request>, now: int)
    requires reqs != []
    ensures StillOpen(w, block, reqs, now) <==>
              && now - reqs[Opener(w, block, reqs)].now <= w
              && (block != 0 && Refused(w, block, reqs) ==> now < reqs[LastCounted(w, block, reqs)].now + block)
  {
  }

  lemma OpensAnew(w: int, block: int, before: seq<Request>, r: Request)
    ensures var d := LastDecision(w, block, before + [r]);
            && CountedFrom(w, block, before + [r], |before|) == (if d.Blocked? then 0 else 1)
            && (before == [] ==> !StillOpen(w, block, before, r.now))
            && (!StillOpen(w, block, before, r.now) ==> Opener(w, block, before + [r]) == |before|)
            && (!d.Blocked? ==> LastCounted(w, block, before + [r]) == |before|)
  {
    CountedExtends(w, block, before, r, |before|);
  }

  /** How many counted requests the window of the next request holds already. */
  function CountedBefore(w: int, block: int, reqs: seq<Request>, now: int): nat {
    if StillOpen(w, block, reqs, now) then CountedFrom(w, block, reqs, Opener(w, block, reqs)) else 0
  }

  /** The decision on the next request, told from those before it. */
  ghost predicate Decided(w: int, block: int, reqs: seq<Request>, r: Request) {
    var d := LastDecision(w, block, reqs + [r]);
    && (d.Blocked? <==> StillOpen(w, block, reqs, r.now) && block != 0 && Refused(w, block, reqs))
    && (d.Exceeded? <==> !d.Blocked? && CountedBefore(w, block, reqs, r.now) + 1 > r.limit)
    && (d.Blocked? ==>
          var end := reqs[LastCounted(w, block, reqs)].now + block;
          1000 * (d.retryAfterSeconds - 1) < end - r.now <= 1000 * d.retryAfterSeconds)
  }

  /**
   * In every trace a request is turned away by a block exactly when the last counted
   * request of its window was refused and the block that began there has not run out;
   * it is refused exactly when it is not turned away and the counted requests of its
   * window, itself included, are more than its limit; and otherwise it is admitted.
   */
  lemma DecidedExactlyWhen(w: int, block: int, reqs: seq<Request>, r: Request)
    requires w >= 0 && block >= 0 && Chronological(reqs + [r])
    ensures Decided(w, block, reqs, r)
  {
    assert Chronological(reqs) by {
      forall i, j | 0 <= i < j < |reqs| ensures reqs[i].now <= reqs[j].now {
        assert (reqs + [r])[i].now <= (reqs + [r])[j].now;
      }
    }
    TraceTells(w, block, reqs);
    OneMoreTold(w, block, reqs, r);
  }
}
