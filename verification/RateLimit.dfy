/**
 * The request limiter of middleware/rate-limit.middleware.ts: a counter per key
 * with a window reset, a block and a time to live.  Times are milliseconds;
 * requests on one key are taken one after the other.
 */
module RateLimit {
  import opened Wrappers
  import opened TtlCache

  datatype Options = Options(
    max: int,
    window: int,
    blockDuration: Option<int>,
    ipAdjustment: bool,
    suspiciousMultiplier: Option<real>)

  /** What the request context knows about the caller's address. */
  datatype IpVerdict =
    | Unchecked
    | Infrastructure(likelyBot: bool)
    | Anonymizer
    | Suspicious
    | Clean

  datatype Data = Data(count: int, firstRequest: int, blockExpiry: Option<int>)

  datatype Decision =
    | Admitted
    | Blocked(retryAfterSeconds: int)
    | Exceeded(retryAfter: int)

  datatype Request = Request(now: int, limit: int)

  type Slot = Option<Entry<Data>>

  /** The maximum times a multiplier, rounded down but never below one. */
  function Scale(max: int, multiplier: real): int {
    var scaled := max as real * multiplier;
    if scaled.Floor < 1 then 1 else scaled.Floor
  }

  function CeilDiv(a: int, d: int): int
    requires d > 0
  {
    -((-a) / d)
  }

  function BlockMs(o: Options): int {
    if o.blockDuration.Some? then o.blockDuration.value else o.window * 2
  }

  /** The limit of one request; reputation only ever divides it, and never below one. */
  function Limit(o: Options, ip: IpVerdict): int {
    if !o.ipAdjustment then o.max
    else match ip
      case Infrastructure(bot) => Scale(o.max, if bot then 0.1 else 0.5)
      case Anonymizer => Scale(o.max, 0.3)
      case Suspicious =>
        Scale(o.max, if o.suspiciousMultiplier.Some? then o.suspiciousMultiplier.value else 0.3)
      case _ => o.max
  }

  /** The data that counts for this request: neither expired nor older than the window. */
  function Current(w: int, slot: Slot, now: int): Option<Data> {
    match Lookup(slot, now)
    case Some(d) => if now - d.firstRequest > w then None else Some(d)
    case None => None
  }

  function AdmitTtlMs(w: int, elapsed: int): int {
    1000 * (if w - elapsed > 60 then w - elapsed else 60)
  }

  function Step(w: int, block: int, slot: Slot, r: Request): (Slot, Decision) {
    var data := Current(w, slot, r.now);
    if data.Some? && data.value.blockExpiry.Some? && r.now < data.value.blockExpiry.value then
      (slot, Blocked(CeilDiv(data.value.blockExpiry.value - r.now, 1000)))
    else
      var counted := match data
        case None => Data(1, r.now, None)
        case Some(d) => d.(count := d.count + 1);
      if counted.count > r.limit then
        (Some(Store(counted.(blockExpiry := Some(r.now + block)), r.now, block)), Exceeded(block))
      else
        (Some(Store(counted, r.now, AdmitTtlMs(w, r.now - counted.firstRequest))), Admitted)
  }

  lemma Scaled(max: int, multiplier: real)
    requires max >= 1 && multiplier <= 1.0
    ensures 1 <= Scale(max, multiplier) <= max
  {
    var x := max as real * multiplier;
    assert max as real * (1.0 - multiplier) >= 0.0;
    assert x.Floor as real <= x <= max as real;
  }

  lemma LimitBounds(o: Options, ip: IpVerdict)
    requires o.max >= 1
    requires o.suspiciousMultiplier.Some? ==> o.suspiciousMultiplier.value <= 1.0
    ensures 1 <= Limit(o, ip) <= o.max
  {
    hide Scale;
    Scaled(o.max, 0.1);
    Scaled(o.max, 0.3);
    Scaled(o.max, 0.5);
    if o.suspiciousMultiplier.Some? {
      Scaled(o.max, o.suspiciousMultiplier.value);
    }
  }

  /** The limit is the share of the maximum, rounded down, and one when less than one is left of it. */
  predicate IsShare(limit: int, max: int, tenths: int) {
    (limit == 1 && tenths * max < 10) || (1 <= limit && 10 * limit <= tenths * max < 10 * (limit + 1))
  }

  lemma ScaleIsShare(max: int, multiplier: real, tenths: int)
    requires max >= 1 && tenths >= 1 && 10.0 * multiplier == tenths as real
    ensures IsShare(Scale(max, multiplier), max, tenths)
  {
    var x, n := max as real * multiplier, tenths * max;
    assert 10.0 * x == max as real * tenths as real == n as real;
    assert x.Floor as real <= x < x.Floor as real + 1.0;
  }

  /**
   * What each kind of caller is limited to: a tenth of the maximum for a likely bot,
   * half for other infrastructure, three tenths for an anonymizer and, unless the
   * options say otherwise, for a suspicious address, and all of it for the rest.
   */
  lemma LimitShares(o: Options)
    requires o.max >= 1
    ensures forall ip: IpVerdict :: !o.ipAdjustment || ip.Clean? || ip.Unchecked? ==> Limit(o, ip) == o.max
    ensures o.ipAdjustment ==>
              && IsShare(Limit(o, Infrastructure(true)), o.max, 1)
              && IsShare(Limit(o, Infrastructure(false)), o.max, 5)
              && IsShare(Limit(o, Anonymizer), o.max, 3)
              && (o.suspiciousMultiplier.None? ==> IsShare(Limit(o, Suspicious), o.max, 3))
  {
    hide Scale, IsShare;
    ScaleIsShare(o.max, 0.1, 1);
    ScaleIsShare(o.max, 0.5, 5);
    ScaleIsShare(o.max, 0.3, 3);
  }

  /** With a multiplier of its own a suspicious address gets that share, rounded down, or one. */
  lemma SuspiciousShare(o: Options)
    requires o.max >= 1 && o.ipAdjustment && o.suspiciousMultiplier.Some?
    ensures var limit, share := Limit(o, Suspicious), o.max as real * o.suspiciousMultiplier.value;
            (limit == 1 && share < 1.0) || (1 <= limit && limit as real <= share < limit as real + 1.0)
  {
    var share := o.max as real * o.suspiciousMultiplier.value;
    assert share.Floor as real <= share < share.Floor as real + 1.0;
  }

  /** Likely bots get no more than anonymizers, those no more than other infrastructure, that no more than the rest. */
  lemma LimitOrder(o: Options)
    requires o.max >= 1
    ensures Limit(o, Infrastructure(true)) <= Limit(o, Anonymizer) <= Limit(o, Infrastructure(false)) <= Limit(o, Clean)
  {
    LimitShares(o);
    hide Limit;
  }

  /** Without a block time of its own a limiter blocks for twice its window, and says so. */
  lemma DefaultBlock(o: Options, slot: Slot, r: Request)
    requires o.blockDuration.None? && Step(o.window, BlockMs(o), slot, r).1.Exceeded?
    ensures var (next, decision) := Step(o.window, BlockMs(o), slot, r);
            && decision == Exceeded(2 * o.window)
            && next.Some? && next.value.value.blockExpiry == Some(r.now + 2 * o.window)
  {
  }

  /** An admitted request is remembered for a minute, or for as many seconds as its window has milliseconds left. */
  lemma AdmittedLifetime(w: int, block: int, slot: Slot, r: Request)
    requires Step(w, block, slot, r).1.Admitted?
    ensures var Entry(d, expires) := Step(w, block, slot, r).0.value;
            && expires.Some? && d.blockExpiry == (match Current(w, slot, r.now)
                                                  case Some(before) => before.blockExpiry
                                                  case None => None)
            && expires.value - r.now >= 60_000 && expires.value - r.now >= 1000 * (d.firstRequest + w - r.now)
            && (expires.value - r.now == 60_000 || expires.value - r.now == 1000 * (d.firstRequest + w - r.now))
  {
  }

  class RateLimiter {
    const options: Options
    var cache: map<string, Entry<Data>>

    constructor (options: Options)
      ensures this.options == options && cache == map[]
    {
      this.options := options;
      cache := map[];
    }

    function SlotOf(key: string): Slot
      reads this
    {
      if key in cache then Some(cache[key]) else None
    }

    method MaxAttempts(ip: IpVerdict) returns (maxAttempts: int)
      ensures maxAttempts == Limit(options, ip)
    {
      maxAttempts := options.max;
      if options.ipAdjustment {
        match ip {
          case Infrastructure(likelyBot) =>
            if likelyBot {
              maxAttempts := Scale(maxAttempts, 0.1);
            } else {
              maxAttempts := Scale(maxAttempts, 0.5);
            }
          case Anonymizer =>
            maxAttempts := Scale(maxAttempts, 0.3);
          case Suspicious =>
            var multiplier := if options.suspiciousMultiplier.Some? then options.suspiciousMultiplier.value else 0.3;
            maxAttempts := Scale(maxAttempts, multiplier);
          case _ =>
        }
      }
    }

    method Handle(key: string, now: int, ip: IpVerdict) returns (decision: Decision)
      modifies this
      ensures var (slot, d) := Step(options.window, BlockMs(options), old(SlotOf(key)),
                                    Request(now, Limit(options, ip)));
              && decision == d && SlotOf(key) == slot
              && cache == if slot.Some? then old(cache)[key := slot.value] else old(cache)
    {
      var maxAttempts := MaxAttempts(ip);
      var blockDurationMs := if options.blockDuration.Some? then options.blockDuration.value else options.window * 2;

      var data := Lookup(SlotOf(key), now);
      if data.Some? && now - data.value.firstRequest > options.window {
        data := None;
      }
      if data.Some? && data.value.blockExpiry.Some? && now < data.value.blockExpiry.value {
        return Blocked(CeilDiv(data.value.blockExpiry.value - now, 1000));
      }
      if data.None? {
        data := Some(Data(1, now, None));
      } else {
        data := Some(data.value.(count := data.value.count + 1));
      }
      if data.value.count > maxAttempts {
        data := Some(data.value.(blockExpiry := Some(now + blockDurationMs)));
        cache := cache[key := Store(data.value, now, blockDurationMs)];
        return Exceeded(blockDurationMs);
      }
      cache := cache[key := Store(data.value, now, AdmitTtlMs(options.window, now - data.value.firstRequest))];
      return Admitted;
    }
  }
}
