/**
 * The pool's limit is attained by overlapping creations, and the minimum-`lastUsed`
 * scan over sequential calls keeps exactly the most recently used tenants.
 */
module TenantPoolLru {
  import opened TenantPool
  import opened TenantPoolRuns

  // ----- the capacity bound is attained

  function Name(i: nat): (t: string)
    ensures |t| == i + 1
  {
    seq(i + 1, _ => 'x')
  }

  /** The first n tenants are mapped and the next m creations have just been started. */
  ghost predicate Opening(s: Pool, n: nat, m: nat) {
    && s.nextCall == n + m
    && |s.connections| == n
    && (forall x :: x in s.connections ==> |x.id| <= n)
    && (forall t :: t in s.inflight ==> |t| <= n + m)
    && (forall k :: k in s.calls ==> k < n + m)
    && (forall k :: n <= k < n + m ==> k in s.calls && s.calls[k] == Call(Name(k), Resolving))
    && (forall k :: k in s.calls && k < n ==> s.calls[k].phase.Returned?)
  }

  function Interval(n: nat, m: nat): (r: set<nat>)
    ensures |r| == m
    ensures forall k :: k in r <==> n <= k < n + m
  {
    if m == 0 then {} else Interval(n, m - 1) + {n + m - 1}
  }

  lemma OpeningCount(s: Pool, n: nat, m: nat)
    requires Opening(s, n, m)
    ensures |InProgress(s)| == m
  {
    assert InProgress(s) == Interval(n, m);
  }

  lemma OpeningAdmit(s: Pool, n: nat, m: nat)
    requires Opening(s, n, m)
    ensures AnswerOf(s, Name(n + m)) == Created(n + m)
    ensures Opening(Admit(s, Name(n + m)), n, m + 1)
  {
  }

  lemma StartOne(cfg: Config, evs: seq<Event>, n: nat, m: nat) returns (evs': seq<Event>)
    requires Run(cfg, evs).Some? && Opening(Run(cfg, evs).value, n, m) && n < cfg.maxConnections
    ensures Run(cfg, evs').Some? && Opening(Run(cfg, evs').value, n, m + 1)
    ensures Peak(cfg, evs') == if m + 1 > Peak(cfg, evs) then m + 1 else Peak(cfg, evs)
  {
    var s := Run(cfg, evs).value;
    var e := Get(Name(n + m), 0);
    evs' := evs + [e];
    OpeningAdmit(s, n, m);
    assert EvictOldest(cfg, s) == s;
    RunExtends(cfg, evs, e);
    OpeningCount(Admit(s, Name(n + m)), n, m + 1);
    PeakExtends(cfg, evs, e);
  }

  lemma PutAppends(c: seq<Connection>, conn: Connection)
    requires forall x :: x in c ==> x.id != conn.id
    ensures Put(c, conn) == c + [conn]
  {
  }

  lemma OpeningFinish(s: Pool, n: nat, m: nat, client: nat)
    requires Opening(s, n, m) && m > 0
    ensures Opening(Complete(s, n, client, 0), n + 1, m - 1)
  {
    PutAppends(s.connections, Connection(Name(n), client, 0));
  }

  lemma FinishOne(cfg: Config, evs: seq<Event>, n: nat, m: nat) returns (evs': seq<Event>)
    requires Run(cfg, evs).Some? && Opening(Run(cfg, evs).value, n, m) && m > 0 && !cfg.migrateOnConnect
    requires Peak(cfg, evs) >= m
    ensures Run(cfg, evs').Some? && Opening(Run(cfg, evs').value, n + 1, m - 1)
    ensures Peak(cfg, evs') == Peak(cfg, evs)
  {
    var s := Run(cfg, evs).value;
    var evs1 := evs + [Resolve(n, true)];
    RunExtends(cfg, evs, Resolve(n, true));
    var s1 := ResolveStep(s, n, true);
    assert InProgress(s1) == InProgress(s);
    OpeningCount(s, n, m);
    PeakExtends(cfg, evs, Resolve(n, true));
    evs' := evs1 + [Configure(n, true, 0)];
    RunExtends(cfg, evs1, Configure(n, true, 0));
    OpeningFinish(s, n, m, s.nextClient);
    assert Opening(Complete(s1, n, s.nextClient, 0), n + 1, m - 1) by {
      assert Complete(s1, n, s.nextClient, 0).calls == Complete(s, n, s.nextClient, 0).calls;
    }
    OpeningCount(Complete(s1, n, s.nextClient, 0), n + 1, m - 1);
    PeakExtends(cfg, evs1, Configure(n, true, 0));
  }

  lemma PeakExtends(cfg: Config, evs: seq<Event>, e: Event)
    requires Run(cfg, evs).Some? && Run(cfg, evs + [e]).Some?
    ensures var now := |InProgress(Run(cfg, evs + [e]).value)|;
            Peak(cfg, evs + [e]) == if now > Peak(cfg, evs) then now else Peak(cfg, evs)
  {
    assert (evs + [e])[..|evs|] == evs;
  }

  lemma StartMany(cfg: Config, evs: seq<Event>, n: nat, k: nat) returns (evs': seq<Event>)
    requires Run(cfg, evs).Some? && Opening(Run(cfg, evs).value, n, 0) && n < cfg.maxConnections
    requires Peak(cfg, evs) <= 1
    ensures Run(cfg, evs').Some? && Opening(Run(cfg, evs').value, n, k)
    ensures k >= 1 ==> Peak(cfg, evs') == k
    ensures k == 0 ==> evs' == evs
  {
    evs' := evs;
    for m := 0 to k
      invariant Run(cfg, evs').Some? && Opening(Run(cfg, evs').value, n, m)
      invariant if m == 0 then evs' == evs else Peak(cfg, evs') == m
    {
      evs' := StartOne(cfg, evs', n, m);
    }
  }

  lemma FinishMany(cfg: Config, evs: seq<Event>, n: nat, k: nat) returns (evs': seq<Event>)
    requires Run(cfg, evs).Some? && Opening(Run(cfg, evs).value, n, k) && !cfg.migrateOnConnect
    requires Peak(cfg, evs) >= k
    ensures Run(cfg, evs').Some? && Opening(Run(cfg, evs').value, n + k, 0) && Peak(cfg, evs') == Peak(cfg, evs)
  {
    evs' := evs;
    for m := 0 to k
      invariant Run(cfg, evs').Some? && Opening(Run(cfg, evs').value, n + m, k - m)
      invariant Peak(cfg, evs') == Peak(cfg, evs)
    {
      evs' := FinishOne(cfg, evs', n + m, k - m);
    }
  }

  lemma FillUp(cfg: Config, n: nat) returns (evs: seq<Event>)
    requires n < cfg.maxConnections && !cfg.migrateOnConnect
    ensures Run(cfg, evs).Some? && Opening(Run(cfg, evs).value, n, 0) && Peak(cfg, evs) <= 1
  {
    evs := [];
    for i := 0 to n
      invariant Run(cfg, evs).Some? && Opening(Run(cfg, evs).value, i, 0) && Peak(cfg, evs) <= 1
    {
      evs := StartOne(cfg, evs, i, 0);
      evs := FinishOne(cfg, evs, i, 1);
    }
  }

  /** For every limit and every overlap some run reaches the bound with live connections alone. */
  lemma CapacityAttained(max: nat, overlap: nat) returns (evs: seq<Event>)
    requires max >= 1 && overlap >= 1
    ensures var cfg := Config(max, false);
            && Run(cfg, evs).Some? && Peak(cfg, evs) == overlap
            && |Run(cfg, evs).value.connections| == max - 1 + overlap
  {
    var cfg := Config(max, false);
    evs := FillUp(cfg, max - 1);
    evs := StartMany(cfg, evs, max - 1, overlap);
    evs := FinishMany(cfg, evs, max - 1, overlap);
  }

  // ----- sequential use

  ghost predicate Quiet(s: Pool) {
    s.calls == map[] && s.inflight == map[]
  }

  function OpenFully(cfg: Config, s: Pool, t: string, now: int): Pool {
    var k := s.nextCall;
    var s1 := ResolveStep(Admit(s, t), k, true);
    var s2 := ConfigureStep(cfg, s1, k, true, now);
    if s2.calls[k].phase.Migrating? then MigrateStep(s2, k, true, now) else s2
  }

  function CreateFully(cfg: Config, s: Pool, t: string, now: int): Pool {
    SettleStep(OpenFully(cfg, s, t, now), s.nextCall)
  }

  /** One call of `getTenantDB` that runs to completion and succeeds, as `CreateFully` or a hit. */
  function Serve(cfg: Config, s: Pool, t: string, now: int): Pool {
    match AnswerOf(s, t)
    case Created(_) => CreateFully(cfg, EvictOldest(cfg, s), t, now)
    case _ => GetStep(cfg, s, t, now)
  }

  function ServeAll(cfg: Config, uses: seq<(string, int)>): Pool {
    if uses == [] then Empty
    else
      var (t, now) := uses[|uses| - 1];
      Serve(cfg, ServeAll(cfg, uses[..|uses| - 1]), t, now)
  }

  lemma ServeMaps(cfg: Config, s: Pool, t: string, now: int)
    requires Quiet(s) && Inv(s) && t != "" && cfg.maxConnections >= 1
    ensures Quiet(Serve(cfg, s, t, now)) && Inv(Serve(cfg, s, t, now))
    ensures Serve(cfg, s, t, now).connections ==
              if TenantIn(s.connections, t) then Touch(s.connections, t, now)
              else EvictOldest(cfg, s).connections + [Connection(t, s.nextClient, now)]
  {
    match AnswerOf(s, t)
    case Created(k) =>
      EvictInv(cfg, s);
      ServeCreates(cfg, EvictOldest(cfg, s), t, now);
    case Hit(_) => TouchInv(s, t, now);
  }

  /** `Serve` is made of enabled pool steps, in the order of the source's awaits. */
  lemma ServeIsSteps(cfg: Config, s: Pool, t: string, now: int)
    requires Quiet(s) && Inv(s)
    ensures var s0 := Step(cfg, s, Get(t, now));
            match AnswerOf(s, t)
            case Created(k) =>
              && Enabled(s0, Resolve(k, true))
              && (var s1 := Step(cfg, s0, Resolve(k, true));
                  && Enabled(s1, Configure(k, true, now))
                  && (var s2 := Step(cfg, s1, Configure(k, true, now));
                      if Enabled(s2, Migrate(k, true, now)) then
                        var s3 := Step(cfg, s2, Migrate(k, true, now));
                        Enabled(s3, Settle(k)) && Serve(cfg, s, t, now) == Step(cfg, s3, Settle(k))
                      else
                        Enabled(s2, Settle(k)) && Serve(cfg, s, t, now) == Step(cfg, s2, Settle(k))))
            case _ => Serve(cfg, s, t, now) == s0
  {
    if AnswerOf(s, t).Created? {
      assert GetStep(cfg, s, t, now) == Admit(EvictOldest(cfg, s), t);
    }
  }

  /** The only suspended call is the one that creates the connection of t. */
  ghost predicate Alone(s: Pool, t: string, phase: Phase) {
    s.nextCall > 0 && s.calls == map[s.nextCall - 1 := Call(t, phase)] && s.inflight == map[t := s.nextCall - 1]
  }

  lemma AloneOpens(s: Pool, t: string)
    requires Quiet(s) && Inv(s) && t != ""
    ensures var s1 := ResolveStep(Admit(s, t), s.nextCall, true);
            Alone(s1, t, Configuring(s.nextClient)) && Inv(s1)
  {
    AdmitInv(s, t);
    ResolveInv(Admit(s, t), s.nextCall, true);
  }

  lemma AloneCompletes(s: Pool, t: string, phase: Phase, now: int)
    requires Alone(s, t, phase) && OwnsClient(phase) && Inv(s) && !TenantIn(s.connections, t)
    ensures var s' := Complete(s, s.nextCall - 1, phase.client, now);
            Alone(s', t, Returned(phase.client)) && Inv(s')
            && s'.connections == s.connections + [Connection(t, phase.client, now)]
  {
    hide Inv, Put;
    CompleteInv(s, s.nextCall - 1, now);
    PutAppends(s.connections, Connection(t, phase.client, now));
  }

  lemma AloneSettles(s: Pool, t: string, phase: Phase)
    requires Alone(s, t, phase) && Inv(s)
    ensures Quiet(SettleStep(s, s.nextCall - 1)) && Inv(SettleStep(s, s.nextCall - 1))
  {
    SettleInv(s, s.nextCall - 1);
  }

  /** The creation has put its connection and only the final step is left. */
  ghost predicate Served(s: Pool, s': Pool, t: string, now: int) {
    && Alone(s', t, Returned(s.nextClient)) && Inv(s') && s'.nextCall == s.nextCall + 1
    && s'.connections == s.connections + [Connection(t, s.nextClient, now)]
  }

  lemma OpensDirectly(cfg: Config, s: Pool, t: string, now: int)
    requires Quiet(s) && Inv(s) && t != "" && !TenantIn(s.connections, t) && !(cfg.migrateOnConnect && t !in s.migrated)
    ensures Served(s, OpenFully(cfg, s, t, now), t, now)
  {
    var s1 := ResolveStep(Admit(s, t), s.nextCall, true);
    AloneOpens(s, t);
    AloneCompletes(s1, t, Configuring(s.nextClient), now);
  }

  lemma AloneConfigures(cfg: Config, s: Pool, t: string, client: nat, now: int)
    requires Alone(s, t, Configuring(client)) && Inv(s) && cfg.migrateOnConnect && t !in s.migrated
    ensures var s' := ConfigureStep(cfg, s, s.nextCall - 1, true, now);
            && Alone(s', t, Migrating(client)) && Inv(s') && s' == s.(calls := s'.calls)
  {
    MigratingInv(s, s.nextCall - 1);
    hide Inv;
  }

  lemma AloneMigrates(s: Pool, t: string, client: nat, now: int)
    requires Alone(s, t, Migrating(client)) && Inv(s) && !TenantIn(s.connections, t)
    ensures var s' := MigrateStep(s, s.nextCall - 1, true, now);
            && Alone(s', t, Returned(client)) && Inv(s')
            && s'.connections == s.connections + [Connection(t, client, now)]
  {
    MigratedInv(s, t);
    hide Inv, TenantIn;
    AloneCompletes(s.(migrated := s.migrated + {t}), t, Migrating(client), now);
  }

  lemma OpensMigrating(cfg: Config, s: Pool, t: string, now: int)
    requires Quiet(s) && Inv(s) && t != "" && !TenantIn(s.connections, t) && cfg.migrateOnConnect && t !in s.migrated
    ensures Served(s, OpenFully(cfg, s, t, now), t, now)
  {
    var s1 := ResolveStep(Admit(s, t), s.nextCall, true);
    AloneOpens(s, t);
    AloneConfigures(cfg, s1, t, s.nextClient, now);
    var s2 := ConfigureStep(cfg, s1, s.nextCall, true, now);
    AloneMigrates(s2, t, s.nextClient, now);
    hide Inv, TenantIn, MigrateStep, ConfigureStep;
  }

  lemma ServeCreates(cfg: Config, s: Pool, t: string, now: int)
    requires Quiet(s) && Inv(s) && t != "" && !TenantIn(s.connections, t)
    ensures var s' := CreateFully(cfg, s, t, now);
            Quiet(s') && Inv(s') && s'.connections == s.connections + [Connection(t, s.nextClient, now)]
  {
    hide OpenFully, Inv, TenantIn;
    if cfg.migrateOnConnect && t !in s.migrated {
      OpensMigrating(cfg, s, t, now);
    } else {
      OpensDirectly(cfg, s, t, now);
    }
    AloneSettles(OpenFully(cfg, s, t, now), t, Returned(s.nextClient));
  }

  lemma MigratedInv(s: Pool, t: string)
    requires Inv(s)
    ensures Inv(s.(migrated := s.migrated + {t}))
  {
  }

  // ----- the abstract list

  function Without(l: seq<string>, t: string): (r: seq<string>)
    ensures forall u :: u in r <==> u in l && u != t
    ensures |r| <= |l|
  {
    if l == [] then []
    else if l[0] == t then Without(l[1..], t)
    else [l[0]] + Without(l[1..], t)
  }

  /** Least recently used first; a use moves a tenant to the end and overflow drops the head. */
  function Lru(max: nat, ts: seq<string>): seq<string> {
    if ts == [] then []
    else
      var moved := Without(Lru(max, ts[..|ts| - 1]), ts[|ts| - 1]) + [ts[|ts| - 1]];
      if |moved| > max then moved[1..] else moved
  }

  /** The distinct tenants used after the last use of t. */
  function UsedSince(ts: seq<string>, t: string): set<string> {
    if ts == [] || ts[|ts| - 1] == t then {}
    else UsedSince(ts[..|ts| - 1], t) + {ts[|ts| - 1]}
  }

  ghost predicate NoDup(l: seq<string>) {
    l == [] || (l[0] !in l[1..] && NoDup(l[1..]))
  }

  lemma WithoutNoDup(l: seq<string>, t: string)
    requires NoDup(l)
    ensures NoDup(Without(l, t))
    ensures t in l ==> |Without(l, t)| == |l| - 1
    ensures t !in l ==> Without(l, t) == l
  {
  }

  lemma AppendNoDup(l: seq<string>, t: string)
    requires NoDup(l) && t !in l
    ensures NoDup(l + [t])
  {
    if l != [] { assert (l + [t])[1..] == l[1..] + [t]; }
  }

  /** Everything listed after t is what was used since t. */
  ghost predicate Recency(l: seq<string>, ts: seq<string>) {
    l == [] || ((set u | u in l[1..]) == UsedSince(ts, l[0]) && Recency(l[1..], ts))
  }

  lemma RecencySnoc(l: seq<string>, ts: seq<string>, u: string)
    requires Recency(l, ts)
    ensures Recency(Without(l, u) + [u], ts + [u])
  {
    assert (ts + [u])[..|ts|] == ts;
    if l == [] {
      assert [u][1..] == [];
    } else {
      RecencySnoc(l[1..], ts, u);
      if l[0] != u {
        var l' := Without(l, u) + [u];
        assert l'[1..] == Without(l[1..], u) + [u];
        assert (set v | v in l'[1..]) == (set v | v in l[1..]) + {u};
      }
    }
  }

  lemma DistinctSize(l: seq<string>)
    requires NoDup(l)
    ensures |set u | u in l| == |l|
  {
    if l != [] {
      assert (set u | u in l) == (set u | u in l[1..]) + {l[0]};
    }
  }

  lemma RecencyAt(l: seq<string>, ts: seq<string>, t: string)
    requires Recency(l, ts) && NoDup(l) && t in l
    ensures |UsedSince(ts, t)| < |l|
  {
    if l[0] == t { DistinctSize(l[1..]); } else { RecencyAt(l[1..], ts, t); }
  }

  /** The list holds a tenant exactly when fewer than max distinct others were used after it. */
  ghost predicate HoldsMostRecent(max: nat, ts: seq<string>, l: seq<string>) {
    && NoDup(l) && |l| <= max && Recency(l, ts)
    && forall t :: t in l <==> t in ts && |UsedSince(ts, t)| < max
  }

  lemma HoldsNothing(max: nat)
    ensures HoldsMostRecent(max, [], [])
  {
  }

  lemma {:induction false} LruHoldsMostRecent(max: nat, ts: seq<string>)
    requires max >= 1
    ensures HoldsMostRecent(max, ts, Lru(max, ts))
  {
    hide HoldsMostRecent, UsedSince;
    if ts == [] {
      HoldsNothing(max);
    } else {
      var before, u := ts[..|ts| - 1], ts[|ts| - 1];
      LruHoldsMostRecent(max, before);
      LruStep(max, before, u, Lru(max, before));
      assert ts == before + [u];
    }
  }

  /** The head that an overflow drops has been followed by max others. */
  lemma DroppedHead(max: nat, moved: seq<string>, ts: seq<string>)
    requires moved != [] && NoDup(moved) && Recency(moved, ts) && |moved| > max
    ensures |UsedSince(ts, moved[0])| >= max
  {
    DistinctSize(moved[1..]);
  }

  /** A tenant that the list does not hold stays out until it is used. */
  lemma StaysOut(max: nat, before: seq<string>, u: string, t: string)
    requires |UsedSince(before, t)| >= max && t != u
    ensures |UsedSince(before + [u], t)| >= max
  {
    assert (before + [u])[..|before|] == before;
    Grows(UsedSince(before, t), u);
  }

  lemma MovedList(l: seq<string>, before: seq<string>, u: string)
    requires NoDup(l) && Recency(l, before)
    ensures NoDup(Without(l, u) + [u]) && Recency(Without(l, u) + [u], before + [u])
    ensures |Without(l, u) + [u]| <= |l| + 1
  {
    RecencySnoc(l, before, u);
    WithoutNoDup(l, u);
    AppendNoDup(Without(l, u), u);
  }

  /** A use moves its tenant to the end; only an overflow drops the head. */
  lemma LruStep(max: nat, before: seq<string>, u: string, l: seq<string>)
    requires max >= 1 && HoldsMostRecent(max, before, l)
    ensures var moved := Without(l, u) + [u];
            HoldsMostRecent(max, before + [u], if |moved| > max then moved[1..] else moved)
  {
    hide UsedSince;
    var ts := before + [u];
    MovedList(l, before, u);
    var moved := Without(l, u) + [u];
    var l' := if |moved| > max then moved[1..] else moved;
    forall t | t in l' ensures t in ts && |UsedSince(ts, t)| < max {
      RecencyAt(l', ts, t);
    }
    forall t | t in ts && t !in l' ensures |UsedSince(ts, t)| >= max {
      if t in moved {
        DroppedHead(max, moved, ts);
      } else {
        StaysOut(max, before, u, t);
      }
    }
  }

  lemma Grows(a: set<string>, u: string)
    ensures |a + {u}| >= |a|
  {
    if u in a { assert a + {u} == a; }
  }

  // ----- the pool refines the list

  /** The list orders the connections by their last use. */
  ghost predicate OrderedBy(c: seq<Connection>, l: seq<string>) {
    l == [] || (OrderedBy(c, l[1..])
                && forall x, y :: x in c && y in c && x.id == l[0] && y.id in l[1..] ==> x.lastUsed < y.lastUsed)
  }

  ghost predicate Tracks(c: seq<Connection>, l: seq<string>, last: int) {
    && NoDup(l) && |c| == |l| && OrderedBy(c, l)
    && (forall t :: TenantIn(c, t) <==> t in l)
    && (forall x :: x in c ==> x.lastUsed <= last)
  }

  lemma OrderedFewer(c: seq<Connection>, c': seq<Connection>, l: seq<string>)
    requires OrderedBy(c, l) && forall x :: x in c' && x.id in l ==> x in c
    ensures OrderedBy(c', l)
  {
  }

  lemma OrderedMoved(c: seq<Connection>, c': seq<Connection>, l: seq<string>, t: string, now: int)
    requires OrderedBy(c, l)
    requires forall x :: x in c' && x.id != t ==> x in c && x.lastUsed < now
    requires forall x :: x in c' && x.id == t ==> x.lastUsed == now
    ensures OrderedBy(c', Without(l, t) + [t])
  {
    if l != [] {
      OrderedMoved(c, c', l[1..], t, now);
      if l[0] != t { assert (Without(l, t) + [t])[1..] == Without(l[1..], t) + [t]; }
    } else {
      assert [t][1..] == [];
    }
  }

  lemma TouchTracks(c: seq<Connection>, l: seq<string>, last: int, t: string, now: int)
    requires Tracks(c, l, last) && t in l && last < now
    ensures Tracks(Touch(c, t, now), Without(l, t) + [t], now)
  {
    var r := Touch(c, t, now);
    WithoutNoDup(l, t);
    AppendNoDup(Without(l, t), t);
    forall x | x in r ensures TenantIn(c, x.id) && (if x.id == t then x.lastUsed == now else x in c) {
      var i :| 0 <= i < |r| && r[i] == x;
      assert c[i] in c;
    }
    forall u | TenantIn(c, u) ensures TenantIn(r, u) {
      var i :| 0 <= i < |c| && c[i].id == u;
      assert r[i] in r;
    }
    OrderedMoved(c, r, l, t, now);
  }

  lemma AppendTracks(c: seq<Connection>, l: seq<string>, last: int, conn: Connection)
    requires Tracks(c, l, last) && conn.id !in l && last < conn.lastUsed
    ensures Tracks(c + [conn], l + [conn.id], conn.lastUsed)
  {
    WithoutNoDup(l, conn.id);
    AppendNoDup(l, conn.id);
    assert forall x :: x in c ==> TenantIn(c, x.id);
    assert forall x :: x in c + [conn] ==> x in c || x == conn;
    OrderedMoved(c, c + [conn], l, conn.id, conn.lastUsed);
    assert forall t :: TenantIn(c, t) ==> TenantIn(c + [conn], t) by {
      forall t | TenantIn(c, t) ensures TenantIn(c + [conn], t) {
        var x :| x in c && x.id == t;
        assert x in c + [conn];
      }
    }
    assert conn in c + [conn];
  }

  /** The scan's victim is the head of the list. */
  lemma OldestIsHead(c: seq<Connection>, l: seq<string>, last: int)
    requires Tracks(c, l, last) && c != []
    ensures c[OldestIndex(c)].id == l[0]
  {
    var i := OldestIndex(c);
    assert l[0] in l;
    var x :| x in c && x.id == l[0];
    var j :| 0 <= j < |c| && c[j] == x;
    assert c[i].lastUsed <= c[j].lastUsed by {
      assert j < i ==> c[i].lastUsed < c[j].lastUsed;
    }
    assert TenantIn(c, c[i].id);
  }

  lemma DropTracks(c: seq<Connection>, l: seq<string>, last: int)
    requires Tracks(c, l, last) && Injective(c) && l != []
    ensures Tracks(Delete(c, l[0]), l[1..], last)
  {
    DeleteInjective(c, l[0]);
    assert l[0] in l;
    assert TenantIn(c, l[0]);
    OrderedFewer(c, Delete(c, l[0]), l[1..]);
    forall t ensures TenantIn(Delete(c, l[0]), t) <==> t in l[1..] {
      if t in l[1..] {
        assert t in l;
        var x :| x in c && x.id == t;
        assert x in Delete(c, l[0]);
      }
      if TenantIn(Delete(c, l[0]), t) {
        assert TenantIn(c, t) && t != l[0];
      }
    }
  }

  lemma ReplaceTracks(c: seq<Connection>, l: seq<string>, last: int, conn: Connection)
    requires Tracks(c, l, last) && Injective(c) && c != [] && conn.id !in l && last < conn.lastUsed
    ensures Tracks(Delete(c, c[OldestIndex(c)].id) + [conn], (l + [conn.id])[1..], conn.lastUsed)
  {
    var head, tail := l[0], l[1..];
    OldestIsHead(c, l, last);
    DropTracks(c, l, last);
    assert l == [head] + tail;
    SnocTail(head, tail, conn.id);
    AppendTracks(Delete(c, head), tail, last, conn);
  }

  lemma SnocTail(head: string, tail: seq<string>, x: string)
    ensures ([head] + tail + [x])[1..] == tail + [x]
  {
  }

  function Tenants(uses: seq<(string, int)>): seq<string> {
    if uses == [] then [] else Tenants(uses[..|uses| - 1]) + [uses[|uses| - 1].0]
  }

  predicate Chronological(uses: seq<(string, int)>) {
    forall i, j :: 0 <= i < j < |uses| ==> uses[i].1 < uses[j].1
  }

  function Latest(uses: seq<(string, int)>, otherwise: int): int {
    if uses == [] then otherwise else uses[|uses| - 1].1
  }

  lemma ServeTracks(cfg: Config, s: Pool, l: seq<string>, last: int, t: string, now: int)
    requires cfg.maxConnections >= 1 && Quiet(s) && Inv(s) && t != ""
    requires Tracks(s.connections, l, last) && |l| <= cfg.maxConnections && last < now
    ensures Quiet(Serve(cfg, s, t, now)) && Inv(Serve(cfg, s, t, now))
    ensures var moved := Without(l, t) + [t];
            Tracks(Serve(cfg, s, t, now).connections, if |moved| > cfg.maxConnections then moved[1..] else moved, now)
  {
    ServeMaps(cfg, s, t, now);
    WithoutNoDup(l, t);
    var c := s.connections;
    if t in l {
      TouchTracks(c, l, last, t, now);
    } else if |c| >= cfg.maxConnections {
      ReplaceTracks(c, l, last, Connection(t, s.nextClient, now));
    } else {
      AppendTracks(c, l, last, Connection(t, s.nextClient, now));
    }
  }

  lemma {:induction false} PoolTracksLru(cfg: Config, uses: seq<(string, int)>, before: int)
    requires cfg.maxConnections >= 1 && Chronological(uses)
    requires forall u :: u in uses ==> u.0 != "" && before < u.1
    ensures Quiet(ServeAll(cfg, uses)) && Inv(ServeAll(cfg, uses))
    ensures Tracks(ServeAll(cfg, uses).connections, Lru(cfg.maxConnections, Tenants(uses)), Latest(uses, before))
  {
    if uses != [] {
      var earlier, use := uses[..|uses| - 1], uses[|uses| - 1];
      PoolTracksLru(cfg, earlier, before);
      LruHoldsMostRecent(cfg.maxConnections, Tenants(earlier));
      ServeTracks(cfg, ServeAll(cfg, earlier), Lru(cfg.maxConnections, Tenants(earlier)), Latest(earlier, before),
                  use.0, use.1);
      assert Tenants(uses)[..|Tenants(uses)| - 1] == Tenants(earlier);
    }
  }

  /**
   * Under sequential successful calls with a strictly increasing clock a tenant
   * is connected exactly when it was used and fewer than max distinct other
   * tenants were used since.
   */
  lemma KeepsMostRecentlyUsed(cfg: Config, uses: seq<(string, int)>, t: string)
    requires cfg.maxConnections >= 1 && Chronological(uses)
    requires forall u :: u in uses ==> u.0 != ""
    ensures MappedTenant(ServeAll(cfg, uses), t)
       <==> t in Tenants(uses) && |UsedSince(Tenants(uses), t)| < cfg.maxConnections
  {
    PoolTracksLru(cfg, uses, if uses == [] then 0 else uses[0].1 - 1);
    LruHoldsMostRecent(cfg.maxConnections, Tenants(uses));
  }
}
