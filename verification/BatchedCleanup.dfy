/**
 * The batched delete loops of jobs/trace-cleanup.job.ts,
 * jobs/threat-intelligence-cleanup.job.ts and jobs/notifications-cleanup.job.ts.
 * Every database call may throw, before or after it took effect.
 */
module BatchedCleanup {
  import opened Wrappers

  /** What a database call did. */
  datatype Outcome = Done | FailedBefore | FailedAfter

  datatype Row =
    | Trace(expiresAt: int)
    | Threat(isActive: bool, updatedAt: int)
    | Notification(dismissedAt: Option<int>)

  datatype Condition =
    | ExpiredBefore(now: int)
    | InactiveBefore(cutoff: int)
    | DismissedBefore(cutoff: int)

  type Table = map<string, Row>

  predicate Due(c: Condition, row: Row) {
    match c
    case ExpiredBefore(now) => row.Trace? && row.expiresAt < now
    case InactiveBefore(cutoff) => row.Threat? && !row.isActive && row.updatedAt < cutoff
    case DismissedBefore(cutoff) => row.Notification? && row.dismissedAt.Some? && row.dismissedAt.value < cutoff
  }

  function DueIds(c: Condition, t: Table): set<string> {
    set id | id in t && Due(c, t[id])
  }

  /** What is left when every due row is gone. */
  function Undue(c: Condition, t: Table): Table {
    t - DueIds(c, t)
  }

  /** Some due rows are gone, and nothing else. */
  ghost predicate Trimmed(c: Condition, before: Table, after: Table) {
    exists ids :: ids <= DueIds(c, before) && after == before - ids
  }

  lemma DueAfter(c: Condition, t: Table, ids: set<string>)
    ensures DueIds(c, t - ids) == DueIds(c, t) - ids
  {
  }

  lemma UndueAfter(c: Condition, t: Table, ids: set<string>)
    requires ids <= DueIds(c, t)
    ensures Undue(c, t - ids) == Undue(c, t)
  {
    DueAfter(c, t, ids);
    assert (t - ids) - (DueIds(c, t) - ids) == t - DueIds(c, t);
  }

  lemma SizeAfter(t: Table, ids: set<string>)
    requires ids <= t.Keys
    ensures |t - ids| + |ids| == |t|
  {
    assert (t - ids).Keys == t.Keys - ids;
    assert |t - ids| == |(t - ids).Keys| && |t| == |t.Keys|;
  }

  lemma TrimmedTwice(c: Condition, t: Table, u: Table, v: Table)
    requires Trimmed(c, t, u) && Trimmed(c, u, v)
    ensures Trimmed(c, t, v)
  {
    var ids :| ids <= DueIds(c, t) && u == t - ids;
    var more :| more <= DueIds(c, u) && v == u - more;
    assert v == t - (ids + more);
  }

  /** Any choice of n elements. */
  method Choose(s: set<string>, n: nat) returns (ids: set<string>)
    requires n <= |s|
    ensures ids <= s && |ids| == n
  {
    ids := {};
    var rest := s;
    while |ids| < n
      invariant ids + rest == s && ids !! rest && |ids| <= n && |ids| + |rest| == |s|
      decreases n - |ids|
    {
      var id :| id in rest;
      ids, rest := ids + {id}, rest - {id};
    }
  }

  /** At most this one table has changed. */
  ghost predicate OnlyTable(name: string, before: map<string, Table>, after: map<string, Table>) {
    name in before && name in after && after == before[name := after[name]]
  }

  lemma OnlyItself(name: string, tables: map<string, Table>)
    requires name in tables
    ensures OnlyTable(name, tables, tables)
  {
  }

  lemma OnlyTableTwice(name: string, a: map<string, Table>, b: map<string, Table>, c: map<string, Table>)
    requires OnlyTable(name, a, b) && OnlyTable(name, b, c)
    ensures OnlyTable(name, a, c)
  {
  }

  // ----- what happens to the tables

  /** Another writer inserts, changes or deletes a row. */
  datatype Write = Write(name: string, id: string, row: Option<Row>)

  /** The rows that a select has returned and a delete will name. */
  datatype Batch = Batch(name: string, condition: Condition, ids: set<string>)

  datatype Event =
    | Others(write: Write)
    | Selected(batch: Batch)
    | Deleted(batch: Batch)

  datatype State = State(tables: map<string, Table>, held: Option<Batch>)

  function Written(t: Table, w: Write): Table {
    match w.row
    case Some(row) => t[w.id := row]
    case None => t - {w.id}
  }

  /** Only due rows are selected, and only the rows of the last select are deleted, once. */
  ghost predicate Allowed(s: State, e: Event) {
    match e
    case Others(w) => w.name in s.tables
    case Selected(b) => b.name in s.tables && b.ids <= DueIds(b.condition, s.tables[b.name])
    case Deleted(b) => b.name in s.tables && s.held == Some(b)
  }

  ghost function Apply(s: State, e: Event): State
    requires Allowed(s, e)
  {
    match e
    case Others(w) => s.(tables := s.tables[w.name := Written(s.tables[w.name], w)])
    case Selected(b) => s.(held := Some(b))
    case Deleted(b) => State(s.tables[b.name := s.tables[b.name] - b.ids], None)
  }

  ghost function Replay(start: State, history: seq<Event>): Option<State> {
    if history == [] then Some(start)
    else match Replay(start, history[..|history| - 1])
      case Some(s) => if Allowed(s, history[|history| - 1]) then Some(Apply(s, history[|history| - 1])) else None
      case None => None
  }

  lemma ReplayExtends(start: State, history: seq<Event>, s: State, e: Event)
    requires Replay(start, history) == Some(s) && Allowed(s, e)
    ensures Replay(start, history + [e]) == Some(Apply(s, e))
  {
    assert (history + [e])[..|history|] == history;
  }

  class Databases {
    ghost const start: map<string, Table>
    const outcomes: nat -> Outcome
    const others: seq<seq<Write>>
    var tables: map<string, Table>
    var calls: nat
    ghost var held: Option<Batch>
    ghost var history: seq<Event>

    /** The tables are what the history makes of the start. */
    ghost predicate Valid()
      reads this
    {
      Replay(State(start, None), history) == Some(State(tables, held))
    }

    /** Nobody else writes any more. */
    ghost predicate Quiet()
      reads this
    {
      forall k :: calls <= k < |others| ==> others[k] == []
    }

    /** For how many calls others may still write. */
    ghost function Unrest(): nat
      reads this
    {
      if calls < |others| then |others| - calls else 0
    }

    constructor (tables: map<string, Table>, outcomes: nat -> Outcome, others: seq<seq<Write>>)
      ensures Valid() && this.tables == tables && this.outcomes == outcomes && this.others == others
      ensures calls == 0 && history == []
    {
      this.start, this.tables, this.outcomes, this.others := tables, tables, outcomes, others;
      this.calls, this.held, this.history := 0, None, [];
    }

    method Pause(writes: seq<Write>)
      requires Valid()
      modifies this`tables, this`history
      ensures Valid() && old(history) <= history && tables.Keys == old(tables).Keys
      ensures writes == [] ==> tables == old(tables)
    {
      var i := 0;
      while i < |writes|
        invariant Valid() && old(history) <= history && tables.Keys == old(tables).Keys && 0 <= i <= |writes|
        invariant i == 0 ==> tables == old(tables)
      {
        var w := writes[i];
        if w.name in tables {
          ReplayExtends(State(start, None), history, State(tables, held), Others(w));
          history := history + [Others(w)];
          tables := tables[w.name := Written(tables[w.name], w)];
        }
        i := i + 1;
      }
    }

    /** Before a call reaches the database, others may write. */
    method Call() returns (outcome: Outcome)
      requires Valid()
      modifies this`tables, this`history, this`calls
      ensures Valid() && old(history) <= history && tables.Keys == old(tables).Keys
      ensures outcome == outcomes(old(calls)) && calls == old(calls) + 1
      ensures old(Quiet()) ==> Quiet() && tables == old(tables)
    {
      if calls < |others| {
        Pause(others[calls]);
      }
      outcome := outcomes(calls);
      calls := calls + 1;
    }

    /** SQLite's LIMIT: at most so many rows, any of them; a negative limit is none. */
    method SelectDue(name: string, c: Condition, limit: int) returns (ids: Option<set<string>>)
      requires Valid() && name in tables
      modifies this
      ensures Valid() && old(history) <= history && tables.Keys == old(tables).Keys && calls == old(calls) + 1
      ensures old(Quiet()) ==> Quiet() && tables == old(tables)
      ensures ids.Some? ==>
                && held == Some(Batch(name, c, ids.value))
                && ids.value <= DueIds(c, tables[name])
                && |ids.value| == (if 0 <= limit < |DueIds(c, tables[name])| then limit else |DueIds(c, tables[name])|)
    {
      var outcome := Call();
      if !outcome.Done? {
        return None;
      }
      var due := DueIds(c, tables[name]);
      var chosen := Choose(due, if 0 <= limit < |due| then limit else |due|);
      ghost var batch := Batch(name, c, chosen);
      ReplayExtends(State(start, None), history, State(tables, held), Selected(batch));
      history, held := history + [Selected(batch)], Some(batch);
      return Some(chosen);
    }

    /** A delete that throws may have taken effect all the same. */
    method DeleteIds(ghost batch: Batch, name: string, ids: set<string>) returns (ok: bool)
      requires Valid() && name in tables && held == Some(batch) && batch.name == name && batch.ids == ids
      modifies this
      ensures Valid() && old(history) <= history && tables.Keys == old(tables).Keys && calls == old(calls) + 1
      ensures ok ==> history != [] && history[|history| - 1] == Deleted(batch)
      ensures old(Quiet()) ==>
                && Quiet()
                && (tables == old(tables)[name := old(tables)[name] - ids] || (!ok && tables == old(tables)))
    {
      var outcome := Call();
      if !outcome.FailedBefore? {
        ReplayExtends(State(start, None), history, State(tables, held), Deleted(batch));
        history, held := history + [Deleted(batch)], None;
        tables := tables[name := tables[name] - ids];
      }
      ok := outcome.Done?;
    }

    /** One round: None when a call throws, otherwise the number of rows selected, and removed when all is quiet. */
    method RemoveBatch(name: string, c: Condition, limit: int) returns (removed: Option<nat>)
      requires Valid() && name in tables
      modifies this
      ensures Valid() && old(history) <= history && tables.Keys == old(tables).Keys && calls > old(calls)
      ensures old(Quiet()) ==> Quiet() && OnlyTable(name, old(tables), tables)
      ensures old(Quiet()) && removed.None? ==> MaybeRemoved(c, limit, old(tables)[name], tables[name])
      ensures old(Quiet()) && removed.Some? ==> Removed(c, limit, old(tables)[name], tables[name], removed.value)
    {
      hide Removed, Valid;
      var ids := SelectDue(name, c, limit);
      if ids.None? {
        return None;
      }
      RemovedChoice(c, limit, tables[name], ids.value);
      if ids.value == {} {
        assert tables[name] - ids.value == tables[name];
        return Some(0);
      }
      var ok := DeleteIds(Batch(name, c, ids.value), name, ids.value);
      if !ok {
        return None;
      }
      return Some(|ids.value|);
    }

    /**
     * Rounds until one is short.  In any case the history shows that each delete names
     * the due rows of a select.  When nobody else writes, only due rows of the one
     * table go, and the count is of those gone but for at most the batch of a delete
     * that threw; if no call throws, all due rows go.
     */
    method CleanupTable(name: string, c: Condition, batchSize: int) returns (deleted: nat, failed: bool)
      requires Valid() && name in tables
      modifies this
      ensures Valid() && old(history) <= history && tables.Keys == old(tables).Keys
      ensures old(Quiet()) ==>
                && Quiet() && OnlyTable(name, old(tables), tables)
                && TableDone(c, batchSize, old(tables)[name], tables[name], deleted, failed)
    {
      deleted, failed := 0, false;
      ghost var before := tables[name];
      OnlyItself(name, tables);
      hide Valid, OnlyTable, Removed, Progress, Counted, TableDone, DueIds;
      NoProgress(c, batchSize, before);
      while true
        invariant Valid() && old(history) <= history && tables.Keys == old(tables).Keys
        invariant old(Quiet()) ==>
                    && Quiet() && OnlyTable(name, old(tables), tables)
                    && Progress(c, batchSize, before, tables[name], deleted)
        decreases Unrest(), |DueIds(c, tables[name])|
      {
        ghost var t, all, calm := tables[name], tables, Quiet();
        var removed := RemoveBatch(name, c, batchSize);
        if old(Quiet()) { OnlyTableTwice(name, old(tables), all, tables); }
        if removed.None? {
          failed := true;
          if old(Quiet()) { FailedStep(c, batchSize, before, t, tables[name], deleted); }
          return;
        }
        if old(Quiet()) { ProgressStep(c, batchSize, before, t, tables[name], deleted, removed.value); }
        if calm { RemovedSize(c, batchSize, t, tables[name], removed.value); }
        deleted := deleted + removed.value;
        if removed.value == 0 {
          break;
        }
        if removed.value < batchSize {
          break;
        }
      }
    }

    /** None when a call throws: the error goes to the caller. */
    method CleanupExpiredTraces(now: int, batchSize: int) returns (totalDeleted: Option<nat>)
      requires Valid() && TRACES in tables
      modifies this
      ensures Valid() && old(history) <= history && tables.Keys == old(tables).Keys
      ensures old(Quiet()) ==>
                && OnlyTable(TRACES, old(tables), tables)
                && Trimmed(ExpiredBefore(now), old(tables)[TRACES], tables[TRACES])
                && (totalDeleted.Some? ==>
                      && totalDeleted.value + |tables[TRACES]| == |old(tables)[TRACES]|
                      && (batchSize != 0 ==> tables[TRACES] == Undue(ExpiredBefore(now), old(tables)[TRACES])))
    {
      var deleted, failed := CleanupTable(TRACES, ExpiredBefore(now), batchSize);
      totalDeleted := if failed then None else Some(deleted);
    }

    /** The two tables one after the other; a throw in the first leaves the second alone. */
    method CleanupInactiveThreatEntries(cutoff: int) returns (totalDeleted: Option<nat>)
      requires Valid() && IPS in tables && CIDRS in tables
      modifies this
      ensures Valid() && old(history) <= history && tables.Keys == old(tables).Keys
      ensures old(Quiet()) ==>
                && (forall name :: name in tables && name != IPS && name != CIDRS ==> tables[name] == old(tables)[name])
                && (totalDeleted.Some? ==>
                      && tables[IPS] == Undue(InactiveBefore(cutoff), old(tables)[IPS])
                      && tables[CIDRS] == Undue(InactiveBefore(cutoff), old(tables)[CIDRS])
                      && totalDeleted.value + |tables[IPS]| + |tables[CIDRS]|
                           == |old(tables)[IPS]| + |old(tables)[CIDRS]|)
    {
      var ipsDeleted, failed := CleanupTable(IPS, InactiveBefore(cutoff), CLEANUP_BATCH_SIZE);
      if failed {
        return None;
      }
      var cidrsDeleted;
      cidrsDeleted, failed := CleanupTable(CIDRS, InactiveBefore(cutoff), CLEANUP_BATCH_SIZE);
      totalDeleted := if failed then None else Some(ipsDeleted + cidrsDeleted);
    }

    /** One tenant: opening the database may throw, and so may each call on it. */
    method CleanupTenant(environmentId: string, cutoff: int) returns (tenantDeleted: nat, failed: bool)
      requires Valid() && environmentId in tables
      modifies this
      ensures Valid() && old(history) <= history && tables.Keys == old(tables).Keys
      ensures old(Quiet()) ==>
                && Quiet() && OnlyTable(environmentId, old(tables), tables)
                && Trimmed(DismissedBefore(cutoff), old(tables)[environmentId], tables[environmentId])
                && Counted(CLEANUP_BATCH_SIZE, old(tables)[environmentId], tables[environmentId], tenantDeleted, failed)
                && (!failed ==> tables[environmentId] == Undue(DismissedBefore(cutoff), old(tables)[environmentId]))
    {
      var connected := Call();
      if !connected.Done? {
        NothingTrimmed(DismissedBefore(cutoff), tables[environmentId]);
        return 0, true;
      }
      tenantDeleted, failed := CleanupTable(environmentId, DismissedBefore(cutoff), CLEANUP_BATCH_SIZE);
    }

    /**
     * Tenant after tenant; errors names those whose loop threw.  A failing tenant holds
     * up no other, and the total is that of the others.
     */
    method CleanupDismissedNotifications(environments: seq<string>, cutoff: int)
      returns (totalDeleted: nat, errors: set<string>)
      requires Valid() && Distinct(environments) && forall name :: name in environments ==> name in tables
      modifies this
      ensures Valid() && old(history) <= history && tables.Keys == old(tables).Keys
      ensures old(Quiet()) ==> Cleaned(cutoff, old(tables), tables, environments, errors, totalDeleted)
    {
      totalDeleted, errors := 0, {};
      NothingCleaned(cutoff, tables);
      hide Cleaned, Valid, Counted, Trimmed;
      for i := 0 to |environments|
        invariant Valid() && old(history) <= history && tables.Keys == old(tables).Keys
        invariant old(Quiet()) ==>
                    Quiet() && Cleaned(cutoff, old(tables), tables, environments[..i], errors, totalDeleted)
      {
        var environmentId := environments[i];
        ghost var all, failures, total := tables, errors, totalDeleted;
        var tenantDeleted, failed := CleanupTenant(environmentId, cutoff);
        if failed {
          errors := errors + {environmentId};
        } else {
          totalDeleted := totalDeleted + tenantDeleted;
        }
        NewAt(environments, i);
        if old(Quiet()) {
          TenantCounts(cutoff, all[environmentId], tables[environmentId], tenantDeleted, failed);
          CleanedNext(cutoff, old(tables), all, tables, environments[..i], environmentId, failures, total,
                      tenantDeleted, failed);
        }
      }
      assert environments[..|environments|] == environments;
    }
  }

  ghost predicate Distinct(names: seq<string>) {
    forall i, j :: 0 <= i < j < |names| ==> names[i] != names[j]
  }

  lemma NewAt(names: seq<string>, i: nat)
    requires Distinct(names) && i < |names|
    ensures names[..i + 1] == names[..i] + [names[i]] && names[i] !in names[..i]
  {
  }

  const TRACES := "trace_logs"
  const IPS := "threat_ips"
  const CIDRS := "threat_cidrs"
  const CLEANUP_BATCH_SIZE := 1000

  ghost predicate TenantDone(cutoff: int, before: Table, after: Table, failed: bool) {
    && Trimmed(DismissedBefore(cutoff), before, after)
    && (!failed ==> after == Undue(DismissedBefore(cutoff), before))
  }

  /** The rows removed from the tables of those environments that raised no error. */
  ghost function RemovedFrom(before: map<string, Table>, after: map<string, Table>, environments: seq<string>,
                             errors: set<string>): int
    requires forall name :: name in environments ==> name in before && name in after
  {
    if environments == [] then 0
    else
      var last := environments[|environments| - 1];
      RemovedFrom(before, after, environments[..|environments| - 1], errors)
      + if last in errors then 0 else |before[last]| - |after[last]|
  }

  lemma {:induction false} RemovedFromSame(before: map<string, Table>, a: map<string, Table>, b: map<string, Table>,
                                           environments: seq<string>, errors: set<string>, more: set<string>)
    requires forall name :: name in environments ==> name in before && name in a && name in b && a[name] == b[name]
    requires forall name :: name in environments ==> (name in errors <==> name in more)
    ensures RemovedFrom(before, a, environments, errors) == RemovedFrom(before, b, environments, more)
  {
    if environments != [] {
      RemovedFromSame(before, a, b, environments[..|environments| - 1], errors, more);
    }
  }

  lemma RemovedFromNext(before: map<string, Table>, a: map<string, Table>, b: map<string, Table>,
                        environments: seq<string>, e: string, errors: set<string>, more: set<string>)
    requires forall name :: name in environments ==> name in before && name in a && name in b && a[name] == b[name]
    requires forall name :: name in environments ==> (name in errors <==> name in more)
    requires e in before && e in b
    ensures RemovedFrom(before, b, environments + [e], more) ==
              RemovedFrom(before, a, environments, errors) + if e in more then 0 else |before[e]| - |b[e]|
  {
    RemovedFromSame(before, a, b, environments, errors, more);
    assert (environments + [e])[..|environments|] == environments;
  }

  /** Only due rows of these tenants are gone, and all of them where nothing threw. */
  ghost predicate OnlyDueGone(cutoff: int, before: map<string, Table>, now: map<string, Table>,
                              environments: seq<string>, errors: set<string>) {
    && now.Keys == before.Keys
    && (forall name :: name in before && name !in environments ==> now[name] == before[name])
    && (forall name :: name in environments ==>
          name in before && TenantDone(cutoff, before[name], now[name], name in errors))
    && (forall name :: name in errors ==> name in environments)
  }

  /** Where the loop over the tenants stands. */
  ghost predicate Cleaned(cutoff: int, before: map<string, Table>, now: map<string, Table>, environments: seq<string>,
                          errors: set<string>, total: nat) {
    OnlyDueGone(cutoff, before, now, environments, errors) && total == RemovedFrom(before, now, environments, errors)
  }

  lemma NothingCleaned(cutoff: int, tables: map<string, Table>)
    ensures Cleaned(cutoff, tables, tables, [], {}, 0)
  {
  }

  lemma ElsewhereSame(e: string, now: map<string, Table>, next: map<string, Table>)
    requires OnlyTable(e, now, next)
    ensures next.Keys == now.Keys && forall name :: name in now && name != e ==> next[name] == now[name]
  {
  }

  lemma OnlyDueGoneNext(cutoff: int, before: map<string, Table>, now: map<string, Table>, next: map<string, Table>,
                        environments: seq<string>, e: string, errors: set<string>, failed: bool)
    requires OnlyDueGone(cutoff, before, now, environments, errors)
    requires e !in environments && OnlyTable(e, now, next) && TenantDone(cutoff, now[e], next[e], failed)
    ensures OnlyDueGone(cutoff, before, next, environments + [e], if failed then errors + {e} else errors)
  {
    var more := if failed then errors + {e} else errors;
    ElsewhereSame(e, now, next);
    hide TenantDone, OnlyTable;
    assert e !in errors;
    forall name | name in environments + [e]
      ensures name in before && TenantDone(cutoff, before[name], next[name], name in more)
    {
      if name != e {
        assert name in environments && next[name] == now[name] && (name in more <==> name in errors);
      }
    }
  }

  lemma CleanedNext(cutoff: int, before: map<string, Table>, now: map<string, Table>, next: map<string, Table>,
                    environments: seq<string>, e: string, errors: set<string>, total: nat, deleted: nat, failed: bool)
    requires Cleaned(cutoff, before, now, environments, errors, total)
    requires e !in environments && OnlyTable(e, now, next) && TenantDone(cutoff, now[e], next[e], failed)
    requires !failed ==> deleted + |next[e]| == |now[e]|
    ensures Cleaned(cutoff, before, next, environments + [e], if failed then errors + {e} else errors,
                    if failed then total else total + deleted)
  {
    var more := if failed then errors + {e} else errors;
    OnlyDueGoneNext(cutoff, before, now, next, environments, e, errors, failed);
    ElsewhereSame(e, now, next);
    hide TenantDone, OnlyTable, RemovedFrom;
    assert e !in errors && now[e] == before[e];
    RemovedFromNext(before, now, next, environments, e, errors, more);
  }

  ghost predicate Progress(c: Condition, batchSize: int, before: Table, now: Table, deleted: nat) {
    && Trimmed(c, before, now) && Undue(c, now) == Undue(c, before)
    && deleted + |now| == |before|
    && (batchSize == 0 ==> now == before)
  }

  /** All that went was counted, or a call threw and at most one batch went uncounted. */
  ghost predicate Counted(batchSize: int, before: Table, after: Table, deleted: nat, failed: bool) {
    if !failed then deleted + |after| == |before|
    else deleted + |after| <= |before| && (batchSize >= 0 ==> |before| <= deleted + |after| + batchSize)
  }

  /** A batch is gone, or nothing is. */
  ghost predicate MaybeRemoved(c: Condition, limit: int, before: Table, after: Table) {
    after == before || exists n: nat :: Removed(c, limit, before, after, n)
  }

  /** Only due rows of the table are gone, counted but for at most one batch; all of them when no call threw. */
  ghost predicate TableDone(c: Condition, batchSize: int, before: Table, after: Table, deleted: nat, failed: bool) {
    && Trimmed(c, before, after)
    && Counted(batchSize, before, after, deleted, failed)
    && (!failed && batchSize != 0 ==> after == Undue(c, before))
    && (batchSize == 0 ==> after == before)
  }

  lemma NoProgress(c: Condition, batchSize: int, t: Table)
    ensures Progress(c, batchSize, t, t, 0)
  {
    NothingTrimmed(c, t);
  }

  lemma RemovedSize(c: Condition, limit: int, before: Table, after: Table, n: nat)
    requires Removed(c, limit, before, after, n)
    ensures |DueIds(c, after)| == |DueIds(c, before)| - n
  {
  }

  lemma TenantCounts(cutoff: int, before: Table, after: Table, deleted: nat, failed: bool)
    requires Trimmed(DismissedBefore(cutoff), before, after)
    requires Counted(CLEANUP_BATCH_SIZE, before, after, deleted, failed)
    requires !failed ==> after == Undue(DismissedBefore(cutoff), before)
    ensures TenantDone(cutoff, before, after, failed) && (!failed ==> deleted + |after| == |before|)
  {
  }

  lemma FailedStep(c: Condition, batchSize: int, before: Table, now: Table, next: Table, deleted: nat)
    requires Progress(c, batchSize, before, now, deleted) && MaybeRemoved(c, batchSize, now, next)
    ensures TableDone(c, batchSize, before, next, deleted, true)
  {
    if next != now {
      var n: nat :| Removed(c, batchSize, now, next, n);
      TrimmedTwice(c, before, now, next);
    }
  }

  lemma ProgressStep(c: Condition, batchSize: int, before: Table, now: Table, next: Table, deleted: nat, n: nat)
    requires Progress(c, batchSize, before, now, deleted) && Removed(c, batchSize, now, next, n)
    ensures Progress(c, batchSize, before, next, deleted + n)
    ensures n < batchSize || n == 0 ==> TableDone(c, batchSize, before, next, deleted + n, false)
  {
    TrimmedTwice(c, before, now, next);
    if batchSize != 0 && (n < batchSize || n == 0) {
      ShortBatch(c, batchSize, now, next, n);
    }
  }

  /** Some n due rows are gone, as many as the limit admits. */
  ghost predicate Removed(c: Condition, limit: int, before: Table, after: Table, n: nat) {
    && Trimmed(c, before, after) && Undue(c, after) == Undue(c, before)
    && n + |after| == |before|
    && |DueIds(c, after)| == |DueIds(c, before)| - n
    && n == (if 0 <= limit < |DueIds(c, before)| then limit else |DueIds(c, before)|)
    && (n == 0 ==> after == before)
  }

  lemma ChoiceTrims(c: Condition, t: Table, ids: set<string>)
    requires ids <= DueIds(c, t)
    ensures Trimmed(c, t, t - ids) && (ids == {} ==> t - ids == t)
  {
  }

  lemma DueSize(c: Condition, t: Table, ids: set<string>)
    requires ids <= DueIds(c, t)
    ensures |DueIds(c, t - ids)| == |DueIds(c, t)| - |ids| && ids <= t.Keys
  {
    DueAfter(c, t, ids);
    var due := DueIds(c, t);
    assert due <= t.Keys;
    hide DueIds;
    assert due == (due - ids) + ids;
  }

  lemma RemovedChoice(c: Condition, limit: int, t: Table, ids: set<string>)
    requires ids <= DueIds(c, t)
    requires |ids| == (if 0 <= limit < |DueIds(c, t)| then limit else |DueIds(c, t)|)
    ensures Removed(c, limit, t, t - ids, |ids|)
  {
    hide Trimmed, Undue, DueIds;
    ChoiceTrims(c, t, ids);
    UndueAfter(c, t, ids);
    DueSize(c, t, ids);
    SizeAfter(t, ids);
  }

  lemma NothingTrimmed(c: Condition, t: Table)
    ensures Trimmed(c, t, t)
  {
    assert t - {} == t;
  }

  lemma ShortBatch(c: Condition, batchSize: int, before: Table, after: Table, n: nat)
    requires Removed(c, batchSize, before, after, n) && (n < batchSize || n == 0) && batchSize != 0
    ensures after == Undue(c, after)
  {
    assert DueIds(c, after) == {};
  }

  // ----- which rows the jobs may remove

  /** A trace goes only when it expires before now, an entry only when it is inactive and old, a notification only when
      it was dismissed before the cutoff; and nothing else in their tables goes. */
  ghost predicate MayGo(c: Condition, row: Row) {
    match row
    case Trace(expiresAt) => c.ExpiredBefore? && expiresAt < c.now
    case Threat(isActive, updatedAt) => c.InactiveBefore? && !isActive && updatedAt < c.cutoff
    case Notification(None) => false
    case Notification(Some(dismissedAt)) => c.DismissedBefore? && dismissedAt < c.cutoff
  }

  /** What a cleanup leaves behind: every row that may not go, unchanged, and when all is done no row that may. */
  lemma KeptExactlyWhen(c: Condition, before: Table, after: Table)
    requires Trimmed(c, before, after)
    ensures forall id :: id in after ==> id in before && after[id] == before[id]
    ensures forall id :: id in before && !MayGo(c, before[id]) ==> id in after
    ensures after == Undue(c, before) ==> forall id :: id in before && MayGo(c, before[id]) ==> id !in after
  {
    var ids :| ids <= DueIds(c, before) && after == before - ids;
  }

  // ----- other writers between a select and its delete

  ghost predicate OnlyOthers(events: seq<Event>) {
    forall i :: 0 <= i < |events| ==> events[i].Others?
  }

  /** The last of these writes to the row, if there is one. */
  function LastWrite(events: seq<Event>, name: string, id: string): Option<Write> {
    if events == [] then None
    else
      var e := events[|events| - 1];
      if e.Others? && e.write.name == name && e.write.id == id then Some(e.write)
      else LastWrite(events[..|events| - 1], name, id)
  }

  lemma {:induction false} OthersKeep(start: State, events: seq<Event>, name: string, id: string)
    requires Replay(start, events).Some? && OnlyOthers(events) && name in start.tables
    ensures var s := Replay(start, events).value;
            && s.held == start.held && name in s.tables
            && match LastWrite(events, name, id)
               case Some(w) => (if w.row.Some? then id in s.tables[name] && s.tables[name][id] == w.row.value
                                else id !in s.tables[name])
               case None => (id in s.tables[name] <==> id in start.tables[name])
                            && (id in s.tables[name] ==> s.tables[name][id] == start.tables[name][id])
  {
    if events != [] {
      OthersKeep(start, events[..|events| - 1], name, id);
    }
  }

  /** Every delete has its select in front of it, with nothing in between but what others write. */
  lemma {:induction false} HeldWasSelected(start: State, history: seq<Event>, b: Batch)
    returns (front: seq<Event>, between: seq<Event>)
    requires Replay(start, history).Some? && start.held.None? && Replay(start, history).value.held == Some(b)
    ensures history == front + [Selected(b)] + between && OnlyOthers(between)
    ensures Replay(start, front).Some? && Allowed(Replay(start, front).value, Selected(b))
  {
    var before, e := history[..|history| - 1], history[|history| - 1];
    assert history == before + [e];
    if e.Selected? {
      front, between := before, [];
      assert history == front + [Selected(b)] + [];
    } else {
      front, between := HeldWasSelected(start, before, b);
      between := between + [e];
      assert history == front + [Selected(b)] + between;
    }
  }

  lemma {:induction false} ReplaySplits(start: State, a: seq<Event>, b: seq<Event>)
    ensures Replay(start, a + b) == match Replay(start, a) case Some(s) => Replay(s, b) case None => None
  {
    if b == [] {
      assert a + b == a;
    } else {
      ReplaySplits(start, a, b[..|b| - 1]);
      assert (a + b)[..|a + b| - 1] == a + b[..|b| - 1];
    }
  }

  /** The write made the row one that is not due. */
  predicate Spares(c: Condition, w: Option<Write>) {
    w.Some? && w.value.row.Some? && !Due(c, w.value.row.value)
  }

  /**
   * Whatever others write: each row that a delete removes was due when it was
   * selected, and it is removed although it is not due any more exactly when the
   * last write to it since then made it so.
   */
  lemma UndueGoesExactlyWhen(start: State, history: seq<Event>, b: Batch, id: string)
    returns (front: seq<Event>, between: seq<Event>)
    requires start.held.None? && Replay(start, history).Some? && Allowed(Replay(start, history).value, Deleted(b))
    requires id in b.ids && id in Replay(start, history).value.tables[b.name]
    ensures history == front + [Selected(b)] + between && OnlyOthers(between)
    ensures Replay(start, front).Some? && b.name in Replay(start, front).value.tables
    ensures id in DueIds(b.condition, Replay(start, front).value.tables[b.name])
    ensures !Due(b.condition, Replay(start, history).value.tables[b.name][id])
       <==> Spares(b.condition, LastWrite(between, b.name, id))
  {
    front, between := HeldWasSelected(start, history, b);
    ReplaySplits(start, front + [Selected(b)], between);
    ReplaySplits(start, front, [Selected(b)]);
    var s := Replay(start, front).value;
    ReplayExtends(start, front, s, Selected(b));
    OthersKeep(Apply(s, Selected(b)), between, b.name, id);
  }

  /** A threat entry that comes back between the select and the delete is deleted. */
  lemma ReactivatedEntryGoes(id: string, cutoff: int, now: int)
    ensures var stale, back := Threat(false, cutoff - 1), Threat(true, now);
            var b := Batch(IPS, InactiveBefore(cutoff), {id});
            var start := State(map[IPS := map[id := stale]], None);
            var s := Replay(start, [Selected(b), Others(Write(IPS, id, Some(back)))]);
            && s.Some? && s.value.tables[IPS][id] == back && !Due(b.condition, back)
            && Allowed(s.value, Deleted(b)) && id !in Apply(s.value, Deleted(b)).tables[IPS]
  {
    var b := Batch(IPS, InactiveBefore(cutoff), {id});
    var start := State(map[IPS := map[id := Threat(false, cutoff - 1)]], None);
    var w := Others(Write(IPS, id, Some(Threat(true, now))));
    assert id in DueIds(b.condition, start.tables[IPS]);
    ReplayExtends(start, [], start, Selected(b));
    assert [] + [Selected(b)] == [Selected(b)];
    ReplayExtends(start, [Selected(b)], Apply(start, Selected(b)), w);
    assert [Selected(b)] + [w] == [Selected(b), w];
  }
}
