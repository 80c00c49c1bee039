/**
 * The queues of the backup job and what may happen to them: what each query selects,
 * what others may do between two calls, and what it means to take one batch off a queue.
 */
module BackupQueues {
  import opened Wrappers
  import opened ObjectBackup
  import opened BackupCalls

  // ----- the queues

  function PendingDocuments(s: Durable, env: string): set<string> {
    set slot | slot in s.rows && slot.env == env && !slot.Attachment? && slot !in s.backed :: slot.id
  }

  function PendingAttachments(s: Durable, env: string): set<string> {
    set slot | slot in s.rows && slot.env == env && slot.Attachment? && slot !in s.backed :: slot.id
  }

  function DueTombstones(s: Durable, env: string, now: int): set<string> {
    set id | id in s.tombstones && s.tombstones[id].env == env && s.tombstones[id].deleteAfter <= now
  }

  function DuePurges(s: Durable, now: int): set<string> {
    set env | env in s.purges && s.purges[env].deleteAfter <= now
  }

  function Min(a: nat, b: nat): nat { if a < b then a else b }

  ghost predicate Distinct(r: seq<string>) {
    forall i, j :: 0 <= i < j < |r| ==> r[i] != r[j]
  }

  /** In order of age, and nothing older is left out. */
  ghost predicate OldestFirst(r: seq<string>, pool: set<string>, age: string -> int) {
    && (forall i, j :: 0 <= i < j < |r| ==> age(r[i]) <= age(r[j]))
    && (forall x, i :: x in pool && x !in r && 0 <= i < |r| ==> age(r[i]) <= age(x))
  }

  method Oldest(pool: set<string>, age: string -> int) returns (x: string)
    requires pool != {}
    ensures x in pool && forall y :: y in pool ==> age(x) <= age(y)
  {
    x :| x in pool;
    var rest := pool - {x};
    while rest != {}
      invariant rest <= pool && x in pool
      invariant forall y :: y in pool && y !in rest ==> age(x) <= age(y)
      decreases |rest|
    {
      var y :| y in rest;
      if age(y) < age(x) {
        x := y;
      }
      rest := rest - {y};
    }
  }

  /** The oldest members of the pool, in order, and the rest of it. */
  ghost predicate Taken(r: seq<string>, rest: set<string>, pool: set<string>, age: string -> int) {
    && |r| + |rest| == |pool| && rest <= pool && Distinct(r)
    && (forall x :: x in r ==> x in pool && x !in rest)
    && (forall x :: x in pool && x !in rest ==> x in r)
    && (forall x, i :: x in rest && 0 <= i < |r| ==> age(r[i]) <= age(x))
    && (forall i, j :: 0 <= i < j < |r| ==> age(r[i]) <= age(r[j]))
  }

  lemma TakenNext(r: seq<string>, rest: set<string>, pool: set<string>, age: string -> int, x: string)
    requires Taken(r, rest, pool, age) && x in rest && forall y :: y in rest ==> age(x) <= age(y)
    ensures Taken(r + [x], rest - {x}, pool, age)
  {
    assert forall i :: 0 <= i < |r| ==> r[i] in r && r[i] != x;
  }

  lemma TakenOldest(r: seq<string>, rest: set<string>, pool: set<string>, age: string -> int)
    requires Taken(r, rest, pool, age)
    ensures |r| + |rest| == |pool| && Distinct(r) && OldestFirst(r, pool, age)
    ensures forall x :: x in r ==> x in pool
  {
  }

  /** The oldest part of a queue, as long as the limit allows. */
  method Take(pool: set<string>, limit: nat, age: string -> int) returns (r: seq<string>)
    ensures |r| == Min(limit, |pool|) && Distinct(r)
    ensures forall x :: x in r ==> x in pool
    ensures OldestFirst(r, pool, age)
  {
    r := [];
    var rest := pool;
    assert Taken(r, rest, pool, age);
    hide Taken, OldestFirst;
    while |r| < limit && rest != {}
      invariant |r| <= limit && Taken(r, rest, pool, age)
      decreases |rest|
    {
      var x := Oldest(rest, age);
      TakenNext(r, rest, pool, age, x);
      r, rest := r + [x], rest - {x};
    }
    TakenOldest(r, rest, pool, age);
  }

  /** By creation for what is to be copied, by the end of the grace period for what is to be deleted. */
  function Born(s: Durable, slot: Slot): int {
    if slot in s.created then s.created[slot] else 0
  }

  function DocumentAge(s: Durable, env: string): string -> int {
    (id: string) => Born(s, Main(env, id))
  }

  function AttachmentAge(s: Durable, env: string): string -> int {
    (id: string) => Born(s, Attachment(env, id))
  }

  function TombstoneAge(s: Durable): string -> int {
    (id: string) => if id in s.tombstones then s.tombstones[id].deleteAfter else 0
  }

  function PurgeAge(s: Durable): string -> int {
    (env: string) => if env in s.purges then s.purges[env].deleteAfter else 0
  }

  function DocumentIds(docs: seq<DocumentWork>): (ids: seq<string>)
    ensures |ids| == |docs| && forall i :: 0 <= i < |docs| ==> ids[i] == docs[i].id
  {
    seq(|docs|, i requires 0 <= i < |docs| => docs[i].id)
  }

  function KeyedIds(work: seq<KeyedWork>): (ids: seq<string>)
    ensures |ids| == |work| && forall i :: 0 <= i < |work| ==> ids[i] == work[i].id
  {
    seq(|work|, i requires 0 <= i < |work| => work[i].id)
  }

  /** The queues of a tenant are empty exactly when each of its rows is backed up and none of its tombstones is due. */
  lemma EmptyExactlyWhen(s: Durable, env: string, now: int)
    ensures PendingDocuments(s, env) == {} && PendingAttachments(s, env) == {} <==>
              forall slot: Slot :: slot in s.rows && slot.env == env ==> slot in s.backed
    ensures DueTombstones(s, env, now) == {} <==>
              forall id :: id in s.tombstones && s.tombstones[id].env == env ==> now < s.tombstones[id].deleteAfter
    ensures DuePurges(s, now) == {} <==> forall gone :: gone in s.purges ==> now < s.purges[gone].deleteAfter
  {
    if slot: Slot :| slot in s.rows && slot.env == env && slot !in s.backed {
      assert slot.id in (if slot.Attachment? then PendingAttachments(s, env) else PendingDocuments(s, env));
    }
    if id :| id in s.tombstones && s.tombstones[id].env == env && s.tombstones[id].deleteAfter <= now {
      assert id in DueTombstones(s, env, now);
    }
    if gone :| gone in s.purges && s.purges[gone].deleteAfter <= now {
      assert gone in DuePurges(s, now);
    }
  }

  /**
   * What enters the queues and when: a row is pending from its insertion on, a
   * tombstone is due from the end of the grace period it was given, and so is the
   * purge of an environment, with no attempt counted yet.
   */
  lemma EntersQueues(listing: Listing, s: Durable, a: AppStep, now: int)
    requires Safe(listing, s) && AppAllowed(listing, s, a)
    ensures a.InsertRows? ==> forall slot :: slot in a.rows ==>
              slot.id in (if slot.Attachment? then PendingAttachments(AppApply(s, a), slot.env)
                          else PendingDocuments(AppApply(s, a), slot.env))
    ensures a.DeleteRows? ==> forall id :: id in a.tombstones ==>
              (id in DueTombstones(AppApply(s, a), a.tombstones[id].env, now) <==> a.tombstones[id].deleteAfter <= now)
    ensures a.DestroyEnvironment? ==>
              && a.env in AppApply(s, a).purges && AppApply(s, a).purges[a.env].attempts == 0
              && (a.env in DuePurges(AppApply(s, a), now) <==> a.deleteAfter <= now)
              && PendingDocuments(AppApply(s, a), a.env) == PendingAttachments(AppApply(s, a), a.env) == {}
  {
  }

  /** Nothing ever changes the terms of a tombstone or a purge: attempts are counted, and the grace period stays. */
  lemma TermsStay(listing: Listing, s: Durable, e: Effect)
    requires Safe(listing, s) && Allowed(listing, s, e)
    ensures forall id :: id in s.tombstones && id in Apply(s, e).tombstones ==>
              Apply(s, e).tombstones[id] == s.tombstones[id].(attempts := Apply(s, e).tombstones[id].attempts)
    ensures forall env :: env in s.purges && env in Apply(s, e).purges ==>
              Apply(s, e).purges[env].deleteAfter == s.purges[env].deleteAfter
  {
    if e.App? && e.step.DestroyEnvironment? {
      assert Reaches(listing, e.step.env, e.step.env);
    }
  }

  // ----- what others may do between two operations

  /** Rows and tombstones are never reused, and what was answered for stays so. */
  ghost predicate Grows(listing: Listing, s: Durable, s': Durable) {
    && s.issuedSlots <= s'.issuedSlots && s.issuedTombstones <= s'.issuedTombstones
    && s.purges.Keys <= s'.purges.Keys
    && (forall slot :: slot in s.issuedSlots && slot in s'.rows ==> slot in s.rows && s'.rows[slot] == s.rows[slot])
    && (forall id :: id in s.issuedTombstones && id in s'.tombstones ==>
          id in s.tombstones && s'.tombstones[id].key == s.tombstones[id].key)
    && (forall id :: id in s.tombstones ==> Held(listing, s', id, s.tombstones[id].key))
    && (forall key :: Answered(s, key) ==> Answered(s', key))
  }

  /** The tombstone is still there, or its whole environment is about to be purged. */
  ghost predicate Held(listing: Listing, s: Durable, id: string, key: string) {
    (id in s.tombstones && s.tombstones[id].key == key) || Purging(listing, s, key)
  }

  lemma HeldGrows(listing: Listing, s: Durable, s': Durable, id: string, key: string)
    requires Grows(listing, s, s') && Held(listing, s, id, key)
    ensures Held(listing, s', id, key)
  {
    if Purging(listing, s, key) {
      var env :| env in s.purges && Lists(listing, env, key);
      assert env in s'.purges;
    }
  }

  lemma GrowsItself(listing: Listing, s: Durable)
    ensures Grows(listing, s, s)
  {
  }

  lemma GrowsTransitive(listing: Listing, a: Durable, b: Durable, c: Durable)
    requires Grows(listing, a, b) && Grows(listing, b, c)
    ensures Grows(listing, a, c)
  {
    forall id | id in a.tombstones ensures Held(listing, c, id, a.tombstones[id].key) {
      HeldGrows(listing, b, c, id, a.tombstones[id].key);
    }
  }

  lemma AppGrows(listing: Listing, s: Durable, a: AppStep)
    requires Safe(listing, s) && AppAllowed(listing, s, a)
    ensures Grows(listing, s, AppApply(s, a)) && AppApply(s, a).dest == s.dest
  {
    var s' := AppApply(s, a);
    forall key | Answered(s, key) ensures Answered(s', key) { AppAnswered(listing, s, a, key); }
    forall id | id in s.tombstones ensures Held(listing, s', id, s.tombstones[id].key) {
      if a.DestroyEnvironment? && s.tombstones[id].env == a.env {
        UnderIsListed(listing, a.env, s.tombstones[id].key);
        assert a.env in s'.purges;
      }
    }
  }

  lemma EffectAnswered(s: Durable, e: Effect, key: string)
    requires e.Upload? || e.MarkBacked? || e.DeleteObject? || e.BumpTombstone? || e.BumpPurge?
    ensures Answered(s, key) ==> Answered(Apply(s, e), key)
  {
    if e.BumpTombstone? || e.BumpPurge? { BumpCovered(s, e, key); }
  }

  lemma EffectKeeps(s: Durable, e: Effect)
    requires e.Upload? || e.MarkBacked? || e.DeleteObject? || e.BumpTombstone? || e.BumpPurge?
    ensures var s' := Apply(s, e);
            && s'.rows == s.rows && s'.issuedSlots == s.issuedSlots && s'.issuedTombstones == s.issuedTombstones
            && s'.purges.Keys == s.purges.Keys && s'.tombstones.Keys == s.tombstones.Keys
            && forall id :: id in s.tombstones ==> s'.tombstones[id].key == s.tombstones[id].key
  {
  }

  /** The effects of the job that keep all rows of both queues. */
  lemma EffectGrows(listing: Listing, s: Durable, e: Effect)
    requires e.Upload? || e.MarkBacked? || e.DeleteObject? || e.BumpTombstone? || e.BumpPurge?
    ensures Grows(listing, s, Apply(s, e))
  {
    hide Answered, Apply, Purging;
    EffectKeeps(s, e);
    forall key ensures Answered(s, key) ==> Answered(Apply(s, e), key) {
      EffectAnswered(s, e, key);
    }
  }

  /** The id of a tombstone that was selected, with the key it was selected with. */
  ghost predicate Tracked(listing: Listing, s: Durable, w: KeyedWork) {
    && w.id in s.issuedTombstones
    && (w.id in s.tombstones ==> s.tombstones[w.id].key == w.storageKey)
    && Held(listing, s, w.id, w.storageKey)
  }

  lemma TrackedGrows(listing: Listing, s: Durable, s': Durable)
    requires Grows(listing, s, s')
    ensures forall w: KeyedWork :: Tracked(listing, s, w) ==> Tracked(listing, s', w)
  {
    forall w: KeyedWork | Tracked(listing, s, w) ensures Tracked(listing, s', w) {
      HeldGrows(listing, s, s', w.id, w.storageKey);
    }
  }

  /** The document was selected with what the catalog says of it. */
  ghost predicate Selected(s: Durable, env: string, d: DocumentWork) {
    && (d.needsMain <==> Main(env, d.id) in s.rows && Main(env, d.id) !in s.backed)
    && (d.needsMain ==> s.rows[Main(env, d.id)] == d.folderPath)
    && (d.needsThumbnail <==> Thumbnail(env, d.id) in s.rows && Thumbnail(env, d.id) !in s.backed)
    && (d.needsThumbnail ==> d.thumbnailPath == Some(s.rows[Thumbnail(env, d.id)]))
  }

  ghost predicate SelectedAttachment(s: Durable, env: string, w: KeyedWork) {
    var slot := Attachment(env, w.id);
    slot in s.rows && slot !in s.backed && s.rows[slot] == w.storageKey
  }

  /** The catalog columns of these documents and attachments. */
  function SlotsOf(s: Durable, env: string, docs: set<string>, attachments: set<string>): set<Slot> {
    set slot | slot in s.rows && slot.env == env && slot.id in (if slot.Attachment? then attachments else docs)
  }

  /** Nothing but the destination and the backup columns has changed. */
  ghost predicate OnlyBacked(s: Durable, s': Durable) {
    s' == s.(dest := s'.dest, backed := s'.backed)
  }

  function Ids(r: seq<string>): set<string> {
    set x | x in r
  }

  function DocIds(r: seq<DocumentWork>): set<string> {
    set d | d in r :: d.id
  }

  function WorkIds(r: seq<KeyedWork>): set<string> {
    set w | w in r :: w.id
  }

  ghost predicate DistinctDocs(docs: seq<DocumentWork>) {
    forall i, j :: 0 <= i < j < |docs| ==> docs[i].id != docs[j].id
  }

  lemma DisjointSize<T>(a: set<T>, b: set<T>)
    requires a !! b
    ensures |a + b| == |a| + |b|
  {
  }

  lemma DocIdsSnoc(docs: seq<DocumentWork>, i: nat)
    requires i < |docs| && DistinctDocs(docs)
    ensures DocIds(docs[..i + 1]) == DocIds(docs[..i]) + {docs[i].id} && docs[i].id !in DocIds(docs[..i])
  {
    assert docs[..i + 1] == docs[..i] + [docs[i]];
  }

  lemma WorkIdsSnoc(work: seq<KeyedWork>, i: nat)
    requires i < |work| && DistinctWork(work)
    ensures WorkIds(work[..i + 1]) == WorkIds(work[..i]) + {work[i].id} && work[i].id !in WorkIds(work[..i])
  {
    assert work[..i + 1] == work[..i] + [work[i]];
  }

  lemma OneMoreDocument(s: Durable, env: string, done: set<string>, d: DocumentWork)
    requires d.id !in done && Selected(s, env, d)
    ensures WorkSlots(env, d) !! s.backed + SlotsOf(s, env, done, {})
    ensures s.backed + SlotsOf(s, env, done, {}) + WorkSlots(env, d) == s.backed + SlotsOf(s, env, done + {d.id}, {})
  {
  }

  lemma OneMoreAttachment(s: Durable, env: string, done: set<string>, w: KeyedWork)
    requires w.id !in done && SelectedAttachment(s, env, w)
    ensures Attachment(env, w.id) !in s.backed + SlotsOf(s, env, {}, done)
    ensures s.backed + SlotsOf(s, env, {}, done) + {Attachment(env, w.id)}
         == s.backed + SlotsOf(s, env, {}, done + {w.id})
  {
  }

  /** The work on one more document marks new columns, and exactly those of that document. */
  lemma NextDocument(s: Durable, env: string, docs: seq<DocumentWork>, i: nat)
    requires i < |docs| && DistinctDocs(docs) && Selected(s, env, docs[i])
    ensures var done := s.backed + SlotsOf(s, env, DocIds(docs[..i]), {});
            var work := WorkSlots(env, docs[i]);
            && done + work == s.backed + SlotsOf(s, env, DocIds(docs[..i + 1]), {})
            && |done + work| == |done| + WorkSize(docs[i])
  {
    DocIdsSnoc(docs, i);
    OneMoreDocument(s, env, DocIds(docs[..i]), docs[i]);
    DisjointSize(s.backed + SlotsOf(s, env, DocIds(docs[..i]), {}), WorkSlots(env, docs[i]));
  }

  lemma NextAttachment(s: Durable, env: string, work: seq<KeyedWork>, i: nat)
    requires i < |work| && DistinctWork(work) && SelectedAttachment(s, env, work[i])
    ensures var done := s.backed + SlotsOf(s, env, {}, WorkIds(work[..i]));
            var slot := Attachment(env, work[i].id);
            && done + {slot} == s.backed + SlotsOf(s, env, {}, WorkIds(work[..i + 1]))
            && |done + {slot}| == |done| + 1
  {
    WorkIdsSnoc(work, i);
    OneMoreAttachment(s, env, WorkIds(work[..i]), work[i]);
  }

  // ----- progress

  /** Each queue of the tenant has lost one batch. */
  ghost predicate TenantProgress(s: Durable, s': Durable, env: string, now: int, limit: nat) {
    && BatchDone(PendingDocuments(s, env), PendingDocuments(s', env), limit)
    && BatchDone(PendingAttachments(s, env), PendingAttachments(s', env), limit)
    && BatchDone(DueTombstones(s, env, now), DueTombstones(s', env, now), limit)
  }

  ghost predicate BatchDone(before: set<string>, after: set<string>, limit: nat) {
    after <= before && |after| == |before| - Min(limit, |before|)
  }

  ghost predicate SameQueues(s: Durable, s': Durable, env: string, now: int) {
    && PendingDocuments(s', env) == PendingDocuments(s, env)
    && PendingAttachments(s', env) == PendingAttachments(s, env)
    && DueTombstones(s', env, now) == DueTombstones(s, env, now)
  }

  lemma RowIsAnswered(s: Durable, slot: Slot, key: string)
    requires slot in s.rows && s.rows[slot] == key
    ensures Answered(s, key)
  {
    assert key in s.rows.Values;
  }

  /** A row that is still there has the key it had. */
  lemma RowGrows(listing: Listing, s: Durable, s': Durable, slot: Slot)
    requires Safe(listing, s) && Grows(listing, s, s') && slot in s.rows
    ensures slot in s'.issuedSlots && (slot in s'.rows ==> s'.rows[slot] == s.rows[slot])
  {
  }

  lemma StillAnswered(listing: Listing, s: Durable, s': Durable, key: string)
    requires Grows(listing, s, s') && Answered(s, key)
    ensures Answered(s', key)
  {
  }

  /** When a run comes to each tenant: the clock is read anew for each. */
  type Clock = string -> int

  /** Of the tenants those still to come are as they were, and the good ones have lost one batch of each queue. */
  ghost predicate RunProgress(s: Durable, s': Durable, rest: set<string>, good: set<string>, clock: Clock, limit: nat) {
    && (forall tenant :: tenant in s.live && tenant in rest ==> SameQueues(s, s', tenant, clock(tenant)))
    && (forall tenant :: tenant in s.live && tenant in good ==> TenantProgress(s, s', tenant, clock(tenant), limit))
  }

  lemma NoProgressYet(s: Durable, clock: Clock, limit: nat)
    ensures RunProgress(s, s, s.live, {}, clock, limit)
  {
  }

  lemma RunStep(s0: Durable, s1: Durable, s2: Durable, rest: set<string>, good: set<string>, tenant: string, fine: bool,
                clock: Clock, limit: nat)
    requires RunProgress(s0, s1, rest, good, clock, limit) && tenant in rest && tenant !in good
    requires fine ==> TenantProgress(s1, s2, tenant, clock(tenant), limit)
    requires forall other, at :: other != tenant ==> SameQueues(s1, s2, other, at)
    ensures RunProgress(s0, s2, rest - {tenant}, if fine then good + {tenant} else good, clock, limit)
  {
    forall other | other in s0.live && other in rest - {tenant} ensures SameQueues(s0, s2, other, clock(other)) {
      assert SameQueues(s1, s2, other, clock(other));
    }
    forall other | other in s0.live && other in good ensures TenantProgress(s0, s2, other, clock(other), limit) {
      assert SameQueues(s1, s2, other, clock(other));
    }
  }

  lemma PurgesApart(s0: Durable, s1: Durable, s2: Durable, rest: set<string>, good: set<string>, clock: Clock,
                    limit: nat)
    requires RunProgress(s0, s1, rest, good, clock, limit) && s2 == s1.(dest := s2.dest, purges := s2.purges)
    ensures RunProgress(s0, s2, rest, good, clock, limit)
  {
  }

  /** Nothing but the destination has changed. */
  ghost predicate OnlyDest(s: Durable, s': Durable) {
    s' == s.(dest := s'.dest)
  }

  function ListedIn(listing: Listing, dest: set<string>, gone: string): set<string> {
    set key | key in dest && Lists(listing, gone, key)
  }

  lemma NothingListed(listing: Listing, dest: set<string>, gone: string)
    requires ListedIn(listing, dest, gone) == {}
    ensures forall key :: key in dest ==> !Lists(listing, gone, key)
  {
    assert forall key :: key in dest && Lists(listing, gone, key) ==> key in ListedIn(listing, dest, gone);
  }

  lemma StaysQueued(listing: Listing, s0: Durable, s: Durable, gone: string, key: string)
    requires Grows(listing, s0, s) && gone in s0.purges && Lists(listing, gone, key)
    ensures gone in s.purges && Purging(listing, s, key)
  {
  }

  lemma BackedProgress(s: Durable, s': Durable, env: string, docs: set<string>, attachments: set<string>)
    requires OnlyBacked(s, s') && s'.backed == s.backed + SlotsOf(s, env, docs, attachments)
    ensures PendingDocuments(s', env) == PendingDocuments(s, env) - docs
    ensures PendingAttachments(s', env) == PendingAttachments(s, env) - attachments
    ensures forall other :: other != env ==> PendingDocuments(s', other) == PendingDocuments(s, other)
    ensures forall other :: other != env ==> PendingAttachments(s', other) == PendingAttachments(s, other)
    ensures forall other, now :: DueTombstones(s', other, now) == DueTombstones(s, other, now)
  {
    forall other | other != env
      ensures PendingDocuments(s', other) == PendingDocuments(s, other)
      ensures PendingAttachments(s', other) == PendingAttachments(s, other)
    {
      assert forall slot: Slot :: slot.env == other ==> (slot in s'.backed <==> slot in s.backed);
    }
  }

  lemma TombstoneProgress(s: Durable, s': Durable, env: string, ids: set<string>, now: int)
    requires s' == s.(dest := s'.dest, tombstones := s.tombstones - ids) && ids <= DueTombstones(s, env, now)
    ensures DueTombstones(s', env, now) == DueTombstones(s, env, now) - ids
    ensures forall other, at :: other != env ==> DueTombstones(s', other, at) == DueTombstones(s, other, at)
    ensures forall other :: PendingDocuments(s', other) == PendingDocuments(s, other)
    ensures forall other :: PendingAttachments(s', other) == PendingAttachments(s, other)
  {
    forall other, at | other != env ensures DueTombstones(s', other, at) == DueTombstones(s, other, at) {
      assert forall id :: id in DueTombstones(s, other, at) ==> id !in ids;
    }
  }

  lemma Removed(before: set<string>, taken: set<string>, n: nat, limit: nat)
    requires taken <= before && |taken| == n == Min(limit, |before|)
    ensures BatchDone(before, before - taken, limit)
  {
    DisjointSize(before - taken, taken);
    assert before - taken + taken == before;
  }

  lemma DocIdsSize(docs: seq<DocumentWork>)
    requires DistinctDocs(docs)
    ensures |DocIds(docs)| == |docs|
  {
    if docs != [] {
      var n := |docs| - 1;
      DocIdsSnoc(docs, n);
      assert docs[..n + 1] == docs;
      DocIdsSize(docs[..n]);
    }
  }

  lemma IdsSize(r: seq<string>)
    requires Distinct(r)
    ensures |Ids(r)| == |r|
  {
    if r != [] {
      var n := |r| - 1;
      assert r == r[..n] + [r[n]];
      assert Ids(r) == Ids(r[..n]) + {r[n]};
      IdsSize(r[..n]);
    }
  }

  lemma WorkIdsSize(work: seq<KeyedWork>)
    requires DistinctWork(work)
    ensures |WorkIds(work)| == |work|
  {
    if work != [] {
      var n := |work| - 1;
      WorkIdsSnoc(work, n);
      assert work[..n + 1] == work;
      WorkIdsSize(work[..n]);
    }
  }

  lemma TenantDone(s0: Durable, s1: Durable, s2: Durable, s3: Durable, env: string, now: int, limit: nat,
                   docs: seq<DocumentWork>, attachments: seq<KeyedWork>, due: seq<KeyedWork>)
    requires DistinctDocs(docs) && DistinctWork(attachments) && DistinctWork(due)
    requires |docs| == Min(limit, |PendingDocuments(s0, env)|) && DocIds(docs) <= PendingDocuments(s0, env)
    requires OnlyBacked(s0, s1) && s1.backed == s0.backed + SlotsOf(s0, env, DocIds(docs), {})
    requires |attachments| == Min(limit, |PendingAttachments(s1, env)|)
    requires WorkIds(attachments) <= PendingAttachments(s1, env)
    requires OnlyBacked(s1, s2) && s2.backed == s1.backed + SlotsOf(s1, env, {}, WorkIds(attachments))
    requires |due| == Min(limit, |DueTombstones(s2, env, now)|) && WorkIds(due) <= DueTombstones(s2, env, now)
    requires s3 == s2.(dest := s3.dest, tombstones := s2.tombstones - WorkIds(due))
    ensures TenantProgress(s0, s3, env, now, limit)
    ensures forall other, at :: other != env ==> SameQueues(s0, s3, other, at)
  {
    BackedProgress(s0, s1, env, DocIds(docs), {});
    BackedProgress(s1, s2, env, {}, WorkIds(attachments));
    TombstoneProgress(s2, s3, env, WorkIds(due), now);
    DocIdsSize(docs);
    WorkIdsSize(attachments);
    WorkIdsSize(due);
    Removed(PendingDocuments(s0, env), DocIds(docs), |docs|, limit);
    Removed(PendingAttachments(s0, env), WorkIds(attachments), |attachments|, limit);
    Removed(DueTombstones(s0, env, now), WorkIds(due), |due|, limit);
  }

  /** The columns of these documents, as the catalog has them. */
  method ReadDocuments(s: Durable, tenant: string, ids: seq<string>) returns (docs: seq<DocumentWork>)
    requires Distinct(ids)
    ensures DocumentIds(docs) == ids && DistinctDocs(docs) && |docs| == |ids|
    ensures forall d :: d in docs ==> d.id in ids && Selected(s, tenant, d)
  {
    docs := [];
    var i := 0;
    while i < |ids|
      invariant 0 <= i == |docs| <= |ids|
      invariant forall j :: 0 <= j < i ==> docs[j].id == ids[j] && Selected(s, tenant, docs[j])
    {
      var main, thumbnail := Main(tenant, ids[i]), Thumbnail(tenant, ids[i]);
      docs := docs + [DocumentWork(
        ids[i],
        if main in s.rows then s.rows[main] else "",
        if thumbnail in s.rows then Some(s.rows[thumbnail]) else None,
        main in s.rows && main !in s.backed,
        thumbnail in s.rows && thumbnail !in s.backed)];
      i := i + 1;
    }
    assert DocumentIds(docs) == ids;
  }

  method ReadAttachments(s: Durable, tenant: string, ids: seq<string>) returns (work: seq<KeyedWork>)
    requires Distinct(ids) && forall id :: id in ids ==> id in PendingAttachments(s, tenant)
    ensures KeyedIds(work) == ids && DistinctWork(work) && |work| == |ids|
    ensures forall w :: w in work ==> w.id in ids && SelectedAttachment(s, tenant, w)
  {
    work := [];
    var i := 0;
    while i < |ids|
      invariant 0 <= i == |work| <= |ids|
      invariant forall j :: 0 <= j < i ==> work[j].id == ids[j] && SelectedAttachment(s, tenant, work[j])
    {
      assert ids[i] in PendingAttachments(s, tenant);
      work := work + [KeyedWork(ids[i], s.rows[Attachment(tenant, ids[i])])];
      i := i + 1;
    }
    assert KeyedIds(work) == ids;
  }

  method ReadTombstones(listing: Listing, s: Durable, ids: seq<string>) returns (work: seq<KeyedWork>)
    requires Safe(listing, s) && Distinct(ids) && forall id :: id in ids ==> id in s.tombstones
    ensures KeyedIds(work) == ids && DistinctWork(work) && |work| == |ids|
    ensures forall w :: w in work ==> w.id in ids && Tracked(listing, s, w)
  {
    work := [];
    var i := 0;
    while i < |ids|
      invariant 0 <= i == |work| <= |ids|
      invariant forall j :: 0 <= j < i ==> work[j].id == ids[j] && Tracked(listing, s, work[j])
    {
      work := work + [KeyedWork(ids[i], s.tombstones[ids[i]].key)];
      i := i + 1;
    }
    assert KeyedIds(work) == ids;
  }
}
