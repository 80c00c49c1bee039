/**
 * The backup job itself: phases A, B and C of jobs/object-storage-backup.job.ts
 * with the helpers of services/object-backup/.  Every call takes one tick, and
 * `Environment` says for each what happens before it and what becomes of it.
 */
module ObjectBackupJob {
  import opened Wrappers
  import opened ObjectBackup
  import opened BackupCalls
  import opened BackupQueues
  import opened BackupVisits
  import opened BackupRuns

  class BackupJob {
    const listing: Listing
    const env: Environment
    const batchLimit: nat
    ghost const start: Durable
    var s: Durable
    var aborted: bool
    var tick: nat
    ghost var log: seq<Effect>

    /** The state is what the log makes of the start, and the log kept the protocol. */
    ghost predicate Valid()
      reads this
    {
      Safe(listing, start) && Replay(listing, start, log) == Some(s)
    }

    /** The calls from tick a on have been made, and the lock is lost if it was or if it went on the way. */
    ghost predicate Since(a: nat, was: bool)
      reads this
    {
      a <= tick && aborted == (was || env.LostIn(a, tick))
    }

    constructor (listing: Listing, env: Environment, batchLimit: nat, s: Durable)
      requires Safe(listing, s)
      ensures Valid() && this.listing == listing && this.env == env && this.batchLimit == batchLimit
      ensures this.s == s && !aborted && log == [] && tick == 0
    {
      this.listing, this.env, this.batchLimit := listing, env, batchLimit;
      this.start, this.s, this.aborted, this.tick, this.log := s, s, false, 0, [];
    }

    lemma StateIsSafe()
      requires Valid()
      ensures Safe(listing, s)
    {
      EveryCrashPointSafe(listing, start, log);
    }

    lemma ReplayExtends(e: Effect)
      requires Valid() && Allowed(listing, s, e)
      ensures Replay(listing, start, log + [e]) == Some(Apply(s, e))
    {
      assert (log + [e])[..|log|] == log;
    }

    /** What holds after one stretch of calls and then another. */
    lemma Onward(a: nat, was: bool, b: nat, lost: bool)
      requires a <= b && lost == (was || env.LostIn(a, b)) && Since(b, lost)
      ensures Since(a, was)
      ensures env.Calm(a, tick) <==> env.Calm(a, b) && env.Calm(b, tick)
      ensures env.AllOk(a, tick) <==> env.AllOk(a, b) && env.AllOk(b, tick)
      ensures env.Fine(a, tick) <==> env.Fine(a, b) && env.Fine(b, tick)
    {
      env.Joined(a, b, tick);
    }

    /** In front of a call the application runs its transactions, and the lock timer may fire. */
    method Pause()
      requires Valid()
      modifies this`s, this`aborted, this`log
      ensures Valid() && Grows(listing, old(s), s) && s.dest == old(s).dest && old(log) <= log
      ensures env.app(tick) == [] ==> s == old(s)
      ensures aborted == (old(aborted) || env.lockLost(tick))
    {
      var steps := env.app(tick);
      var i := 0;
      while i < |steps|
        invariant 0 <= i <= |steps|
        invariant Valid() && Grows(listing, old(s), s) && s.dest == old(s).dest && old(log) <= log
        invariant steps == [] ==> s == old(s)
        invariant aborted == old(aborted)
      {
        if AppAllowed(listing, s, steps[i]) {
          StateIsSafe();
          AppGrows(listing, s, steps[i]);
          GrowsTransitive(listing, old(s), s, AppApply(s, steps[i]));
          ReplayExtends(App(steps[i]));
          log := log + [App(steps[i])];
          s := AppApply(s, steps[i]);
        }
        i := i + 1;
      }
      if env.lockLost(tick) {
        aborted := true;
      }
    }

    /** A call begins: what happens before it has happened, and its tick is taken. */
    method Begin() returns (t: nat)
      requires Valid()
      modifies this`s, this`aborted, this`log, this`tick
      ensures Valid() && Grows(listing, old(s), s) && s.dest == old(s).dest && old(log) <= log
      ensures t == old(tick) && tick == t + 1 && Since(t, old(aborted))
      ensures env.Calm(t, tick) ==> s == old(s)
    {
      Pause();
      t := tick;
      env.Single(t);
      tick := tick + 1;
    }

    /** An effect that the protocol allows takes place. */
    method Perform(e: Effect)
      requires Valid() && Allowed(listing, s, e)
      modifies this`s, this`log
      ensures Valid() && s == Apply(old(s), e) && log == old(log) + [e]
    {
      ReplayExtends(e);
      log := log + [e];
      s := Apply(s, e);
    }

    // ----- the helpers

    method CopyObject(key: string) returns (bytes: Option<nat>)
      requires Valid() && Answered(s, key)
      modifies this
      ensures Valid() && Grows(listing, old(s), s) && old(log) <= log && old(s).dest <= s.dest
      ensures tick == old(tick) + 1 && Since(old(tick), old(aborted))
      ensures bytes == if env.Ok(old(tick)) then Some(env.bytes(old(tick))) else None
      ensures bytes.Some? ==> key in s.dest
      ensures env.Calm(old(tick), tick) ==> s == if env.Took(old(tick)) then Apply(old(s), Upload(key)) else old(s)
    {
      var t := Begin();
      if env.Took(t) {
        EffectGrows(listing, s, Upload(key));
        GrowsTransitive(listing, old(s), s, Apply(s, Upload(key)));
        Perform(Upload(key));
      }
      bytes := if env.Ok(t) then Some(env.bytes(t)) else None;
    }

    /** Needs the upload to have been confirmed. */
    method MarkBackedUp(slot: Slot, ghost key: string) returns (ok: bool)
      requires Valid() && slot in s.issuedSlots && key in s.dest
      requires slot in s.rows ==> s.rows[slot] == key
      modifies this
      ensures Valid() && Grows(listing, old(s), s) && old(log) <= log && old(s).dest == s.dest
      ensures tick == old(tick) + 1 && Since(old(tick), old(aborted)) && ok == env.Ok(old(tick))
      ensures ok && slot in s.rows ==> slot in s.backed
      ensures env.Calm(old(tick), tick) ==> s == if env.Took(old(tick)) then Apply(old(s), MarkBacked(slot)) else old(s)
    {
      var t := Begin();
      if env.Took(t) {
        EffectGrows(listing, s, MarkBacked(slot));
        GrowsTransitive(listing, old(s), s, Apply(s, MarkBacked(slot)));
        Perform(MarkBacked(slot));
      }
      ok := env.Ok(t);
    }

    /** A missing object counts as purged. */
    method PurgeBackupObject(key: string, ghost id: string) returns (ok: bool)
      requires Valid() && Held(listing, s, id, key)
      modifies this
      ensures Valid() && Grows(listing, old(s), s) && old(log) <= log && s.dest <= old(s).dest
      ensures tick == old(tick) + 1 && Since(old(tick), old(aborted)) && ok == env.Ok(old(tick))
      ensures ok ==> key !in s.dest
      ensures env.Calm(old(tick), tick) ==>
                s == if env.Took(old(tick)) then Apply(old(s), DeleteObject(key)) else old(s)
    {
      var t := Begin();
      HeldGrows(listing, old(s), s, id, key);
      if env.Took(t) {
        EffectGrows(listing, s, DeleteObject(key));
        GrowsTransitive(listing, old(s), s, Apply(s, DeleteObject(key)));
        Perform(DeleteObject(key));
      }
      ok := env.Ok(t);
    }

    method MarkTombstonePurged(w: KeyedWork) returns (ok: bool)
      requires Valid() && Tracked(listing, s, w) && w.storageKey !in s.dest
      modifies this
      ensures Valid() && old(log) <= log
      ensures tick == old(tick) + 1 && Since(old(tick), old(aborted)) && ok == env.Ok(old(tick))
      ensures forall other: KeyedWork :: other.id != w.id && Tracked(listing, old(s), other) ==>
                Tracked(listing, s, other)
      ensures env.Calm(old(tick), tick) ==>
                s == if env.Took(old(tick)) then Apply(old(s), DropTombstone(w.id)) else old(s)
    {
      var t := Begin();
      TrackedGrows(listing, old(s), s);
      if env.Took(t) {
        Perform(DropTombstone(w.id));
      }
      ok := env.Ok(t);
    }

    method BumpAttempts(e: Effect) returns (ok: bool)
      requires Valid() && (e.BumpTombstone? || e.BumpPurge?)
      modifies this
      ensures Valid() && Grows(listing, old(s), s) && old(log) <= log && s.dest == old(s).dest
      ensures tick == old(tick) + 1 && Since(old(tick), old(aborted)) && ok == env.Ok(old(tick))
      ensures ok ==> exists before :: Grows(listing, old(s), before) && s == Apply(before, e)
      ensures env.Calm(old(tick), tick) ==> s == if env.Took(old(tick)) then Apply(old(s), e) else old(s)
    {
      var t := Begin();
      if env.Took(t) {
        EffectGrows(listing, s, e);
        GrowsTransitive(listing, old(s), s, Apply(s, e));
        Perform(e);
      }
      ok := env.Ok(t);
    }

    /** A query: it reads the state that it finds. */
    method Query() returns (ok: bool)
      requires Valid()
      modifies this
      ensures Valid() && Grows(listing, old(s), s) && old(log) <= log && s.dest == old(s).dest
      ensures tick == old(tick) + 1 && Since(old(tick), old(aborted)) && ok == env.Ok(old(tick))
      ensures env.Calm(old(tick), tick) ==> s == old(s)
    {
      var t := Begin();
      ok := env.Ok(t);
    }

    method SelectUnbackedDocuments(tenant: string) returns (r: Option<seq<DocumentWork>>)
      requires Valid()
      modifies this
      ensures Valid() && old(log) <= log
      ensures tick == old(tick) + 1 && Since(old(tick), old(aborted)) && (r.Some? <==> env.Ok(old(tick)))
      ensures env.Calm(old(tick), tick) ==> s == old(s)
      ensures r.Some? ==> ChosenDocuments(s, tenant, batchLimit, r.value)
    {
      var ok := Query();
      if !ok { return None; }
      var ids := Take(PendingDocuments(s, tenant), batchLimit, DocumentAge(s, tenant));
      hide OldestFirst, Selected, PendingDocuments;
      var docs := ReadDocuments(s, tenant, ids);
      return Some(docs);
    }

    method SelectUnbackedAttachments(tenant: string) returns (r: Option<seq<KeyedWork>>)
      requires Valid()
      modifies this
      ensures Valid() && old(log) <= log
      ensures tick == old(tick) + 1 && Since(old(tick), old(aborted)) && (r.Some? <==> env.Ok(old(tick)))
      ensures env.Calm(old(tick), tick) ==> s == old(s)
      ensures r.Some? ==> ChosenAttachments(s, tenant, batchLimit, r.value)
    {
      var ok := Query();
      if !ok { return None; }
      var ids := Take(PendingAttachments(s, tenant), batchLimit, AttachmentAge(s, tenant));
      hide OldestFirst, SelectedAttachment, PendingAttachments;
      var work := ReadAttachments(s, tenant, ids);
      return Some(work);
    }

    method SelectDueTombstones(tenant: string, now: int) returns (r: Option<seq<KeyedWork>>)
      requires Valid()
      modifies this
      ensures Valid() && old(log) <= log
      ensures tick == old(tick) + 1 && Since(old(tick), old(aborted)) && (r.Some? <==> env.Ok(old(tick)))
      ensures env.Calm(old(tick), tick) ==> s == old(s)
      ensures r.Some? ==>
                && ChosenTombstones(s, tenant, now, batchLimit, r.value)
                && (forall w :: w in r.value ==> Tracked(listing, s, w))
    {
      var ok := Query();
      if !ok { return None; }
      StateIsSafe();
      var ids := Take(DueTombstones(s, tenant, now), batchLimit, TombstoneAge(s));
      hide OldestFirst, Tracked, Safe;
      var work := ReadTombstones(listing, s, ids);
      return Some(work);
    }

    // ----- phase A

    /** Copies one object and marks its column; `bytes` counts the copy even when the mark fails. */
    method CopyThenMark(slot: Slot, key: string, ghost s0: Durable) returns (bytes: nat, ok: bool)
      requires Valid() && Safe(listing, s0) && Grows(listing, s0, s) && slot in s0.rows && s0.rows[slot] == key
      modifies this
      ensures Valid() && Grows(listing, s0, s) && old(log) <= log
      ensures tick == old(tick) + CopyCalls(env, old(tick)) && Since(old(tick), old(aborted))
      ensures ok == Confirmed(env, old(tick)) && bytes == CopyBytes(env, old(tick))
      ensures env.Calm(old(tick), tick) && slot in old(s).rows ==>
                Marked(old(s), s, if SecondTook(env, old(tick)) then {slot} else {})
    {
      hide Valid, Grows, Safe, Answered;
      hide Environment.LostIn, Environment.AllOk, Environment.Fine, Environment.Calm;
      RowIsAnswered(s0, slot, key);
      StillAnswered(listing, s0, s, key);
      ghost var s1 := s;
      var copy := CopyObject(key);
      GrowsTransitive(listing, s0, s1, s);
      if copy.None? {
        return 0, false;
      }
      bytes := copy.value;
      ghost var s2, b, lost := s, tick, aborted;
      RowGrows(listing, s0, s, slot);
      ok := MarkBackedUp(slot, key);
      GrowsTransitive(listing, s0, s2, s);
      Onward(old(tick), old(aborted), b, lost);
    }

    /** A failed main object leaves the thumbnail for another run; a failed thumbnail is not counted. */
    method CopyDocument(tenant: string, d: DocumentWork, ghost s0: Durable)
      returns (copied: nat, bytes: nat, failed: nat)
      requires Valid() && Safe(listing, s0) && Grows(listing, s0, s) && Selected(s0, tenant, d)
      modifies this
      ensures Valid() && Grows(listing, s0, s) && old(log) <= log
      ensures old(tick) <= tick && Since(old(tick), old(aborted))
      ensures DocumentTried(env, tenant, s0.rows, old(s), s, old(tick), tick, d, (copied, bytes, failed))
    {
      hide Safe, Grows, Marked, Valid, Environment.Calm, Environment.LostIn, Environment.AllOk, Environment.Fine;
      ghost var a, was, s1 := tick, aborted, s;
      NothingMarked(s);
      env.Single(a);
      copied, bytes, failed := 0, 0, 0;
      if d.needsMain {
        var n, ok := CopyThenMark(Main(tenant, d.id), d.folderPath, s0);
        bytes := bytes + n;
        if !ok {
          failed := failed + 1;
          assert MainMarks(env, tenant, d, a) + {} == MainMarks(env, tenant, d, a);
          return;
        }
        copied := copied + 1;
      }
      ghost var b, lost, s2 := tick, aborted, s;
      NothingMarked(s);
      env.Single(b);
      if env.Calm(a, b) && s0.rows == s1.rows { MarkedKeeps(s1, s2, MainMarks(env, tenant, d, a)); }
      if d.needsThumbnail && d.thumbnailPath.Some? {
        var _, ok := CopyThenMark(Thumbnail(tenant, d.id), d.thumbnailPath.value, s0);
        if ok {
          copied := copied + 1;
        }
      }
      Onward(a, was, b, lost);
      if env.Calm(a, tick) && s0.rows == s1.rows {
        MarkedJoin(s1, s2, s, MainMarks(env, tenant, d, a), ThumbnailMarks(env, tenant, d, a));
      }
    }

    method CopyDocuments(tenant: string, docs: seq<DocumentWork>)
      returns (copied: nat, bytes: nat, failed: nat, ghost n: nat)
      requires Valid() && DistinctDocs(docs) && forall d :: d in docs ==> Selected(s, tenant, d)
      modifies this
      ensures Valid() && old(log) <= log && Since(old(tick), old(aborted))
      ensures DocumentsCopied(env, tenant, old(s), s, old(tick), old(aborted), tick, docs, n, (copied, bytes, failed))
      ensures n < |docs| ==> aborted
    {
      hide Safe, Grows, Selected, DistinctDocs, DocumentsCopied, DocumentTried, Marked, Valid;
      hide Environment.Calm, Environment.LostIn, Environment.AllOk, Environment.Fine;
      StateIsSafe();
      ghost var s0, a, was := s, tick, aborted;
      GrowsItself(listing, s);
      env.Single(a);
      NoDocumentCopied(env, tenant, s, a, was, docs);
      copied, bytes, failed := 0, 0, 0;
      var i: nat := 0;
      while i < |docs|
        invariant i <= |docs| && Valid() && Grows(listing, s0, s) && old(log) <= log && Since(a, was)
        invariant DocumentsCopied(env, tenant, s0, s, a, was, tick, docs, i, (copied, bytes, failed))
      {
        if aborted { break; }
        ghost var b, s1 := tick, s;
        var c, m, f := CopyDocument(tenant, docs[i], s0);
        Onward(a, was, b, false);
        OneMoreDocumentCopied(env, tenant, s0, s1, s, a, was, b, tick, docs, i, (copied, bytes, failed), (c, m, f));
        copied, bytes, failed := copied + c, bytes + m, failed + f;
        i := i + 1;
      }
      n := i;
    }

    method CopyAttachment(tenant: string, w: KeyedWork, ghost s0: Durable)
      returns (copied: nat, bytes: nat, failed: nat)
      requires Valid() && Safe(listing, s0) && Grows(listing, s0, s) && SelectedAttachment(s0, tenant, w)
      modifies this
      ensures Valid() && Grows(listing, s0, s) && old(log) <= log
      ensures old(tick) <= tick && Since(old(tick), old(aborted))
      ensures AttachmentTried(env, tenant, s0.rows, old(s), s, old(tick), tick, w, (copied, bytes, failed))
    {
      var n, ok := CopyThenMark(Attachment(tenant, w.id), w.storageKey, s0);
      if ok {
        return 1, n, 0;
      } else {
        return 0, n, 1;
      }
    }

    method CopyAttachments(tenant: string, work: seq<KeyedWork>)
      returns (copied: nat, bytes: nat, failed: nat, ghost n: nat)
      requires Valid() && DistinctWork(work) && forall w :: w in work ==> SelectedAttachment(s, tenant, w)
      modifies this
      ensures Valid() && old(log) <= log && Since(old(tick), old(aborted))
      ensures AttachmentsCopied(env, tenant, old(s), s, old(tick), old(aborted), tick, work, n, (copied, bytes, failed))
      ensures n < |work| ==> aborted
    {
      hide Safe, Grows, SelectedAttachment, DistinctWork, AttachmentsCopied, AttachmentTried, Marked, Valid;
      hide Environment.Calm, Environment.LostIn, Environment.AllOk, Environment.Fine;
      StateIsSafe();
      ghost var s0, a, was := s, tick, aborted;
      GrowsItself(listing, s);
      env.Single(a);
      NoAttachmentCopied(env, tenant, s, a, was, work);
      copied, bytes, failed := 0, 0, 0;
      var i: nat := 0;
      while i < |work|
        invariant i <= |work| && Valid() && Grows(listing, s0, s) && old(log) <= log && Since(a, was)
        invariant AttachmentsCopied(env, tenant, s0, s, a, was, tick, work, i, (copied, bytes, failed))
      {
        if aborted { break; }
        ghost var b, s1 := tick, s;
        var c, m, f := CopyAttachment(tenant, work[i], s0);
        Onward(a, was, b, false);
        OneMoreAttachmentCopied(env, tenant, s0, s1, s, a, was, b, tick, work, i, (copied, bytes, failed), (c, m, f));
        copied, bytes, failed := copied + c, bytes + m, failed + f;
        i := i + 1;
      }
      n := i;
    }

    // ----- phase B

    /** One tombstone: None when counting the failed attempt throws, otherwise whether it is done. */
    method PurgeOneTombstone(w: KeyedWork) returns (result: Option<bool>)
      requires Valid() && Tracked(listing, s, w)
      modifies this
      ensures Valid() && old(log) <= log && old(tick) <= tick && Since(old(tick), old(aborted))
      ensures TombstoneTried(env, old(s), s, old(tick), tick, w, result)
      ensures forall other: KeyedWork :: other.id != w.id && Tracked(listing, old(s), other) ==>
                Tracked(listing, s, other)
    {
      hide Held, Grows, Valid, Environment.LostIn, Environment.AllOk, Environment.Fine, Environment.Calm;
      ghost var a, was, s0 := tick, aborted, s;
      var ok := PurgeBackupObject(w.storageKey, w.id);
      TrackedGrows(listing, s0, s);
      if ok {
        ghost var b, lost := tick, aborted;
        ok := MarkTombstonePurged(w);
        Onward(a, was, b, lost);
      }
      if ok {
        return Some(true);
      }
      ghost var b, lost, s1 := tick, aborted, s;
      var bumped := BumpAttempts(BumpTombstone(w.id));
      TrackedGrows(listing, s1, s);
      Onward(a, was, b, lost);
      result := if bumped then Some(false) else None;
    }

    /** None when recording a failed purge fails in its turn. */
    method PurgeTombstones(due: seq<KeyedWork>) returns (purged: Option<nat>, ghost n: nat)
      requires Valid() && DistinctWork(due) && forall w :: w in due ==> Tracked(listing, s, w)
      modifies this
      ensures Valid() && old(log) <= log && old(tick) <= tick && Since(old(tick), old(aborted))
      ensures TombstonesTried(env, old(s), s, old(tick), old(aborted), tick, due, n, purged)
      ensures n <= |due| && (n < |due| && purged.Some? ==> aborted)
    {
      hide Tracked, Valid, TombstonesTried, TombstoneTried;
      hide Environment.LostIn, Environment.AllOk, Environment.Fine, Environment.Calm;
      ghost var s0, a, was := s, tick, aborted;
      env.Single(a);
      NoTombstoneTried(env, s, a, was, due);
      var done := 0;
      var i: nat := 0;
      while i < |due|
        invariant i <= |due| && Valid() && old(log) <= log && Since(a, was)
        invariant TombstonesTried(env, s0, s, a, was, tick, due, i, Some(done))
        invariant forall j :: i <= j < |due| ==> Tracked(listing, s, due[j])
      {
        if aborted { break; }
        ghost var b, s1 := tick, s;
        var ok := PurgeOneTombstone(due[i]);
        Onward(a, was, b, false);
        OneMoreTombstoneTried(env, s0, s1, s, a, was, b, tick, due, i, done, ok);
        i := i + 1;
        if ok.None? { return None, i; }
        if ok.value {
          done := done + 1;
        }
      }
      return Some(done), i;
    }

    // ----- one tenant

    method BackupDocuments(tenant: string) returns (r: Option<Tally>, ghost docs: seq<DocumentWork>, ghost n: nat)
      requires Valid()
      modifies this
      ensures Valid() && old(log) <= log && old(tick) < tick && Since(old(tick), old(aborted))
      ensures DocumentsRan(env, old(tick), old(aborted), tick, docs, n, r) && n <= |docs|
      ensures env.Calm(old(tick), tick) ==>
                && DocumentsMarked(env, tenant, old(s), s, old(tick), docs, n)
                && (r.Some? ==> ChosenDocuments(old(s), tenant, batchLimit, docs))
    {
      hide Valid, Marked, DocumentTally, Start, Union, ChosenDocuments;
      hide Environment.LostIn, Environment.AllOk, Environment.Fine, Environment.Calm;
      ghost var a, was, s0 := tick, aborted, s;
      env.Single(a);
      NoDocumentMarked(env, tenant, s, a);
      var chosen := SelectUnbackedDocuments(tenant);
      if chosen.None? { return None, [], 0; }
      ghost var b, lost := tick, aborted;
      docs := chosen.value;
      ChosenDocumentsWork(s, tenant, batchLimit, docs);
      var copied, bytes, failed;
      copied, bytes, failed, n := CopyDocuments(tenant, chosen.value);
      Onward(a, was, b, lost);
      r := Some((copied, bytes, failed));
    }

    method BackupAttachments(tenant: string) returns (r: Option<Tally>, ghost work: seq<KeyedWork>, ghost n: nat)
      requires Valid()
      modifies this
      ensures Valid() && old(log) <= log && old(tick) < tick && Since(old(tick), old(aborted))
      ensures AttachmentsRan(env, old(tick), old(aborted), tick, work, n, r) && n <= |work|
      ensures env.Calm(old(tick), tick) ==>
                && AttachmentsMarked(env, tenant, old(s), s, old(tick), work, n)
                && (r.Some? ==> ChosenAttachments(old(s), tenant, batchLimit, work))
    {
      hide Valid, Marked, AttachmentTally, Start, Union, ChosenAttachments;
      hide Environment.LostIn, Environment.AllOk, Environment.Fine, Environment.Calm;
      ghost var a, was, s0 := tick, aborted, s;
      env.Single(a);
      NoAttachmentMarked(env, tenant, s, a);
      var chosen := SelectUnbackedAttachments(tenant);
      if chosen.None? { return None, [], 0; }
      ghost var b, lost := tick, aborted;
      work := chosen.value;
      ChosenAttachmentsWork(s, tenant, batchLimit, work);
      var copied, bytes, failed;
      copied, bytes, failed, n := CopyAttachments(tenant, chosen.value);
      Onward(a, was, b, lost);
      r := Some((copied, bytes, failed));
    }

    method PurgeDueTombstones(tenant: string, now: int)
      returns (purged: Option<nat>, ghost due: seq<KeyedWork>, ghost n: nat)
      requires Valid()
      modifies this
      ensures Valid() && old(log) <= log && old(tick) < tick && Since(old(tick), old(aborted))
      ensures TombstonesRan(env, old(tick), old(aborted), tick, due, n, purged) && n <= |due| && DistinctWork(due)
      ensures env.Calm(old(tick), tick) ==>
                && TombstonesPurged(env, old(s), s, old(tick), due, n)
                && (env.Ok(old(tick)) ==> ChosenTombstones(old(s), tenant, now, batchLimit, due))
                && (forall w :: w in due ==> w.id in old(s).tombstones && old(s).tombstones[w.id].env == tenant)
    {
      hide Valid, Purged, Start, PurgesTried, ChosenTombstones, Tracked;
      hide Environment.LostIn, Environment.AllOk, Environment.Fine, Environment.Calm;
      ghost var a, was, s0 := tick, aborted, s;
      env.Single(a);
      NoTombstonesPurged(env, s, a);
      var chosen := SelectDueTombstones(tenant, now);
      if chosen.None? { return None, [], 0; }
      ghost var b, lost, s1 := tick, aborted, s;
      due := chosen.value;
      DueOfTenant(s, tenant, now, batchLimit, due);
      purged, n := PurgeTombstones(chosen.value);
      Onward(a, was, b, lost);
    }

    /** Phases A and B for one tenant; None is a throw, which the run takes as a failed tenant. */
    method BackupTenant(tenant: string, now: int) returns (stats: Option<Stats>, ghost v: TenantVisit)
      requires Valid()
      modifies this
      ensures Valid() && old(log) <= log && Since(old(tick), old(aborted)) && tick > old(tick)
      ensures v.Ordered() && TenantRan(env, old(tick), old(aborted), tick, v, stats)
      ensures env.Calm(old(tick), tick) ==>
                && TenantWorked(env, tenant, old(s), s, old(tick), v)
                && TenantChosen(env, old(s), tenant, now, batchLimit, v)
    {
      hide Valid, DocumentsRan, AttachmentsRan, TombstonesRan, TenantWorked, DocumentsMarked, AttachmentsMarked;
      hide TombstonesPurged, ChosenDocuments, ChosenAttachments, ChosenTombstones;
      hide Environment.LostIn, Environment.AllOk, Environment.Fine, Environment.Calm;
      ghost var a, was, s0 := tick, aborted, s;
      env.Single(a);
      v := NoVisit;
      NothingWorked(env, tenant, s0, a);
      var connected := Query();
      if !connected { return None, v; }
      ghost var b1, lost1, s1 := tick, aborted, s;
      var t;
      ghost var docs, n;
      t, docs, n := BackupDocuments(tenant);
      Onward(a, was, b1, lost1);
      v := NoVisit.(docs := docs, docsTried := n, docsEnd := tick, documents := t);
      if env.Calm(a, tick) { DocumentsWorked(env, tenant, s0, s, a, v); }
      if t.None? { return None, v; }
      if aborted { return Some(DocumentStats(t.value)), v; }
      ghost var e1, s2 := tick, s;
      var u;
      ghost var work, m;
      u, work, m := BackupAttachments(tenant);
      Onward(a, was, e1, false);
      if env.Calm(a, tick) {
        AttachmentsWorked(env, tenant, s0, s2, s, a, v, work, m, tick, u);
        if u.Some? { AttachmentsStillChosen(env, tenant, s0, s2, a + 1, docs, n, batchLimit, work); }
      }
      v := v.(work := work, workTried := m, workEnd := tick, attachments := u);
      if u.None? { return None, v; }
      ghost var e2, lost2, s3 := tick, aborted, s;
      var purged;
      ghost var due, k;
      purged, due, k := PurgeDueTombstones(tenant, now);
      Onward(a, was, e2, lost2);
      if env.Calm(a, tick) {
        TombstonesWorked(env, tenant, s0, s3, s, a, v, due, k, purged);
        SameTombstones(env, tenant, s0, s3, a, v);
        if env.Ok(e2) { TombstonesStillChosen(s0, s3, tenant, now, batchLimit, due); }
      }
      v := v.(due := due, dueTried := k, purged := purged);
      if purged.None? { return None, v; }
      return Some(AllStats(t.value, u.value, purged.value)), v;
    }

    // ----- phase C

    function Listed(gone: string): set<string>
      reads this
    {
      ListedIn(listing, s.dest, gone)
    }

    /** Deletes what was listed, key by key; a and s0 are the tick and the state before the listing. */
    method DeleteListed(gone: string, listed: set<string>, ghost s0: Durable, ghost a: nat, ghost was: bool)
      returns (ok: bool)
      requires Valid() && Grows(listing, s0, s) && gone in s0.purges && Since(a, was) && a < tick && env.AllOk(a, tick)
      requires ListedIn(listing, s.dest, gone) <= listed && forall key :: key in listed ==> Lists(listing, gone, key)
      requires env.Calm(a, tick) ==> OnlyDest(s0, s)
      modifies this
      ensures Valid() && Grows(listing, s0, s) && old(log) <= log
      ensures old(tick) <= tick && Since(a, was) && ok == env.AllOk(a, tick)
      ensures ok ==> ListedIn(listing, s.dest, gone) == {}
      ensures env.Calm(a, tick) ==> OnlyDest(s0, s)
    {
      hide Valid, Grows, Lists, Purging;
      hide Environment.LostIn, Environment.AllOk, Environment.Fine, Environment.Calm;
      var rest := listed;
      while rest != {}
        invariant Valid() && Grows(listing, s0, s) && old(log) <= log
        invariant old(tick) <= tick && Since(a, was) && env.AllOk(a, tick)
        invariant rest <= listed && ListedIn(listing, s.dest, gone) <= rest
        invariant env.Calm(a, tick) ==> OnlyDest(s0, s)
        decreases |rest|
      {
        var key :| key in rest;
        StaysQueued(listing, s0, s, gone, key);
        ghost var s1, b, lost := s, tick, aborted;
        env.Single(b);
        ok := PurgeBackupObject(key, "");
        GrowsTransitive(listing, s0, s1, s);
        Onward(a, was, b, lost);
        if !ok { return false; }
        rest := rest - {key};
      }
      ok := true;
    }

    /** Lists, deletes key by key, and lists again: a success exactly when no call throws, and then nothing is left. */
    method PurgeEnvironmentBackupSubtree(gone: string) returns (ok: bool)
      requires Valid() && gone in s.purges
      modifies this
      ensures Valid() && Grows(listing, old(s), s) && old(log) <= log
      ensures old(tick) < tick && Since(old(tick), old(aborted)) && ok == env.AllOk(old(tick), tick)
      ensures ok ==> forall key :: key in s.dest ==> !Lists(listing, gone, key)
      ensures env.Calm(old(tick), tick) ==> OnlyDest(old(s), s)
    {
      hide Valid, Grows, Lists, Purging;
      hide Environment.LostIn, Environment.AllOk, Environment.Fine, Environment.Calm;
      ghost var s0, a, was := s, tick, aborted;
      env.Single(a);
      ok := Query();
      if !ok { return false; }
      var listed := Listed(gone);
      if listed == {} {
        NothingListed(listing, s.dest, gone);
        return true;
      }
      ok := DeleteListed(gone, listed, s0, a, was);
      if !ok { return false; }
      ghost var s2, b, lost := s, tick, aborted;
      env.Single(b);
      ok := Query();
      GrowsTransitive(listing, old(s), s2, s);
      Onward(a, was, b, lost);
      if !ok { return false; }
      ok := Listed(gone) == {};
      NothingListed(listing, s.dest, gone);
    }

    method MarkEnvironmentPurgeDone(gone: string) returns (ok: bool)
      requires Valid() && forall key :: key in s.dest ==> !Lists(listing, gone, key)
      modifies this
      ensures Valid() && old(log) <= log && old(s).purges.Keys - {gone} <= s.purges.Keys
      ensures tick == old(tick) + 1 && Since(old(tick), old(aborted)) && ok == env.Ok(old(tick))
      ensures env.Calm(old(tick), tick) ==> s == if env.Took(old(tick)) then Apply(old(s), DropPurge(gone)) else old(s)
    {
      var t := Begin();
      if env.Took(t) {
        Perform(DropPurge(gone));
      }
      ok := env.Ok(t);
    }

    /** None when recording a failed purge fails in its turn. */
    method PurgeOneEnvironment(gone: string) returns (done: Option<bool>)
      requires Valid() && gone in s.purges
      modifies this
      ensures Valid() && old(log) <= log && old(s).purges.Keys - {gone} <= s.purges.Keys
      ensures old(tick) < tick && Since(old(tick), old(aborted))
      ensures done == if env.AllOk(old(tick), tick) then Some(true)
                      else if env.Ok(tick - 1) then Some(false) else None
      ensures env.Calm(old(tick), tick) ==>
                && s == old(s).(dest := s.dest, purges := s.purges)
                && OnePurgeWorked(env, old(s).purges, s.purges, gone, old(tick), tick)
    {
      hide Valid, Grows, OnePurgeWorked;
      hide Environment.LostIn, Environment.AllOk, Environment.Fine, Environment.Calm;
      ghost var a, was, s0 := tick, aborted, s;
      var ok := PurgeEnvironmentBackupSubtree(gone);
      GrowsKeepsPurges(listing, s0, s);
      if ok {
        ghost var b, lost := tick, aborted;
        env.Single(b);
        ok := MarkEnvironmentPurgeDone(gone);
        Onward(a, was, b, lost);
      }
      if ok {
        DropWorked(env, s0.purges, gone, a, tick);
        return Some(true);
      }
      ghost var b, lost, s1 := tick, aborted, s;
      env.Single(b);
      var bumped := BumpAttempts(BumpPurge(gone));
      Onward(a, was, b, lost);
      GrowsKeepsPurges(listing, s1, s);
      if env.Calm(a, tick) { BumpWorked(env, s1, s0.purges, gone, a, tick); }
      return if bumped then Some(false) else None;
    }

    method RunPhaseC(now: int) returns (result: Option<(nat, nat)>, ghost due: seq<string>, ghost at: seq<nat>)
      requires Valid()
      modifies this
      ensures Valid() && old(log) <= log && old(tick) < tick && Since(old(tick), old(aborted))
      ensures PhaseCRan(env, old(tick), old(aborted), tick, due, at, result)
      ensures env.Calm(old(tick), tick) ==>
                && s == old(s).(dest := s.dest, purges := s.purges)
                && PurgesWorked(env, old(s).purges, s.purges, due, at)
                && (env.Ok(old(tick)) ==> ChosenPurges(old(s), now, batchLimit, due))
    {
      hide Valid, Grows, PurgesWorked, OnePurgeWorked, ChosenPurges, PhaseCTried, OldestFirst;
      hide Environment.LostIn, Environment.AllOk, Environment.Fine, Environment.Calm;
      ghost var a, was, s0 := tick, aborted, s;
      env.Single(a);
      NoPurgesWorked(env, s0.purges, [], a + 1);
      NothingTried(env, a, was);
      var selected := Query();
      at, due := [tick], [];
      if !selected { return None, due, at; }
      env.Single(tick);
      var chosen := Take(DuePurges(s, now), batchLimit, PurgeAge(s));
      due := chosen;
      NoPurgesWorked(env, s0.purges, due, tick);
      PurgesChosen(s, now, batchLimit, due);
      var envsPurged, envsFailed := 0, 0;
      var i: nat := 0;
      while i < |chosen|
        invariant i <= |chosen| && |at| == i + 1 && at[i] == tick
        invariant Valid() && old(log) <= log && Since(a, was) && a < tick
        invariant forall j :: i <= j < |due| ==> due[j] in s.purges
        invariant PhaseCTried(env, a, was, tick, at, Some((envsPurged, envsFailed)))
        invariant env.Calm(a, tick) ==>
                    && s == s0.(dest := s.dest, purges := s.purges) && PurgesWorked(env, s0.purges, s.purges, due, at)
                    && ChosenPurges(s0, now, batchLimit, due)
      {
        if aborted { break; }
        ghost var s1, b := s, tick;
        var done := PurgeOneEnvironment(chosen[i]);
        Onward(a, was, b, false);
        if env.Calm(a, tick) { PurgesWorkedNext(env, s0.purges, s1.purges, s.purges, due, at, tick); }
        NextTried(env, a, was, b, tick, at, envsPurged, envsFailed);
        at := at + [tick];
        i := i + 1;
        if done.None? { return None, due, at; }
        if done.value {
          envsPurged := envsPurged + 1;
        } else {
          envsFailed := envsFailed + 1;
        }
      }
      return Some((envsPurged, envsFailed)), due, at;
    }

    // ----- one run

    method BeginRun()
      requires Valid()
      modifies this`aborted
      ensures Valid() && !aborted
    {
      aborted := false;
    }

    /** One run, with what it visited: every call may fail, the application may act, and the lock may be lost. */
    method RunObjectStorageBackup(enabled: bool, lockAcquired: bool, clock: Clock, purgesAt: int)
      returns (totals: Option<Totals>, ghost r: RunRecord)
      requires Valid()
      modifies this
      ensures Valid() && old(log) <= log && old(tick) <= tick
      ensures !enabled || !lockAcquired ==> s == old(s) && totals.None? && tick == old(tick)
      ensures enabled && lockAcquired ==> RunRan(env, old(tick), tick, r, totals)
      ensures enabled && lockAcquired && env.Calm(old(tick), tick) && env.Ok(old(tick)) ==>
                RunWorked(env, old(tick), r, old(s), s, clock, purgesAt, batchLimit)
      ensures enabled && lockAcquired && env.Fine(old(tick), tick) ==>
                RunDone(old(s), s, clock, purgesAt, batchLimit, totals)
    {
      hide Valid, RunWorked, RunDone, VisitsTenants, TenantsVisited, PhaseCRan, PurgesWorked, ChosenPurges, Added;
      hide Environment.LostIn, Environment.AllOk, Environment.Calm;
      r := NoRun;
      if !enabled || !lockAcquired { return None, r; }
      BeginRun();
      ghost var a := tick;
      env.Single(a);
      var enumerated := Query();
      if !enumerated { return None, r; }
      var t;
      ghost var visits;
      ghost var s0, live := s, s.live;
      t, visits := BackupTenants(s.live, clock, a);
      env.Joined(a, a + 1, tick);
      r := r.(live := live, visits := visits, mid := tick);
      ghost var s1, mid := s, tick;
      VisitedIsAdded(env, a, r, s0, s1, clock, batchLimit, t);
      if aborted {
        if env.Calm(a, tick) { WorkedUntilLost(env, a, r, s0, s1, clock, purgesAt, batchLimit, t); }
        return Some(t), r;
      }
      var phaseC;
      ghost var due, at;
      phaseC, due, at := RunPhaseC(purgesAt);
      Onward(a, false, mid, false);
      r := r.(due := due, at := at);
      totals := if phaseC.None? then None else Some(t.(envsPurged := phaseC.value.0, envsFailed := phaseC.value.1));
      if env.Calm(a, tick) { WorkedToEnd(env, a, r, s0, s1, s, clock, purgesAt, batchLimit, t); }
      if env.Fine(a, tick) { RunIsDone(env, a, tick, r, s0, s, clock, purgesAt, batchLimit, totals); }
    }

    /** The loop over the tenants. */
    method BackupTenants(live: set<string>, clock: Clock, ghost a: nat) returns (t: Totals, ghost visits: seq<Visit>)
      requires Valid() && a + 1 == tick && Since(a, false)
      modifies this
      ensures Valid() && old(log) <= log && Since(a, false) && a < tick
      ensures VisitsTenants(env, a, tick, live, visits)
      ensures TenantsVisited(env, old(s), s, a, tick, live, visits, clock, batchLimit, t)
    {
      hide Valid, TenantsVisited, TenantRan, TenantWorked, TenantChosen, Tenants, Added;
      hide Environment.LostIn, Environment.AllOk, Environment.Fine, Environment.Calm;
      ghost var s0 := s;
      visits := [];
      t := Added([]);
      NoTenantVisited(env, s, a, live, clock, batchLimit);
      var rest := live;
      while rest != {}
        invariant Valid() && old(log) <= log && Since(a, false) && a < tick
        invariant rest == live - Tenants(visits)
        invariant TenantsVisited(env, s0, s, a, tick, live, visits, clock, batchLimit, t)
        decreases |rest|
      {
        if aborted { break; }
        var tenant :| tenant in rest;
        ghost var s1, b := s, tick;
        var stats;
        ghost var v;
        stats, v := BackupTenant(tenant, clock(tenant));
        Onward(a, false, b, false);
        OneMoreTenant(env, s0, s1, s, a, b, tick, live, visits, clock, batchLimit, t, tenant, v, stats);
        visits := visits + [Visit(tenant, b, tick, v, stats)];
        match stats {
          case Some(st) =>
            t := t.(copied := t.copied + st.copied, bytes := t.bytes + st.bytes, failed := t.failed + st.failed,
                    purged := t.purged + st.purged, tenantsOk := t.tenantsOk + 1);
          case None =>
            t := t.(tenantsFailed := t.tenantsFailed + 1);
        }
        rest := rest - {tenant};
      }
      AreVisited(env, s0, s, a, tick, live, visits, clock, batchLimit, t);
    }

    /** With nothing failing and nothing new, each run takes one batch off every queue, until all are empty. */
    method RunRepeatedly(runs: nat, clock: Clock, purgesAt: int)
      requires Valid() && env.Quiet()
      modifies this
      ensures Valid() && AllLeft(old(s), s, clock, purgesAt, runs * batchLimit)
    {
      hide Valid, AllLeft, RunProgress, BatchDone, TenantProgress;
      NothingTaken(s, clock, purgesAt);
      for i := 0 to runs
        invariant Valid() && AllLeft(old(s), s, clock, purgesAt, i * batchLimit)
      {
        ghost var before, a := s, tick;
        ghost var r;
        var totals;
        totals, r := RunObjectStorageBackup(true, true, clock, purgesAt);
        env.QuietIsFine(a, tick);
        OneMoreRun(old(s), before, s, clock, purgesAt, i, batchLimit);
      }
    }
  }

  /** What is left of a queue when so many have been taken. */
  ghost predicate Left(before: set<string>, after: set<string>, taken: nat) {
    after <= before && |after| == (if |before| > taken then |before| - taken else 0)
  }

  ghost predicate TenantLeft(s: Durable, s': Durable, tenant: string, now: int, taken: nat) {
    && Left(PendingDocuments(s, tenant), PendingDocuments(s', tenant), taken)
    && Left(PendingAttachments(s, tenant), PendingAttachments(s', tenant), taken)
    && Left(DueTombstones(s, tenant, now), DueTombstones(s', tenant, now), taken)
  }

  lemma OneMoreBatch(first: set<string>, before: set<string>, after: set<string>, runs: nat, limit: nat)
    requires Left(first, before, runs * limit) && BatchDone(before, after, limit)
    ensures Left(first, after, (runs + 1) * limit)
  {
    assert (runs + 1) * limit == runs * limit + limit;
  }

  /** What is left of every queue, with the tenants as they were. */
  ghost predicate AllLeft(s: Durable, s': Durable, clock: Clock, purgesAt: int, taken: nat) {
    && s'.live == s.live
    && (forall tenant :: tenant in s.live ==> TenantLeft(s, s', tenant, clock(tenant), taken))
    && Left(DuePurges(s, purgesAt), DuePurges(s', purgesAt), taken)
  }

  lemma NothingTaken(s: Durable, clock: Clock, purgesAt: int)
    ensures AllLeft(s, s, clock, purgesAt, 0)
  {
  }

  lemma OneMoreTenantRun(first: Durable, before: Durable, after: Durable, tenant: string, now: int,
                         runs: nat, limit: nat)
    requires TenantLeft(first, before, tenant, now, runs * limit) && TenantProgress(before, after, tenant, now, limit)
    ensures TenantLeft(first, after, tenant, now, (runs + 1) * limit)
  {
    OneMoreBatch(PendingDocuments(first, tenant), PendingDocuments(before, tenant), PendingDocuments(after, tenant),
                 runs, limit);
    OneMoreBatch(PendingAttachments(first, tenant), PendingAttachments(before, tenant),
                 PendingAttachments(after, tenant), runs, limit);
    OneMoreBatch(DueTombstones(first, tenant, now), DueTombstones(before, tenant, now),
                 DueTombstones(after, tenant, now), runs, limit);
  }

  lemma OneMoreRun(first: Durable, before: Durable, after: Durable, clock: Clock, purgesAt: int, runs: nat, limit: nat)
    requires AllLeft(first, before, clock, purgesAt, runs * limit) && after.live == before.live
    requires forall tenant :: tenant in before.live ==> TenantProgress(before, after, tenant, clock(tenant), limit)
    requires BatchDone(DuePurges(before, purgesAt), DuePurges(after, purgesAt), limit)
    ensures AllLeft(first, after, clock, purgesAt, (runs + 1) * limit)
  {
    hide TenantLeft, TenantProgress;
    forall tenant | tenant in first.live
      ensures TenantLeft(first, after, tenant, clock(tenant), (runs + 1) * limit)
    {
      OneMoreTenantRun(first, before, after, tenant, clock(tenant), runs, limit);
    }
    OneMoreBatch(DuePurges(first, purgesAt), DuePurges(before, purgesAt), DuePurges(after, purgesAt), runs, limit);
  }

  // ----- how many runs it takes

  function CeilDiv(a: nat, d: nat): nat
    requires d > 0
  {
    (a + d - 1) / d
  }

  lemma MulMonotone(a: nat, b: nat, d: nat)
    requires a <= b
    ensures a * d <= b * d
  {
  }

  lemma CeilDivExact(n: nat, d: nat, i: nat)
    requires d > 0
    ensures i >= CeilDiv(n, d) <==> i * d >= n
  {
    var q := (n + d - 1) / d;
    assert q * d <= n + d - 1 < q * d + d;
    if i >= q {
      MulMonotone(q, i, d);
    } else {
      MulMonotone(i, q - 1, d);
      assert (q - 1) * d == q * d - d;
    }
  }

  /** A queue is empty after so many runs exactly when they are at least its length over the limit, rounded up. */
  lemma DrainedExactlyWhen(before: set<string>, after: set<string>, runs: nat, limit: nat)
    requires limit >= 1 && Left(before, after, runs * limit)
    ensures after == {} <==> runs >= CeilDiv(|before|, limit)
  {
    CeilDivExact(|before|, limit, runs);
  }
}
