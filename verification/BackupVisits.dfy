/**
 * One tenant in a run, phases A and B of jobs/object-storage-backup.job.ts: which
 * calls are made for which outcomes, and what becomes of each item and of the queues.
 */
module BackupVisits {
  import opened Wrappers
  import opened ObjectBackup
  import opened BackupCalls
  import opened BackupQueues

  // ----- the phases of one tenant

  /** Copied objects, bytes and failures of a phase. */
  type Tally = (nat, nat, nat)

  /**
   * What was selected for the tenant, how much of it was tried, where the phases ended,
   * and what they counted; None is a throw.
   */
  datatype TenantVisit = TenantVisit(
    docs: seq<DocumentWork>, docsTried: nat, docsEnd: nat, documents: Option<Tally>,
    work: seq<KeyedWork>, workTried: nat, workEnd: nat, attachments: Option<Tally>,
    due: seq<KeyedWork>, dueTried: nat, purged: Option<nat>)
  {
    ghost predicate Ordered() {
      docsTried <= |docs| && workTried <= |work| && dueTried <= |due| && DistinctWork(due)
    }

    predicate NoAttachments() {
      work == [] && workTried == 0 && attachments.None? && NoTombstones()
    }

    predicate NoTombstones() {
      due == [] && dueTried == 0 && purged.None?
    }
  }

  const NoVisit := TenantVisit([], 0, 0, None, [], 0, 0, None, [], 0, None)

  function DocumentTally(env: Environment, docs: seq<DocumentWork>, a: nat, n: nat): Tally
    requires n <= |docs|
  {
    (Sum(DocumentCalls(env), DocumentCopied(env), docs, a, n), Sum(DocumentCalls(env), DocumentBytes(env), docs, a, n),
     Sum(DocumentCalls(env), DocumentFailed(env), docs, a, n))
  }

  function AttachmentTally(env: Environment, work: seq<KeyedWork>, a: nat, n: nat): Tally
    requires n <= |work|
  {
    (Sum(AttachmentCalls(env), AttachmentCopied(env), work, a, n),
     Sum(AttachmentCalls(env), AttachmentBytes(env), work, a, n),
     Sum(AttachmentCalls(env), AttachmentFailed(env), work, a, n))
  }

  lemma DocumentNext(env: Environment, docs: seq<DocumentWork>, a: nat, i: nat)
    requires i < |docs|
    ensures var t, tally, b := Start(DocumentCalls(env), docs, a, i), DocumentTally(env, docs, a, i), docs[i];
            && Start(DocumentCalls(env), docs, a, i + 1) == t + DocumentCalls(env)(b, t)
            && DocumentTally(env, docs, a, i + 1)
               == (tally.0 + DocumentCopied(env)(b, t), tally.1 + DocumentBytes(env)(b, t),
                   tally.2 + DocumentFailed(env)(b, t))
  {
    SumSnoc(DocumentCalls(env), DocumentCopied(env), docs, a, i);
    SumSnoc(DocumentCalls(env), DocumentBytes(env), docs, a, i);
    SumSnoc(DocumentCalls(env), DocumentFailed(env), docs, a, i);
    hide Start, Sum;
  }

  lemma AttachmentNext(env: Environment, work: seq<KeyedWork>, a: nat, i: nat)
    requires i < |work|
    ensures var t, tally, w := Start(AttachmentCalls(env), work, a, i), AttachmentTally(env, work, a, i), work[i];
            && Start(AttachmentCalls(env), work, a, i + 1) == t + AttachmentCalls(env)(w, t)
            && AttachmentTally(env, work, a, i + 1)
               == (tally.0 + AttachmentCopied(env)(w, t), tally.1 + AttachmentBytes(env)(w, t),
                   tally.2 + AttachmentFailed(env)(w, t))
  {
    SumSnoc(AttachmentCalls(env), AttachmentCopied(env), work, a, i);
    SumSnoc(AttachmentCalls(env), AttachmentBytes(env), work, a, i);
    SumSnoc(AttachmentCalls(env), AttachmentFailed(env), work, a, i);
    hide Start, Sum;
  }

  /** These columns have been marked, and nothing else but the destination has changed. */
  ghost predicate Marked(s: Durable, s': Durable, slots: set<Slot>) {
    OnlyBacked(s, s') && s'.backed == s.backed + slots
  }

  lemma MarkedJoin(s: Durable, s1: Durable, s2: Durable, first: set<Slot>, second: set<Slot>)
    requires Marked(s, s1, first) && Marked(s1, s2, second)
    ensures Marked(s, s2, first + second)
  {
  }

  lemma MarkedKeeps(s: Durable, s': Durable, slots: set<Slot>)
    requires Marked(s, s', slots)
    ensures s'.rows == s.rows && s'.live == s.live && s'.tombstones == s.tombstones && s'.purges == s.purges
  {
  }

  lemma NothingMarked(s: Durable)
    ensures Marked(s, s, {})
  {
  }

  /** The document has been tried, from a to b; it was selected when the rows were these. */
  ghost predicate DocumentTried(env: Environment, tenant: string, rows: map<Slot, string>, s: Durable, s': Durable,
                                a: nat, b: nat, d: DocumentWork, tally: Tally)
  {
    && b == a + DocumentCalls(env)(d, a)
    && tally == (DocumentCopied(env)(d, a), DocumentBytes(env)(d, a), DocumentFailed(env)(d, a))
    && (env.Calm(a, b) && s.rows == rows ==> Marked(s, s', DocumentMarks(env, tenant)(d, a)))
  }

  /** The first n documents have been tried, from a to b, and this is what became of them. */
  ghost predicate DocumentsCopied(env: Environment, tenant: string, s: Durable, s': Durable, a: nat, was: bool, b: nat,
                                docs: seq<DocumentWork>, n: nat, tally: Tally)
  {
    && HeldFor(env, DocumentCalls(env), docs, a, was, n)
    && b == Start(DocumentCalls(env), docs, a, n) && tally == DocumentTally(env, docs, a, n)
    && (env.Calm(a, b) ==> Marked(s, s', Union(DocumentCalls(env), DocumentMarks(env, tenant), docs, a, n)))
  }

  lemma NoDocumentCopied(env: Environment, tenant: string, s: Durable, a: nat, was: bool, docs: seq<DocumentWork>)
    ensures DocumentsCopied(env, tenant, s, s, a, was, a, docs, 0, (0, 0, 0))
  {
    NothingMarked(s);
  }

  lemma OneMoreDocumentCopied(env: Environment, tenant: string, s: Durable, s1: Durable, s2: Durable, a: nat, was: bool,
                              b: nat, c: nat, docs: seq<DocumentWork>, n: nat, tally: Tally, one: Tally)
    requires DocumentsCopied(env, tenant, s, s1, a, was, b, docs, n, tally) && n < |docs|
    requires !was && !env.LostIn(a, b) && a <= b && DocumentTried(env, tenant, s.rows, s1, s2, b, c, docs[n], one)
    ensures DocumentsCopied(env, tenant, s, s2, a, was, c, docs, n + 1,
                            (tally.0 + one.0, tally.1 + one.1, tally.2 + one.2))
  {
    var calls, marks := DocumentCalls(env), DocumentMarks(env, tenant);
    hide HeldFor, Start, Sum, Union, Environment.LostIn, Environment.Calm, DocumentTally;
    hide DocumentCalls, DocumentMarks, DocumentCopied, DocumentBytes, DocumentFailed;
    HeldForNext(env, calls, docs, a, was, n);
    DocumentNext(env, docs, a, n);
    UnionSnoc(calls, marks, docs, a, n);
    env.Joined(a, b, c);
    if env.Calm(a, c) {
      MarkedKeeps(s, s1, Union(calls, marks, docs, a, n));
      MarkedJoin(s, s1, s2, Union(calls, marks, docs, a, n), marks(docs[n], b));
    }
  }

  /** The attachment has been tried, from a to b; it was selected when the rows were these. */
  ghost predicate AttachmentTried(env: Environment, tenant: string, rows: map<Slot, string>, s: Durable, s': Durable,
                                  a: nat, b: nat, w: KeyedWork, tally: Tally)
  {
    && b == a + AttachmentCalls(env)(w, a)
    && tally == (AttachmentCopied(env)(w, a), AttachmentBytes(env)(w, a), AttachmentFailed(env)(w, a))
    && (env.Calm(a, b) && s.rows == rows ==> Marked(s, s', AttachmentMarks(env, tenant)(w, a)))
  }

  /** The first n attachments have been tried, from a to b, and this is what became of them. */
  ghost predicate AttachmentsCopied(env: Environment, tenant: string, s: Durable, s': Durable, a: nat, was: bool,
                                    b: nat, work: seq<KeyedWork>, n: nat, tally: Tally)
  {
    && HeldFor(env, AttachmentCalls(env), work, a, was, n)
    && b == Start(AttachmentCalls(env), work, a, n) && tally == AttachmentTally(env, work, a, n)
    && (env.Calm(a, b) ==> Marked(s, s', Union(AttachmentCalls(env), AttachmentMarks(env, tenant), work, a, n)))
  }

  lemma NoAttachmentCopied(env: Environment, tenant: string, s: Durable, a: nat, was: bool, work: seq<KeyedWork>)
    ensures AttachmentsCopied(env, tenant, s, s, a, was, a, work, 0, (0, 0, 0))
  {
    NothingMarked(s);
  }

  lemma OneMoreAttachmentCopied(env: Environment, tenant: string, s: Durable, s1: Durable, s2: Durable, a: nat,
                                was: bool, b: nat, c: nat, work: seq<KeyedWork>, n: nat, tally: Tally, one: Tally)
    requires AttachmentsCopied(env, tenant, s, s1, a, was, b, work, n, tally) && n < |work|
    requires !was && !env.LostIn(a, b) && a <= b && AttachmentTried(env, tenant, s.rows, s1, s2, b, c, work[n], one)
    ensures AttachmentsCopied(env, tenant, s, s2, a, was, c, work, n + 1,
                            (tally.0 + one.0, tally.1 + one.1, tally.2 + one.2))
  {
    var calls, marks := AttachmentCalls(env), AttachmentMarks(env, tenant);
    hide HeldFor, Start, Sum, Union, Environment.LostIn, Environment.Calm, AttachmentTally;
    hide AttachmentCalls, AttachmentMarks, AttachmentCopied, AttachmentBytes, AttachmentFailed;
    HeldForNext(env, calls, work, a, was, n);
    AttachmentNext(env, work, a, n);
    UnionSnoc(calls, marks, work, a, n);
    env.Joined(a, b, c);
    if env.Calm(a, c) {
      MarkedKeeps(s, s1, Union(calls, marks, work, a, n));
      MarkedJoin(s, s1, s2, Union(calls, marks, work, a, n), marks(work[n], b));
    }
  }

  /** This is left of the tombstones, and nothing else but the destination has changed. */
  ghost predicate Purged(s: Durable, s': Durable, left: map<string, Tombstone>) {
    s' == s.(dest := s'.dest, tombstones := left)
  }

  /** The tombstone has been tried, from a to b. */
  ghost predicate TombstoneTried(env: Environment, s: Durable, s': Durable, a: nat, b: nat, w: KeyedWork,
                                 result: Option<bool>)
  {
    && b == a + TombstoneCalls(env)(w, a)
    && result == (if Throws(env, a) then None else Some(Confirmed(env, a)))
    && (env.Calm(a, b) ==> Purged(s, s', AfterPurge(env, s.tombstones, w.id, a)))
  }

  /** The first n tombstones have been tried, from a to b, and this is what became of them. */
  ghost predicate TombstonesTried(env: Environment, s: Durable, s': Durable, a: nat, was: bool, b: nat,
                                  due: seq<KeyedWork>, n: nat, purged: Option<nat>)
  {
    && PurgesTried(env, due, a, was, n, purged) && b == Start(TombstoneCalls(env), due, a, n)
    && (env.Calm(a, b) ==> Purged(s, s', AfterPurges(env, s.tombstones, due, a, n)))
  }

  lemma NoTombstoneTried(env: Environment, s: Durable, a: nat, was: bool, due: seq<KeyedWork>)
    ensures TombstonesTried(env, s, s, a, was, a, due, 0, Some(0))
  {
  }

  lemma OneMoreTombstoneTried(env: Environment, s: Durable, s1: Durable, s2: Durable, a: nat, was: bool, b: nat,
                              c: nat, due: seq<KeyedWork>, n: nat, purged: nat, result: Option<bool>)
    requires TombstonesTried(env, s, s1, a, was, b, due, n, Some(purged)) && n < |due|
    requires !was && !env.LostIn(a, b) && a <= b && TombstoneTried(env, s1, s2, b, c, due[n], result)
    ensures TombstonesTried(env, s, s2, a, was, c, due, n + 1,
                            if result.None? then None else Some(if result.value then purged + 1 else purged))
  {
    hide PurgesTried, Environment.LostIn, Environment.Calm, Throws, Confirmed;
    NextPurgeTried(env, due, a, was, n, purged);
    env.Joined(a, b, c);
  }

  /** A phase that begins at a with a query: the query throws, or the batch behind it is worked on. */
  ghost predicate DocumentsRan(env: Environment, a: nat, was: bool, b: nat, docs: seq<DocumentWork>, n: nat,
                               tally: Option<Tally>)
  {
    if !env.Ok(a) then tally.None? && b == a + 1 && docs == [] && n == 0
    else
      && Visits(env, DocumentCalls(env), docs, a + 1, was || env.LostIn(a, a + 1), n)
      && b == Start(DocumentCalls(env), docs, a + 1, n) && tally == Some(DocumentTally(env, docs, a + 1, n))
  }

  ghost predicate AttachmentsRan(env: Environment, a: nat, was: bool, b: nat, work: seq<KeyedWork>, n: nat,
                                 tally: Option<Tally>)
  {
    if !env.Ok(a) then tally.None? && b == a + 1 && work == [] && n == 0
    else
      && Visits(env, AttachmentCalls(env), work, a + 1, was || env.LostIn(a, a + 1), n)
      && b == Start(AttachmentCalls(env), work, a + 1, n) && tally == Some(AttachmentTally(env, work, a + 1, n))
  }

  ghost predicate TombstonesRan(env: Environment, a: nat, was: bool, b: nat, due: seq<KeyedWork>, n: nat,
                                purged: Option<nat>)
  {
    if !env.Ok(a) then purged.None? && b == a + 1 && due == [] && n == 0
    else
      && PurgeVisits(env, due, a + 1, was || env.LostIn(a, a + 1), n, purged)
      && b == Start(TombstoneCalls(env), due, a + 1, n)
  }

  ghost predicate DocumentsMarked(env: Environment, tenant: string, s: Durable, s': Durable, a: nat,
                                  docs: seq<DocumentWork>, n: nat)
    requires n <= |docs|
  {
    Marked(s, s', Union(DocumentCalls(env), DocumentMarks(env, tenant), docs, a + 1, n))
  }

  ghost predicate AttachmentsMarked(env: Environment, tenant: string, s: Durable, s': Durable, a: nat,
                                    work: seq<KeyedWork>, n: nat)
    requires n <= |work|
  {
    Marked(s, s', Union(AttachmentCalls(env), AttachmentMarks(env, tenant), work, a + 1, n))
  }

  ghost predicate TombstonesPurged(env: Environment, s: Durable, s': Durable, a: nat, due: seq<KeyedWork>, n: nat)
    requires n <= |due|
  {
    Purged(s, s', AfterPurges(env, s.tombstones, due, a + 1, n))
  }

  /** The batch that the query returns. */
  ghost predicate ChosenDocuments(s: Durable, tenant: string, limit: nat, docs: seq<DocumentWork>) {
    && |docs| == Min(limit, |PendingDocuments(s, tenant)|) && DocIds(docs) <= PendingDocuments(s, tenant)
    && DistinctDocs(docs) && OldestFirst(DocumentIds(docs), PendingDocuments(s, tenant), DocumentAge(s, tenant))
    && (forall d :: d in docs ==> Selected(s, tenant, d))
  }

  ghost predicate ChosenAttachments(s: Durable, tenant: string, limit: nat, work: seq<KeyedWork>) {
    && |work| == Min(limit, |PendingAttachments(s, tenant)|) && WorkIds(work) <= PendingAttachments(s, tenant)
    && DistinctWork(work) && OldestFirst(KeyedIds(work), PendingAttachments(s, tenant), AttachmentAge(s, tenant))
    && (forall w :: w in work ==> SelectedAttachment(s, tenant, w))
  }

  ghost predicate ChosenTombstones(s: Durable, tenant: string, now: int, limit: nat, due: seq<KeyedWork>) {
    && |due| == Min(limit, |DueTombstones(s, tenant, now)|) && WorkIds(due) <= DueTombstones(s, tenant, now)
    && DistinctWork(due) && OldestFirst(KeyedIds(due), DueTombstones(s, tenant, now), TombstoneAge(s))
  }

  lemma OldestChosen(r: seq<string>, pool: set<string>, age: string -> int, i: nat, id: string)
    requires OldestFirst(r, pool, age) && i < |r| && id in pool && id !in r
    ensures age(r[i]) <= age(id)
  {
  }

  /** The longest waiting go first: no document that is left out was created before one that is chosen. */
  lemma OldestDocumentsChosen(s: Durable, tenant: string, limit: nat, docs: seq<DocumentWork>, d: DocumentWork,
                              id: string)
    requires ChosenDocuments(s, tenant, limit, docs) && d in docs
    requires id in PendingDocuments(s, tenant) && id !in DocIds(docs)
    requires Main(tenant, d.id) in s.created && Main(tenant, id) in s.created
    ensures s.created[Main(tenant, d.id)] <= s.created[Main(tenant, id)]
  {
    hide OldestFirst, PendingDocuments, Selected;
    var i :| 0 <= i < |docs| && docs[i] == d;
    assert forall j :: 0 <= j < |docs| ==> docs[j].id in DocIds(docs);
    OldestChosen(DocumentIds(docs), PendingDocuments(s, tenant), DocumentAge(s, tenant), i, id);
  }

  /** Nor an attachment. */
  lemma OldestAttachmentsChosen(s: Durable, tenant: string, limit: nat, work: seq<KeyedWork>, w: KeyedWork, id: string)
    requires ChosenAttachments(s, tenant, limit, work) && w in work
    requires id in PendingAttachments(s, tenant) && id !in WorkIds(work)
    requires Attachment(tenant, w.id) in s.created && Attachment(tenant, id) in s.created
    ensures s.created[Attachment(tenant, w.id)] <= s.created[Attachment(tenant, id)]
  {
    hide OldestFirst, PendingAttachments, SelectedAttachment;
    var i :| 0 <= i < |work| && work[i] == w;
    assert forall j :: 0 <= j < |work| ==> work[j].id in WorkIds(work);
    OldestChosen(KeyedIds(work), PendingAttachments(s, tenant), AttachmentAge(s, tenant), i, id);
  }

  /** And no tombstone that is left out has been due for longer. */
  lemma LongestDueChosen(s: Durable, tenant: string, now: int, limit: nat, due: seq<KeyedWork>, w: KeyedWork,
                         id: string)
    requires ChosenTombstones(s, tenant, now, limit, due) && w in due
    requires id in DueTombstones(s, tenant, now) && id !in WorkIds(due)
    ensures w.id in s.tombstones && s.tombstones[w.id].deleteAfter <= s.tombstones[id].deleteAfter <= now
  {
    hide OldestFirst;
    var i :| 0 <= i < |due| && due[i] == w;
    assert forall j :: 0 <= j < |due| ==> due[j].id in WorkIds(due);
    OldestChosen(KeyedIds(due), DueTombstones(s, tenant, now), TombstoneAge(s), i, id);
  }

  /**
   * The calls of one tenant: connect, documents, and unless the lock is lost by then
   * attachments and tombstones; a query that throws, or the counting of an attempt,
   * gives the tenant up.
   */
  ghost predicate TenantRan(env: Environment, a: nat, was: bool, b: nat, v: TenantVisit, stats: Option<Stats>) {
    if !env.Ok(a) then stats.None? && b == a + 1 && v == NoVisit
    else
      && DocumentsRan(env, a + 1, was || env.LostIn(a, a + 1), v.docsEnd, v.docs, v.docsTried, v.documents)
      && if v.documents.None? then stats.None? && b == v.docsEnd && v.NoAttachments()
         else if was || env.LostIn(a, v.docsEnd) then
           b == v.docsEnd && v.NoAttachments() && stats == Some(DocumentStats(v.documents.value))
         else
           && AttachmentsRan(env, v.docsEnd, false, v.workEnd, v.work, v.workTried, v.attachments)
           && if v.attachments.None? then stats.None? && b == v.workEnd && v.NoTombstones()
              else
                && TombstonesRan(env, v.workEnd, env.LostIn(v.docsEnd, v.workEnd), b, v.due, v.dueTried, v.purged)
                && stats == if v.purged.None? then None
                            else Some(AllStats(v.documents.value, v.attachments.value, v.purged.value))
  }

  function DocumentStats(t: Tally): Stats {
    Stats(t.0, t.1, t.2, 0)
  }

  function AllStats(t: Tally, u: Tally, purged: nat): Stats {
    Stats(t.0 + u.0, t.1 + u.1, t.2 + u.2, purged)
  }

  /** What became of the tenant, when the application did nothing meanwhile. */
  ghost predicate TenantWorked(env: Environment, tenant: string, s: Durable, s': Durable, a: nat, v: TenantVisit)
    requires v.Ordered()
  {
    && s' == s.(dest := s'.dest, backed := s'.backed, tombstones := s'.tombstones)
    && s'.backed == s.backed
       + Union(DocumentCalls(env), DocumentMarks(env, tenant), v.docs, a + 2, v.docsTried)
       + Union(AttachmentCalls(env), AttachmentMarks(env, tenant), v.work, v.docsEnd + 1, v.workTried)
    && s'.tombstones == AfterPurges(env, s.tombstones, v.due, v.workEnd + 1, v.dueTried)
    && (forall w :: w in v.due ==> w.id in s.tombstones && s.tombstones[w.id].env == tenant)
  }

  /** Each batch that was worked on is the one to be chosen. */
  ghost predicate TenantChosen(env: Environment, s: Durable, tenant: string, now: int, limit: nat, v: TenantVisit) {
    && (v.documents.Some? ==> ChosenDocuments(s, tenant, limit, v.docs))
    && (v.attachments.Some? ==> ChosenAttachments(s, tenant, limit, v.work))
    && (v.attachments.Some? && env.Ok(v.workEnd) ==> ChosenTombstones(s, tenant, now, limit, v.due))
  }

  lemma NoDocumentMarked(env: Environment, tenant: string, s: Durable, a: nat)
    ensures DocumentsMarked(env, tenant, s, s, a, [], 0)
  {
  }

  lemma NoAttachmentMarked(env: Environment, tenant: string, s: Durable, a: nat)
    ensures AttachmentsMarked(env, tenant, s, s, a, [], 0)
  {
  }

  lemma NoTombstonesPurged(env: Environment, s: Durable, a: nat)
    ensures TombstonesPurged(env, s, s, a, [], 0)
  {
  }

  lemma ChosenDocumentsWork(s: Durable, tenant: string, limit: nat, docs: seq<DocumentWork>)
    requires ChosenDocuments(s, tenant, limit, docs)
    ensures DistinctDocs(docs) && forall d :: d in docs ==> Selected(s, tenant, d)
  {
  }

  lemma ChosenAttachmentsWork(s: Durable, tenant: string, limit: nat, work: seq<KeyedWork>)
    requires ChosenAttachments(s, tenant, limit, work)
    ensures DistinctWork(work) && forall w :: w in work ==> SelectedAttachment(s, tenant, w)
  {
  }

  lemma SameTombstones(env: Environment, tenant: string, s: Durable, s': Durable, a: nat, v: TenantVisit)
    requires v.Ordered() && v.NoTombstones() && TenantWorked(env, tenant, s, s', a, v)
    ensures s'.tombstones == s.tombstones
  {
  }

  lemma NothingWorked(env: Environment, tenant: string, s: Durable, a: nat)
    ensures TenantWorked(env, tenant, s, s, a, NoVisit)
  {
  }

  lemma DocumentsWorked(env: Environment, tenant: string, s: Durable, s': Durable, a: nat, v: TenantVisit)
    requires v.docsTried <= |v.docs| && v.NoAttachments()
    requires DocumentsMarked(env, tenant, s, s', a + 1, v.docs, v.docsTried)
    ensures TenantWorked(env, tenant, s, s', a, v)
  {
  }

  lemma AttachmentsWorked(env: Environment, tenant: string, s: Durable, s1: Durable, s2: Durable, a: nat,
                          v: TenantVisit, work: seq<KeyedWork>, n: nat, end: nat, tally: Option<Tally>)
    requires v.docsTried <= |v.docs| && v.NoAttachments() && TenantWorked(env, tenant, s, s1, a, v)
    requires n <= |work| && AttachmentsMarked(env, tenant, s1, s2, v.docsEnd, work, n)
    ensures TenantWorked(env, tenant, s, s2, a,
                         v.(work := work, workTried := n, workEnd := end, attachments := tally))
  {
    hide DistinctWork;
  }

  lemma TombstonesWorked(env: Environment, tenant: string, s: Durable, s1: Durable, s2: Durable, a: nat,
                         v: TenantVisit, due: seq<KeyedWork>, n: nat, purged: Option<nat>)
    requires v.Ordered() && v.NoTombstones() && TenantWorked(env, tenant, s, s1, a, v)
    requires n <= |due| && DistinctWork(due) && TombstonesPurged(env, s1, s2, v.workEnd, due, n)
    requires forall w :: w in due ==> w.id in s1.tombstones && s1.tombstones[w.id].env == tenant
    ensures TenantWorked(env, tenant, s, s2, a, v.(due := due, dueTried := n, purged := purged))
  {
    hide DistinctWork, Union;
  }

  lemma DueOfTenant(s: Durable, tenant: string, now: int, limit: nat, due: seq<KeyedWork>)
    requires ChosenTombstones(s, tenant, now, limit, due)
    ensures DistinctWork(due)
    ensures forall w :: w in due ==> w.id in s.tombstones && s.tombstones[w.id].env == tenant
  {
    forall w | w in due ensures w.id in s.tombstones && s.tombstones[w.id].env == tenant {
      assert w.id in WorkIds(due);
    }
  }

  lemma OldestFirstSame(r: seq<string>, pool: set<string>, age: string -> int, age': string -> int)
    requires OldestFirst(r, pool, age) && forall x: string :: age(x) == age'(x)
    ensures OldestFirst(r, pool, age')
  {
  }

  /** What the first phase marks does not change what the second selects. */
  lemma AttachmentsStillChosen(env: Environment, tenant: string, s: Durable, s': Durable, a: nat,
                               docs: seq<DocumentWork>, n: nat, limit: nat, work: seq<KeyedWork>)
    requires n <= |docs| && DocumentsMarked(env, tenant, s, s', a, docs, n)
    requires ChosenAttachments(s', tenant, limit, work)
    ensures ChosenAttachments(s, tenant, limit, work)
  {
    hide Union;
    MarksOfTenant(env, tenant, docs, a + 1, n);
    assert PendingAttachments(s', tenant) == PendingAttachments(s, tenant);
    hide OldestFirst;
    OldestFirstSame(KeyedIds(work), PendingAttachments(s, tenant), AttachmentAge(s', tenant), AttachmentAge(s, tenant));
    forall w | w in work ensures SelectedAttachment(s, tenant, w) { assert SelectedAttachment(s', tenant, w); }
  }

  lemma TombstonesStillChosen(s: Durable, s': Durable, tenant: string, now: int, limit: nat, due: seq<KeyedWork>)
    requires s'.tombstones == s.tombstones && ChosenTombstones(s', tenant, now, limit, due)
    ensures ChosenTombstones(s, tenant, now, limit, due)
  {
    assert DueTombstones(s', tenant, now) == DueTombstones(s, tenant, now);
    OldestFirstSame(KeyedIds(due), DueTombstones(s, tenant, now), TombstoneAge(s'), TombstoneAge(s));
    hide OldestFirst;
  }

  /** A tenant whose lock is held to the end tries all that it has selected, whatever fails, unless it is given up. */
  lemma TenantTriesAll(env: Environment, a: nat, b: nat, v: TenantVisit, stats: Option<Stats>)
    requires TenantRan(env, a, false, b, v, stats) && stats.Some? && !env.LostIn(a, b)
    ensures v.docsTried == |v.docs| && v.workTried == |v.work| && v.dueTried == |v.due|
  {
    StartsInOrder(DocumentCalls(env), v.docs, a + 2, 0, v.docsTried);
    env.Joined(a, v.docsEnd, b);
    StartsInOrder(AttachmentCalls(env), v.work, v.docsEnd + 1, 0, v.workTried);
  }

  // ----- what follows for the documents, attachments and tombstones

  lemma DocumentMarksOwn(env: Environment, tenant: string, docs: seq<DocumentWork>, a: nat, n: nat, i: nat, slot: Slot)
    requires i < n <= |docs| && DistinctDocs(docs) && slot.id == docs[i].id
    ensures slot in Union(DocumentCalls(env), DocumentMarks(env, tenant), docs, a, n) <==>
              slot in DocumentMarks(env, tenant)(docs[i], Start(DocumentCalls(env), docs, a, i))
  {
    var calls, marks := DocumentCalls(env), DocumentMarks(env, tenant);
    hide Start, Union, SecondTook, TriesThumbnail, ThumbnailStart, DocumentCalls;
    UnionMembers(calls, marks, docs, a, n, slot);
    if j: nat :| j < n && ItemMarks(calls, marks, docs, a, j, slot) {
      assert docs[j].id == slot.id;
    }
    assert ItemMarks(calls, marks, docs, a, i, slot) <==> slot in marks(docs[i], Start(calls, docs, a, i));
  }

  /**
   * Whatever fails for the others: the main object of a document that was tried is
   * marked exactly when its copy returned and the mark took effect, and the thumbnail
   * exactly when its own did and the main object, if it was due, did not fail.
   */
  lemma DocumentBackedExactlyWhen(env: Environment, tenant: string, s: Durable, s': Durable, a: nat, v: TenantVisit,
                                  i: nat)
    requires v.Ordered() && TenantWorked(env, tenant, s, s', a, v) && i < v.docsTried && DistinctDocs(v.docs)
    ensures var d, t := v.docs[i], Start(DocumentCalls(env), v.docs, a + 2, i);
            var u := if d.needsMain then t + 2 else t;
            && (Main(tenant, d.id) in s'.backed <==>
                  Main(tenant, d.id) in s.backed || (d.needsMain && env.Ok(t) && env.Took(t + 1)))
            && (Thumbnail(tenant, d.id) in s'.backed <==>
                  || Thumbnail(tenant, d.id) in s.backed
                  || (d.needsThumbnail && (d.needsMain ==> env.Ok(t) && env.Ok(t + 1)) && env.Ok(u) && env.Took(u + 1)))
  {
    hide Union, Start, AfterPurges;
    var id := v.docs[i].id;
    DocumentMarksOwn(env, tenant, v.docs, a + 2, v.docsTried, i, Main(tenant, id));
    DocumentMarksOwn(env, tenant, v.docs, a + 2, v.docsTried, i, Thumbnail(tenant, id));
    AttachmentMarksOfTenant(env, tenant, v.work, v.docsEnd + 1, v.workTried);
  }

  /** And an attachment that was tried exactly when its copy returned and its mark took effect. */
  lemma AttachmentBackedExactlyWhen(env: Environment, tenant: string, s: Durable, s': Durable, a: nat, v: TenantVisit,
                                    i: nat)
    requires v.Ordered() && TenantWorked(env, tenant, s, s', a, v) && i < v.workTried && DistinctWork(v.work)
    ensures var slot, t := Attachment(tenant, v.work[i].id), Start(AttachmentCalls(env), v.work, v.docsEnd + 1, i);
            slot in s'.backed <==> slot in s.backed || (env.Ok(t) && env.Took(t + 1))
  {
    hide Union, Start, AfterPurges;
    var slot := Attachment(tenant, v.work[i].id);
    AttachmentMarksOwn(env, tenant, v.work, v.docsEnd + 1, v.workTried, i, slot);
    MarksOfTenant(env, tenant, v.docs, a + 2, v.docsTried);
  }

  lemma AttachmentMarksOwn(env: Environment, tenant: string, work: seq<KeyedWork>, a: nat, n: nat, i: nat, slot: Slot)
    requires i < n <= |work| && DistinctWork(work) && slot.id == work[i].id
    ensures slot in Union(AttachmentCalls(env), AttachmentMarks(env, tenant), work, a, n) <==>
              slot in AttachmentMarks(env, tenant)(work[i], Start(AttachmentCalls(env), work, a, i))
  {
    var calls, marks := AttachmentCalls(env), AttachmentMarks(env, tenant);
    hide Start, Union, SecondTook, AttachmentCalls;
    UnionMembers(calls, marks, work, a, n, slot);
    if j: nat :| j < n && ItemMarks(calls, marks, work, a, j, slot) {
      assert work[j].id == slot.id;
    }
    assert ItemMarks(calls, marks, work, a, i, slot) <==> slot in marks(work[i], Start(calls, work, a, i));
  }

  lemma SumSnoc<T>(calls: (T, nat) -> nat, value: (T, nat) -> nat, items: seq<T>, a: nat, i: nat)
    requires i < |items|
    ensures Sum(calls, value, items, a, i + 1)
         == Sum(calls, value, items, a, i) + value(items[i], Start(calls, items, a, i))
    ensures Start(calls, items, a, i + 1)
         == Start(calls, items, a, i) + calls(items[i], Start(calls, items, a, i))
  {
  }

  lemma NoDocumentYet(env: Environment, tenant: string, s: Durable, docs: seq<DocumentWork>, a: nat)
    ensures Union(DocumentCalls(env), DocumentMarks(env, tenant), docs, a, 0) == {}
    ensures SlotsOf(s, tenant, DocIds(docs[..0]), {}) == {}
    ensures Sum(DocumentCalls(env), DocumentCopied(env), docs, a, 0) == 0
    ensures Sum(DocumentCalls(env), DocumentFailed(env), docs, a, 0) == 0
  {
    assert docs[..0] == [];
  }

  /** When no call fails, the first n documents are marked completely. */
  lemma {:induction false} AllDocumentsMarked(env: Environment, tenant: string, s: Durable, docs: seq<DocumentWork>,
                                              a: nat, n: nat)
    requires n <= |docs| && DistinctDocs(docs) && forall d :: d in docs ==> Selected(s, tenant, d)
    requires env.AllOk(a, Start(DocumentCalls(env), docs, a, n))
    ensures var marked := s.backed + Union(DocumentCalls(env), DocumentMarks(env, tenant), docs, a, n);
            && marked == s.backed + SlotsOf(s, tenant, DocIds(docs[..n]), {})
            && Sum(DocumentCalls(env), DocumentCopied(env), docs, a, n) == |marked| - |s.backed|
            && Sum(DocumentCalls(env), DocumentFailed(env), docs, a, n) == 0
  {
    hide Start, Sum, Union, SlotsOf, DocIds, Selected, DistinctDocs, WorkSlots, WorkSize, Environment.AllOk;
    hide DocumentCalls, DocumentMarks, DocumentCopied, DocumentFailed;
    var calls, marks := DocumentCalls(env), DocumentMarks(env, tenant);
    if n > 0 {
      var i := n - 1;
      var t := Start(calls, docs, a, i);
      StartsInOrder(calls, docs, a, 0, i);
      StartsInOrder(calls, docs, a, i, n);
      SumSnoc(calls, DocumentCopied(env), docs, a, i);
      SumSnoc(calls, DocumentFailed(env), docs, a, i);
      UnionSnoc(calls, marks, docs, a, i);
      env.Joined(a, t, Start(calls, docs, a, n));
      AllDocumentsMarked(env, tenant, s, docs, a, i);
      DocumentOutcome(env, tenant, docs[i], t);
      NextDocument(s, tenant, docs, i);
      MarkedNext(s.backed, Union(calls, marks, docs, a, i), SlotsOf(s, tenant, DocIds(docs[..i]), {}),
                 WorkSlots(tenant, docs[i]));
    } else {
      NoDocumentYet(env, tenant, s, docs, a);
    }
  }

  lemma MarkedNext(backed: set<Slot>, marked: set<Slot>, slots: set<Slot>, more: set<Slot>)
    requires backed + marked == backed + slots
    ensures backed + (marked + more) == backed + slots + more
  {
  }

  lemma NoAttachmentYet(env: Environment, tenant: string, s: Durable, work: seq<KeyedWork>, a: nat)
    ensures Union(AttachmentCalls(env), AttachmentMarks(env, tenant), work, a, 0) == {}
    ensures SlotsOf(s, tenant, {}, WorkIds(work[..0])) == {}
    ensures Sum(AttachmentCalls(env), AttachmentCopied(env), work, a, 0) == 0
    ensures Sum(AttachmentCalls(env), AttachmentFailed(env), work, a, 0) == 0
  {
    assert work[..0] == [];
  }

  lemma {:induction false} AllAttachmentsMarked(env: Environment, tenant: string, s: Durable, work: seq<KeyedWork>,
                                                a: nat, n: nat)
    requires n <= |work| && DistinctWork(work) && forall w :: w in work ==> SelectedAttachment(s, tenant, w)
    requires env.AllOk(a, Start(AttachmentCalls(env), work, a, n))
    ensures var marked := s.backed + Union(AttachmentCalls(env), AttachmentMarks(env, tenant), work, a, n);
            && marked == s.backed + SlotsOf(s, tenant, {}, WorkIds(work[..n]))
            && Sum(AttachmentCalls(env), AttachmentCopied(env), work, a, n) == |marked| - |s.backed|
            && Sum(AttachmentCalls(env), AttachmentFailed(env), work, a, n) == 0
  {
    hide Start, Sum, Union, SlotsOf, WorkIds, SelectedAttachment, DistinctWork, Environment.AllOk;
    hide AttachmentCalls, AttachmentMarks, AttachmentCopied, AttachmentFailed;
    var calls, marks := AttachmentCalls(env), AttachmentMarks(env, tenant);
    if n > 0 {
      var i := n - 1;
      var t := Start(calls, work, a, i);
      StartsInOrder(calls, work, a, 0, i);
      StartsInOrder(calls, work, a, i, n);
      SumSnoc(calls, AttachmentCopied(env), work, a, i);
      SumSnoc(calls, AttachmentFailed(env), work, a, i);
      UnionSnoc(calls, marks, work, a, i);
      env.Joined(a, t, Start(calls, work, a, n));
      AllAttachmentsMarked(env, tenant, s, work, a, i);
      AttachmentOutcome(env, tenant, work[i], t);
      NextAttachment(s, tenant, work, i);
      MarkedNext(s.backed, Union(calls, marks, work, a, i), SlotsOf(s, tenant, {}, WorkIds(work[..i])),
                 {Attachment(tenant, work[i].id)});
    } else {
      NoAttachmentYet(env, tenant, s, work, a);
    }
  }

  lemma NoTombstoneYet(env: Environment, ts: map<string, Tombstone>, due: seq<KeyedWork>, a: nat)
    ensures AfterPurges(env, ts, due, a, 0) == ts - WorkIds(due[..0])
    ensures Sum(TombstoneCalls(env), TombstonePurged(env), due, a, 0) == 0
  {
    assert due[..0] == [];
  }

  lemma AfterPurgesSnoc(env: Environment, ts: map<string, Tombstone>, due: seq<KeyedWork>, a: nat, i: nat)
    requires i < |due|
    ensures AfterPurges(env, ts, due, a, i + 1)
         == AfterPurge(env, AfterPurges(env, ts, due, a, i), due[i].id, Start(TombstoneCalls(env), due, a, i))
  {
  }

  lemma TombstoneOutcome(env: Environment, ts: map<string, Tombstone>, w: KeyedWork, a: nat)
    requires env.AllOk(a, a + TombstoneCalls(env)(w, a))
    ensures AfterPurge(env, ts, w.id, a) == ts - {w.id} && TombstonePurged(env)(w, a) == 1 && !Throws(env, a)
  {
    BothOk(env, a, a + TombstoneCalls(env)(w, a));
  }

  lemma {:induction false} AllTombstonesPurged(env: Environment, ts: map<string, Tombstone>, due: seq<KeyedWork>,
                                               a: nat, n: nat)
    requires n <= |due| && DistinctWork(due) && env.AllOk(a, Start(TombstoneCalls(env), due, a, n))
    ensures AfterPurges(env, ts, due, a, n) == ts - WorkIds(due[..n])
    ensures Sum(TombstoneCalls(env), TombstonePurged(env), due, a, n) == n
    ensures forall i :: 0 <= i < n ==> !Throws(env, Start(TombstoneCalls(env), due, a, i))
  {
    hide Start, Sum, WorkIds, DistinctWork, Environment.AllOk;
    hide TombstoneCalls, TombstonePurged, Throws, AfterPurge, AfterPurges;
    var calls := TombstoneCalls(env);
    if n > 0 {
      var i := n - 1;
      var t := Start(calls, due, a, i);
      StartsInOrder(calls, due, a, 0, i);
      StartsInOrder(calls, due, a, i, n);
      SumSnoc(calls, TombstonePurged(env), due, a, i);
      AfterPurgesSnoc(env, ts, due, a, i);
      env.Joined(a, t, Start(calls, due, a, n));
      AllTombstonesPurged(env, ts, due, a, i);
      TombstoneOutcome(env, ts - WorkIds(due[..i]), due[i], t);
      WorkIdsSnoc(due, i);
      assert ts - WorkIds(due[..i]) - {due[i].id} == ts - WorkIds(due[..n]);
    } else {
      NoTombstoneYet(env, ts, due, a);
    }
  }

  // ----- nobody but the tenant is touched

  ghost predicate OnlyTenant(s: Durable, s': Durable, tenant: string) {
    && s' == s.(dest := s'.dest, backed := s'.backed, tombstones := s'.tombstones)
    && (forall slot: Slot :: slot.env != tenant ==> (slot in s'.backed <==> slot in s.backed))
    && (forall id :: id in s.tombstones && s.tombstones[id].env != tenant ==>
          id in s'.tombstones && s'.tombstones[id] == s.tombstones[id])
    && (forall id :: id in s'.tombstones ==> id in s.tombstones && s'.tombstones[id].env == s.tombstones[id].env)
  }

  lemma OnlyTenantQueues(s: Durable, s': Durable, tenant: string)
    requires OnlyTenant(s, s', tenant)
    ensures forall other, at :: other != tenant ==> SameQueues(s, s', other, at)
  {
    forall other, at | other != tenant ensures SameQueues(s, s', other, at) {
      assert forall slot: Slot :: slot.env == other ==> (slot in s'.backed <==> slot in s.backed);
      assert PendingDocuments(s', other) == PendingDocuments(s, other);
      assert PendingAttachments(s', other) == PendingAttachments(s, other);
      assert DueTombstones(s', other, at) == DueTombstones(s, other, at);
    }
  }

  lemma {:induction false} MarksOfTenant(env: Environment, tenant: string, docs: seq<DocumentWork>, a: nat, n: nat)
    requires n <= |docs|
    ensures forall slot :: slot in Union(DocumentCalls(env), DocumentMarks(env, tenant), docs, a, n) ==>
              slot.env == tenant && !slot.Attachment?
  {
    if n > 0 {
      MarksOfTenant(env, tenant, docs, a, n - 1);
      UnionSnoc(DocumentCalls(env), DocumentMarks(env, tenant), docs, a, n - 1);
      hide Union, Start;
    }
  }

  lemma {:induction false} AttachmentMarksOfTenant(env: Environment, tenant: string, work: seq<KeyedWork>, a: nat,
                                                   n: nat)
    requires n <= |work|
    ensures forall slot :: slot in Union(AttachmentCalls(env), AttachmentMarks(env, tenant), work, a, n) ==>
              slot.env == tenant && slot.Attachment?
  {
    if n > 0 {
      AttachmentMarksOfTenant(env, tenant, work, a, n - 1);
      UnionSnoc(AttachmentCalls(env), AttachmentMarks(env, tenant), work, a, n - 1);
      hide Union, Start;
    }
  }

  lemma {:induction false} PurgesKeepEnvironments(env: Environment, ts: map<string, Tombstone>, due: seq<KeyedWork>,
                                                  a: nat, n: nat)
    requires n <= |due|
    ensures forall id :: id in AfterPurges(env, ts, due, a, n) ==>
              id in ts && AfterPurges(env, ts, due, a, n)[id].env == ts[id].env
  {
    if n > 0 {
      PurgesKeepEnvironments(env, ts, due, a, n - 1);
    }
  }

  lemma WorkedOnlyTenant(env: Environment, tenant: string, s: Durable, s': Durable, a: nat, v: TenantVisit)
    requires v.Ordered() && TenantWorked(env, tenant, s, s', a, v)
    ensures OnlyTenant(s, s', tenant)
  {
    hide Union, AfterPurges;
    MarksOfTenant(env, tenant, v.docs, a + 2, v.docsTried);
    AttachmentMarksOfTenant(env, tenant, v.work, v.docsEnd + 1, v.workTried);
    PurgesKeepEnvironments(env, s.tombstones, v.due, v.workEnd + 1, v.dueTried);
    PurgesLeaveOthers(env, tenant, s.tombstones, v.due, v.workEnd + 1, v.dueTried);
  }

  lemma PurgesLeaveOthers(env: Environment, tenant: string, ts: map<string, Tombstone>, due: seq<KeyedWork>, a: nat,
                          n: nat)
    requires n <= |due| && forall w :: w in due ==> w.id in ts && ts[w.id].env == tenant
    ensures forall id :: id in ts && ts[id].env != tenant ==>
              id in AfterPurges(env, ts, due, a, n) && AfterPurges(env, ts, due, a, n)[id] == ts[id]
  {
    forall id | id in ts && ts[id].env != tenant
      ensures id in AfterPurges(env, ts, due, a, n) && AfterPurges(env, ts, due, a, n)[id] == ts[id]
    {
      forall i | 0 <= i < n ensures due[i].id != id { assert due[i] in due; }
      PurgeElsewhere(env, ts, due, a, n, id);
    }
  }

  // ----- a tenant none of whose calls fails

  lemma TenantOrder(env: Environment, a: nat, was: bool, b: nat, v: TenantVisit, stats: Option<Stats>)
    requires TenantRan(env, a, was, b, v, stats) && env.Ok(a)
    ensures a + 1 < v.docsEnd <= b
    ensures v.documents.Some? && !was && !env.LostIn(a, v.docsEnd) ==> v.docsEnd < v.workEnd <= b
    ensures v.documents.Some? && !was && !env.LostIn(a, v.docsEnd) && v.attachments.Some? ==> v.workEnd < b
  {
    hide DocumentCalls, AttachmentCalls, TombstoneCalls, Environment.LostIn, DocumentTally, AttachmentTally;
    if v.documents.Some? { StartsInOrder(DocumentCalls(env), v.docs, a + 2, 0, v.docsTried); }
    if v.documents.Some? && !was && !env.LostIn(a, v.docsEnd) {
      if v.attachments.Some? {
        StartsInOrder(AttachmentCalls(env), v.work, v.docsEnd + 1, 0, v.workTried);
        if env.Ok(v.workEnd) { StartsInOrder(TombstoneCalls(env), v.due, v.workEnd + 1, 0, v.dueTried); }
      }
    }
  }

  /** The ways of a tenant none of whose calls fails, with nobody else acting and the lock held: each batch is done. */
  ghost predicate AllDone(env: Environment, a: nat, b: nat, v: TenantVisit) {
    && v.docsTried == |v.docs| && v.workTried == |v.work| && v.dueTried == |v.due|
    && a + 2 <= v.docsEnd < v.workEnd < b
    && v.docsEnd == Start(DocumentCalls(env), v.docs, a + 2, |v.docs|)
    && v.workEnd == Start(AttachmentCalls(env), v.work, v.docsEnd + 1, |v.work|)
    && b == Start(TombstoneCalls(env), v.due, v.workEnd + 1, |v.due|)
    && env.AllOk(a + 2, v.docsEnd) && env.AllOk(v.docsEnd + 1, v.workEnd) && env.AllOk(v.workEnd + 1, b)
    && v.documents == Some(DocumentTally(env, v.docs, a + 2, |v.docs|))
    && v.attachments == Some(AttachmentTally(env, v.work, v.docsEnd + 1, |v.work|))
    && v.purged.Some? && env.Ok(v.workEnd)
  }

  lemma FineIsDone(env: Environment, a: nat, b: nat, v: TenantVisit, stats: Option<Stats>)
    requires TenantRan(env, a, false, b, v, stats) && a < b && env.Fine(a, b)
    requires v.Ordered()
    ensures AllDone(env, a, b, v) && stats == Some(AllStats(v.documents.value, v.attachments.value, v.purged.value))
  {
    hide DocumentCalls, AttachmentCalls, TombstoneCalls, DocumentTally, AttachmentTally, Start, Sum;
    assert env.Ok(a);
    TenantOrder(env, a, false, b, v, stats);
    assert env.Ok(a + 1);
    env.Joined(a, a + 2, v.docsEnd);
    env.Joined(a, v.docsEnd, b);
    assert env.Ok(v.docsEnd);
    env.Joined(v.docsEnd, v.docsEnd + 1, v.workEnd);
    env.Joined(v.docsEnd, v.workEnd, b);
    assert env.Ok(v.workEnd);
    env.Joined(v.workEnd, v.workEnd + 1, b);
    if v.purged.None? {
      AllTombstonesPurged(env, map[], v.due, v.workEnd + 1, v.dueTried);
    }
  }

  /** Nothing that the first phase marks is an attachment: the second selects as if from the marked state. */
  lemma AttachmentsChosenAfter(s: Durable, s1: Durable, tenant: string, limit: nat, docs: set<string>,
                               work: seq<KeyedWork>)
    requires OnlyBacked(s, s1) && s1.backed == s.backed + SlotsOf(s, tenant, docs, {})
    requires ChosenAttachments(s, tenant, limit, work)
    ensures |work| == Min(limit, |PendingAttachments(s1, tenant)|) && WorkIds(work) <= PendingAttachments(s1, tenant)
    ensures DistinctWork(work) && forall w :: w in work ==> SelectedAttachment(s1, tenant, w)
  {
    hide OldestFirst;
    assert PendingAttachments(s1, tenant) == PendingAttachments(s, tenant);
    forall w | w in work ensures SelectedAttachment(s1, tenant, w) { assert SelectedAttachment(s, tenant, w); }
  }

  lemma FineDocuments(env: Environment, tenant: string, limit: nat, s: Durable, a: nat, docs: seq<DocumentWork>)
    requires ChosenDocuments(s, tenant, limit, docs) && env.AllOk(a, Start(DocumentCalls(env), docs, a, |docs|))
    ensures var marked := s.backed + Union(DocumentCalls(env), DocumentMarks(env, tenant), docs, a, |docs|);
            && marked == s.backed + SlotsOf(s, tenant, DocIds(docs), {})
            && DocumentTally(env, docs, a, |docs|).0 == |marked| - |s.backed|
            && DocumentTally(env, docs, a, |docs|).2 == 0
    ensures DistinctDocs(docs)
    ensures |docs| == Min(limit, |PendingDocuments(s, tenant)|) && DocIds(docs) <= PendingDocuments(s, tenant)
  {
    hide OldestFirst, SlotsOf, Start, Sum, Union, Environment.AllOk;
    AllDocumentsMarked(env, tenant, s, docs, a, |docs|);
    assert docs[..|docs|] == docs;
  }

  lemma FineAttachments(env: Environment, tenant: string, s: Durable, a: nat, work: seq<KeyedWork>)
    requires DistinctWork(work) && forall w :: w in work ==> SelectedAttachment(s, tenant, w)
    requires env.AllOk(a, Start(AttachmentCalls(env), work, a, |work|))
    ensures var marked := s.backed + Union(AttachmentCalls(env), AttachmentMarks(env, tenant), work, a, |work|);
            && marked == s.backed + SlotsOf(s, tenant, {}, WorkIds(work))
            && AttachmentTally(env, work, a, |work|).0 == |marked| - |s.backed|
            && AttachmentTally(env, work, a, |work|).2 == 0
  {
    hide SlotsOf, Start, Sum, Union, Environment.AllOk;
    AllAttachmentsMarked(env, tenant, s, work, a, |work|);
    assert work[..|work|] == work;
  }

  lemma FineTombstones(env: Environment, tenant: string, now: int, limit: nat, s: Durable, s2: Durable, a: nat,
                       due: seq<KeyedWork>)
    requires s2.tombstones == s.tombstones && ChosenTombstones(s, tenant, now, limit, due)
    requires env.AllOk(a, Start(TombstoneCalls(env), due, a, |due|))
    ensures AfterPurges(env, s.tombstones, due, a, |due|) == s2.tombstones - WorkIds(due) && DistinctWork(due)
    ensures |due| == Min(limit, |DueTombstones(s2, tenant, now)|) && WorkIds(due) <= DueTombstones(s2, tenant, now)
  {
    hide OldestFirst, Start, Sum, AfterPurges, Environment.AllOk;
    AllTombstonesPurged(env, s.tombstones, due, a, |due|);
    assert due[..|due|] == due;
    assert DueTombstones(s2, tenant, now) == DueTombstones(s, tenant, now);
  }

  /** A tenant none of whose own calls fails loses a batch of each queue. */
  lemma FineTenant(env: Environment, tenant: string, now: int, limit: nat, s: Durable, s': Durable, a: nat, b: nat,
                   v: TenantVisit, stats: Option<Stats>)
    requires a < b && TenantRan(env, a, false, b, v, stats) && env.Fine(a, b)
    requires v.Ordered() && TenantWorked(env, tenant, s, s', a, v) && TenantChosen(env, s, tenant, now, limit, v)
    ensures stats.Some? && stats.value.failed == 0 && TenantProgress(s, s', tenant, now, limit)
    ensures stats.value.copied == |s'.backed| - |s.backed|
  {
    hide TenantRan, ChosenDocuments, ChosenAttachments, ChosenTombstones, SlotsOf, DocIds, WorkIds, TenantProgress;
    hide Selected, SelectedAttachment, DistinctDocs, DistinctWork, PendingDocuments, PendingAttachments, DueTombstones;
    hide Start, Sum, Union, AfterPurges, Environment.Fine, Environment.AllOk;
    FineIsDone(env, a, b, v, stats);
    FineDocuments(env, tenant, limit, s, a + 2, v.docs);
    var s1 := s.(backed := s.backed + Union(DocumentCalls(env), DocumentMarks(env, tenant), v.docs, a + 2, |v.docs|));
    AttachmentsChosenAfter(s, s1, tenant, limit, DocIds(v.docs), v.work);
    FineAttachments(env, tenant, s1, v.docsEnd + 1, v.work);
    var s2 := s1.(backed := s1.backed
                  + Union(AttachmentCalls(env), AttachmentMarks(env, tenant), v.work, v.docsEnd + 1, |v.work|));
    FineTombstones(env, tenant, now, limit, s, s2, v.workEnd + 1, v.due);
    TenantDone(s, s1, s2, s', tenant, now, limit, v.docs, v.work, v.due);
  }
}
