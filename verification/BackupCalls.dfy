/**
 * The calls of one backup run, numbered by ticks: what each of them did, and what
 * follows for the item it was made for.  Before every call the application may act
 * and the lock may be lost, and every call may fail before or after it took effect.
 */
module BackupCalls {
  import opened Wrappers
  import opened ObjectBackup

  /** What an operation on the database or the destination did. */
  datatype Outcome = Done | FailedBefore | FailedAfter

  datatype Environment = Environment(
    outcome: nat -> Outcome,
    app: nat -> seq<AppStep>,
    lockLost: nat -> bool,
    bytes: nat -> nat)
  {
    /** The call returned; otherwise it threw. */
    predicate Ok(t: nat) {
      outcome(t).Done?
    }

    /** The call took effect, whether or not it threw. */
    predicate Took(t: nat) {
      !outcome(t).FailedBefore?
    }

    ghost predicate AllOk(a: nat, b: nat) {
      forall t: nat :: a <= t < b ==> Ok(t)
    }

    /** The application does nothing before any of these calls. */
    ghost predicate Calm(a: nat, b: nat) {
      forall t: nat :: a <= t < b ==> app(t) == []
    }

    /** The lock is lost before one of these calls. */
    ghost predicate LostIn(a: nat, b: nat) {
      exists t: nat :: a <= t < b && lockLost(t)
    }

    /** Nothing fails, nobody else acts, and the lock is held. */
    ghost predicate Fine(a: nat, b: nat) {
      AllOk(a, b) && Calm(a, b) && !LostIn(a, b)
    }

    ghost predicate Quiet() {
      forall t: nat :: Ok(t) && app(t) == [] && !lockLost(t)
    }

    lemma Joined(a: nat, b: nat, c: nat)
      requires a <= b <= c
      ensures AllOk(a, c) <==> AllOk(a, b) && AllOk(b, c)
      ensures Calm(a, c) <==> Calm(a, b) && Calm(b, c)
      ensures LostIn(a, c) <==> LostIn(a, b) || LostIn(b, c)
      ensures Fine(a, c) <==> Fine(a, b) && Fine(b, c)
    {
      assert LostIn(a, b) ==> LostIn(a, c);
      assert LostIn(b, c) ==> LostIn(a, c);
    }

    lemma Single(a: nat)
      ensures AllOk(a, a + 1) <==> Ok(a)
      ensures Calm(a, a + 1) <==> app(a) == []
      ensures LostIn(a, a + 1) <==> lockLost(a)
      ensures AllOk(a, a) && Calm(a, a) && !LostIn(a, a)
    {
      assert lockLost(a) ==> LostIn(a, a + 1);
    }

    lemma FirstIsOk(a: nat, b: nat)
      requires a < b && Fine(a, b)
      ensures Ok(a)
    {
    }

    lemma QuietIsFine(a: nat, b: nat)
      requires Quiet()
      ensures Fine(a, b)
    {
    }
  }

  datatype DocumentWork = DocumentWork(
    id: string,
    folderPath: string,
    thumbnailPath: Option<string>,
    needsMain: bool,
    needsThumbnail: bool)

  datatype KeyedWork = KeyedWork(id: string, storageKey: string)

  datatype Stats = Stats(copied: nat, bytes: nat, failed: nat, purged: nat)

  // ----- a batch of items, one after the other

  /** Where item i begins, when the batch begins at tick a. */
  function Start<T>(calls: (T, nat) -> nat, items: seq<T>, a: nat, i: nat): (t: nat)
    requires i <= |items|
    ensures a <= t
  {
    if i == 0 then a
    else
      var t := Start(calls, items, a, i - 1);
      t + calls(items[i - 1], t)
  }

  /** A number for each of the first i items, added up. */
  function Sum<T>(calls: (T, nat) -> nat, value: (T, nat) -> nat, items: seq<T>, a: nat, i: nat): nat
    requires i <= |items|
  {
    if i == 0 then 0
    else Sum(calls, value, items, a, i - 1) + value(items[i - 1], Start(calls, items, a, i - 1))
  }

  /** What the first i items mark. */
  function Union<T>(calls: (T, nat) -> nat, marks: (T, nat) -> set<Slot>, items: seq<T>, a: nat, i: nat): set<Slot>
    requires i <= |items|
  {
    if i == 0 then {}
    else Union(calls, marks, items, a, i - 1) + marks(items[i - 1], Start(calls, items, a, i - 1))
  }

  /**
   * The first n items are tried, one after the other: all of them, unless the lock
   * is lost on the way, and none after that.
   */
  ghost predicate Visits<T>(env: Environment, calls: (T, nat) -> nat, items: seq<T>, a: nat, was: bool, n: nat) {
    && HeldFor(env, calls, items, a, was, n)
    && (n < |items| ==> was || env.LostIn(a, Start(calls, items, a, n)))
  }

  /** The lock is still held where each of the first n items begins. */
  ghost predicate HeldFor<T>(env: Environment, calls: (T, nat) -> nat, items: seq<T>, a: nat, was: bool, n: nat) {
    n <= |items| && forall i :: 0 <= i < n ==> !was && !env.LostIn(a, Start(calls, items, a, i))
  }

  lemma HeldForNext<T>(env: Environment, calls: (T, nat) -> nat, items: seq<T>, a: nat, was: bool, n: nat)
    requires HeldFor(env, calls, items, a, was, n) && n < |items|
    requires !was && !env.LostIn(a, Start(calls, items, a, n))
    ensures HeldFor(env, calls, items, a, was, n + 1)
  {
  }

  lemma {:induction false} StartsInOrder<T>(calls: (T, nat) -> nat, items: seq<T>, a: nat, i: nat, j: nat)
    requires i <= j <= |items|
    ensures a <= Start(calls, items, a, i) <= Start(calls, items, a, j)
  {
    if i < j {
      StartsInOrder(calls, items, a, i, j - 1);
    }
  }

  ghost predicate ItemMarks<T>(calls: (T, nat) -> nat, marks: (T, nat) -> set<Slot>, items: seq<T>, a: nat, i: nat,
                               slot: Slot)
  {
    i < |items| && slot in marks(items[i], Start(calls, items, a, i))
  }

  lemma {:induction false} UnionMembers<T>(calls: (T, nat) -> nat, marks: (T, nat) -> set<Slot>, items: seq<T>, a: nat,
                                           n: nat, slot: Slot)
    requires n <= |items|
    ensures slot in Union(calls, marks, items, a, n) <==>
              exists i: nat :: i < n && ItemMarks(calls, marks, items, a, i, slot)
  {
    if n > 0 {
      UnionMembers(calls, marks, items, a, n - 1, slot);
      UnionSnoc(calls, marks, items, a, n - 1);
      assert ItemMarks(calls, marks, items, a, n - 1, slot) <==>
             slot in marks(items[n - 1], Start(calls, items, a, n - 1));
      hide Union, Start, ItemMarks;
    }
  }

  lemma UnionSnoc<T>(calls: (T, nat) -> nat, marks: (T, nat) -> set<Slot>, items: seq<T>, a: nat, i: nat)
    requires i < |items|
    ensures Union(calls, marks, items, a, i + 1)
         == Union(calls, marks, items, a, i) + marks(items[i], Start(calls, items, a, i))
  {
  }

  // ----- a copy and its mark

  function CopyCalls(env: Environment, a: nat): nat {
    if env.Ok(a) then 2 else 1
  }

  /** Both calls returned. */
  predicate Confirmed(env: Environment, a: nat) {
    env.Ok(a) && env.Ok(a + 1)
  }

  /** The second call was made, and took effect. */
  predicate SecondTook(env: Environment, a: nat) {
    env.Ok(a) && env.Took(a + 1)
  }

  function CopyBytes(env: Environment, a: nat): nat {
    if env.Ok(a) then env.bytes(a) else 0
  }

  // ----- documents: the main object first, the thumbnail unless that failed

  predicate MainFails(env: Environment, d: DocumentWork, a: nat) {
    d.needsMain && !Confirmed(env, a)
  }

  function ThumbnailStart(env: Environment, d: DocumentWork, a: nat): nat {
    a + if d.needsMain then CopyCalls(env, a) else 0
  }

  predicate TriesThumbnail(env: Environment, d: DocumentWork, a: nat) {
    d.needsThumbnail && !MainFails(env, d, a)
  }

  function DocumentCalls(env: Environment): (DocumentWork, nat) -> nat {
    (d: DocumentWork, a: nat) =>
      var t := ThumbnailStart(env, d, a);
      t - a + if TriesThumbnail(env, d, a) then CopyCalls(env, t) else 0
  }

  function DocumentMarks(env: Environment, tenant: string): (DocumentWork, nat) -> set<Slot> {
    (d: DocumentWork, a: nat) => MainMarks(env, tenant, d, a) + ThumbnailMarks(env, tenant, d, a)
  }

  function MainMarks(env: Environment, tenant: string, d: DocumentWork, a: nat): set<Slot> {
    if d.needsMain && SecondTook(env, a) then {Main(tenant, d.id)} else {}
  }

  function ThumbnailMarks(env: Environment, tenant: string, d: DocumentWork, a: nat): set<Slot> {
    if TriesThumbnail(env, d, a) && SecondTook(env, ThumbnailStart(env, d, a)) then {Thumbnail(tenant, d.id)} else {}
  }

  function DocumentCopied(env: Environment): (DocumentWork, nat) -> nat {
    (d: DocumentWork, a: nat) =>
      (if d.needsMain && Confirmed(env, a) then 1 else 0)
      + (if TriesThumbnail(env, d, a) && Confirmed(env, ThumbnailStart(env, d, a)) then 1 else 0)
  }

  /** Only a failed main object counts as a failure. */
  function DocumentFailed(env: Environment): (DocumentWork, nat) -> nat {
    (d: DocumentWork, a: nat) => if MainFails(env, d, a) then 1 else 0
  }

  /** Only the main object counts. */
  function DocumentBytes(env: Environment): (DocumentWork, nat) -> nat {
    (d: DocumentWork, a: nat) => MainBytes(env, d, a)
  }

  function MainBytes(env: Environment, d: DocumentWork, a: nat): nat {
    if d.needsMain then CopyBytes(env, a) else 0
  }

  /** The columns that the work on a document will mark. */
  function WorkSlots(env: string, d: DocumentWork): set<Slot> {
    (if d.needsMain then {Main(env, d.id)} else {}) + (if d.needsThumbnail then {Thumbnail(env, d.id)} else {})
  }

  function WorkSize(d: DocumentWork): nat {
    (if d.needsMain then 1 else 0) + (if d.needsThumbnail then 1 else 0)
  }

  lemma BothOk(env: Environment, a: nat, b: nat)
    requires env.AllOk(a, b) && a + CopyCalls(env, a) <= b
    ensures Confirmed(env, a) && SecondTook(env, a) && CopyCalls(env, a) == 2
  {
    assert env.Ok(a);
    assert env.Ok(a + 1);
  }

  /** A document none of whose own calls fails is marked; a failed main object keeps its thumbnail for another run. */
  lemma DocumentOutcome(env: Environment, tenant: string, d: DocumentWork, a: nat)
    ensures env.AllOk(a, a + DocumentCalls(env)(d, a)) ==>
              && DocumentMarks(env, tenant)(d, a) == WorkSlots(tenant, d)
              && DocumentFailed(env)(d, a) == 0 && DocumentCopied(env)(d, a) == WorkSize(d)
    ensures d.needsMain && (!env.Ok(a) || !env.Ok(a + 1)) ==>
              && DocumentFailed(env)(d, a) == 1 && Thumbnail(tenant, d.id) !in DocumentMarks(env, tenant)(d, a)
    ensures DocumentMarks(env, tenant)(d, a) <= WorkSlots(tenant, d)
  {
    var b, t := a + DocumentCalls(env)(d, a), ThumbnailStart(env, d, a);
    if env.AllOk(a, b) {
      if d.needsMain { BothOk(env, a, b); }
      if d.needsThumbnail {
        env.Joined(a, t, b);
        BothOk(env, t, b);
      }
    }
  }

  /**
   * What is counted for a document: a failure when a call for its main object threw,
   * a copy for each object both of whose calls returned, and the bytes of the main
   * object as soon as its copy returned, marked or not.
   */
  lemma DocumentCounted(env: Environment, d: DocumentWork, a: nat)
    ensures var fails, u := d.needsMain && !(env.Ok(a) && env.Ok(a + 1)), if d.needsMain then a + 2 else a;
            && DocumentFailed(env)(d, a) == (if fails then 1 else 0)
            && DocumentBytes(env)(d, a) == (if d.needsMain && env.Ok(a) then env.bytes(a) else 0)
            && DocumentCopied(env)(d, a)
               == (if d.needsMain && !fails then 1 else 0)
                  + (if d.needsThumbnail && !fails && env.Ok(u) && env.Ok(u + 1) then 1 else 0)
  {
  }

  // ----- attachments

  function AttachmentCalls(env: Environment): (KeyedWork, nat) -> nat {
    (w: KeyedWork, a: nat) => CopyCalls(env, a)
  }

  function AttachmentMarks(env: Environment, tenant: string): (KeyedWork, nat) -> set<Slot> {
    (w: KeyedWork, a: nat) => if SecondTook(env, a) then {Attachment(tenant, w.id)} else {}
  }

  function AttachmentCopied(env: Environment): (KeyedWork, nat) -> nat {
    (w: KeyedWork, a: nat) => if Confirmed(env, a) then 1 else 0
  }

  function AttachmentFailed(env: Environment): (KeyedWork, nat) -> nat {
    (w: KeyedWork, a: nat) => if Confirmed(env, a) then 0 else 1
  }

  function AttachmentBytes(env: Environment): (KeyedWork, nat) -> nat {
    (w: KeyedWork, a: nat) => CopyBytes(env, a)
  }

  lemma AttachmentOutcome(env: Environment, tenant: string, w: KeyedWork, a: nat)
    ensures env.AllOk(a, a + AttachmentCalls(env)(w, a)) ==>
              && AttachmentMarks(env, tenant)(w, a) == {Attachment(tenant, w.id)}
              && AttachmentFailed(env)(w, a) == 0 && AttachmentCopied(env)(w, a) == 1
    ensures !(env.Ok(a) && env.Ok(a + 1)) ==> AttachmentFailed(env)(w, a) == 1 && AttachmentCopied(env)(w, a) == 0
  {
    var b := a + AttachmentCalls(env)(w, a);
    if env.AllOk(a, b) { BothOk(env, a, b); }
  }

  /** For an attachment: a copy or a failure, and the bytes as soon as its copy returned. */
  lemma AttachmentCounted(env: Environment, w: KeyedWork, a: nat)
    ensures AttachmentCopied(env)(w, a) + AttachmentFailed(env)(w, a) == 1
    ensures AttachmentFailed(env)(w, a) == 1 <==> !env.Ok(a) || !env.Ok(a + 1)
    ensures AttachmentBytes(env)(w, a) == if env.Ok(a) then env.bytes(a) else 0
  {
  }

  // ----- tombstones: delete, drop, or count the attempt

  function BumpAt(env: Environment, a: nat): nat {
    a + CopyCalls(env, a)
  }

  function TombstoneCalls(env: Environment): (KeyedWork, nat) -> nat {
    (w: KeyedWork, a: nat) => CopyCalls(env, a) + if Confirmed(env, a) then 0 else 1
  }

  /** Counting the attempt fails in its turn: the tenant is given up. */
  predicate Throws(env: Environment, a: nat) {
    !Confirmed(env, a) && !env.Ok(BumpAt(env, a))
  }

  function TombstonePurged(env: Environment): (KeyedWork, nat) -> nat {
    (w: KeyedWork, a: nat) => if Confirmed(env, a) then 1 else 0
  }

  /** What one purge leaves of the queue. */
  function AfterPurge(env: Environment, ts: map<string, Tombstone>, id: string, a: nat): map<string, Tombstone> {
    if SecondTook(env, a) then ts - {id}
    else if env.Took(BumpAt(env, a)) && id in ts then ts[id := ts[id].(attempts := ts[id].attempts + 1)]
    else ts
  }

  function AfterPurges(env: Environment, ts: map<string, Tombstone>, due: seq<KeyedWork>, a: nat, n: nat)
    : map<string, Tombstone>
    requires n <= |due|
  {
    if n == 0 then ts
    else AfterPurge(env, AfterPurges(env, ts, due, a, n - 1), due[n - 1].id,
                    Start(TombstoneCalls(env), due, a, n - 1))
  }

  /**
   * The first n tombstones have been tried; purged is None if the attempt at the last
   * of them could not be counted, and otherwise the number of those done.
   */
  ghost predicate PurgesTried(env: Environment, due: seq<KeyedWork>, a: nat, was: bool, n: nat, purged: Option<nat>) {
    var calls := TombstoneCalls(env);
    && HeldFor(env, calls, due, a, was, n)
    && (forall i :: 0 <= i < n ==> (Throws(env, Start(calls, due, a, i)) <==> purged.None? && i == n - 1))
    && (purged.None? ==> n > 0)
    && (purged.Some? ==> purged.value == Sum(calls, TombstonePurged(env), due, a, n))
  }

  /** They are tried until the lock is lost or an attempt cannot be counted. */
  ghost predicate PurgeVisits(env: Environment, due: seq<KeyedWork>, a: nat, was: bool, n: nat, purged: Option<nat>) {
    && PurgesTried(env, due, a, was, n, purged)
    && (n < |due| && purged.Some? ==> was || env.LostIn(a, Start(TombstoneCalls(env), due, a, n)))
  }

  /**
   * The tenant is given up exactly when, for the last tombstone tried, the delete or the
   * drop threw and the counting of the attempt threw as well; no other was so.
   */
  lemma GivenUpExactlyWhen(env: Environment, due: seq<KeyedWork>, a: nat, was: bool, n: nat, purged: Option<nat>)
    requires PurgeVisits(env, due, a, was, n, purged)
    ensures forall i: nat :: i < n ==> (ThrewTwice(env, Start(TombstoneCalls(env), due, a, i)) <==>
                                        purged.None? && i == n - 1)
    ensures purged.None? ==> n > 0
  {
    hide HeldFor, Start;
  }

  /** The delete threw, or the drop, and so did the call behind it that counts the attempt. */
  predicate ThrewTwice(env: Environment, t: nat) {
    (!env.Ok(t) && !env.Ok(t + 1)) || (env.Ok(t) && !env.Ok(t + 1) && !env.Ok(t + 2))
  }

  lemma NextPurgeTried(env: Environment, due: seq<KeyedWork>, a: nat, was: bool, n: nat, purged: nat)
    requires PurgesTried(env, due, a, was, n, Some(purged)) && n < |due|
    requires !was && !env.LostIn(a, Start(TombstoneCalls(env), due, a, n))
    ensures var t := Start(TombstoneCalls(env), due, a, n);
            PurgesTried(env, due, a, was, n + 1,
                        if Throws(env, t) then None else Some(purged + TombstonePurged(env)(due[n], t)))
  {
    hide HeldFor, Environment.LostIn, Start, Throws, TombstonePurged, TombstoneCalls;
    HeldForNext(env, TombstoneCalls(env), due, a, was, n);
  }

  ghost predicate DistinctWork(work: seq<KeyedWork>) {
    forall i, j :: 0 <= i < j < |work| ==> work[i].id != work[j].id
  }

  lemma {:induction false} PurgeElsewhere(env: Environment, ts: map<string, Tombstone>, due: seq<KeyedWork>, a: nat,
                                          n: nat, id: string)
    requires n <= |due| && forall i :: 0 <= i < n ==> due[i].id != id
    ensures id in AfterPurges(env, ts, due, a, n) <==> id in ts
    ensures id in ts ==> AfterPurges(env, ts, due, a, n)[id] == ts[id]
  {
    if n > 0 {
      PurgeElsewhere(env, ts, due, a, n - 1, id);
    }
  }

  /**
   * Whatever failed for the others: a tombstone that was tried is gone exactly when the
   * delete returned and the drop took effect, and otherwise it has one attempt more if
   * counting it took effect.
   */
  lemma {:induction false} PurgeOutcome(env: Environment, ts: map<string, Tombstone>, due: seq<KeyedWork>, a: nat,
                                        n: nat, i: nat)
    requires i < n <= |due| && DistinctWork(due) && due[i].id in ts
    ensures var t, id, after := Start(TombstoneCalls(env), due, a, i), due[i].id, AfterPurges(env, ts, due, a, n);
            var bump := if env.Ok(t) then t + 2 else t + 1;
            && (id !in after <==> env.Ok(t) && env.Took(t + 1))
            && (id in after ==>
                  after[id] == ts[id].(attempts := ts[id].attempts + if env.Took(bump) then 1 else 0))
  {
    hide Start, TombstoneCalls;
    if i < n - 1 {
      PurgeOutcome(env, ts, due, a, n - 1, i);
    } else {
      PurgeElsewhere(env, ts, due, a, i, due[i].id);
    }
  }
}
