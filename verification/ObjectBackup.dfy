/**
 * The durable state behind jobs/object-storage-backup.job.ts and the effects that
 * may change it: uploads and deletes at the backup destination, row updates of
 * the catalog and of the two deletion queues, and what the application does to
 * the catalog at the same time.
 *
 * `Allowed` is the protocol: mark only what has been uploaded, drop a tombstone
 * only when its object is gone, drop a purge row only when its prefix is empty.
 * A crash can cut a sequence of effects anywhere, so the theorems speak about
 * every sequence of allowed effects.
 */
module ObjectBackup {
  import opened Wrappers

  const ROOT := "environment-storage/"

  /** A column of the catalog that names an object: a document, its thumbnail, a note attachment. */
  datatype Slot =
    | Main(env: string, id: string)
    | Thumbnail(env: string, id: string)
    | Attachment(env: string, id: string)

  datatype Tombstone = Tombstone(env: string, key: string, deleteAfter: int, attempts: nat)

  datatype Purge = Purge(deleteAfter: int, attempts: nat)

  /** How a provider lists a prefix: by walking a directory, or by raw key prefix. */
  datatype Listing = ByDirectory | ByKeyPrefix

  datatype Durable = Durable(
    dest: set<string>,
    live: set<string>,
    rows: map<Slot, string>,
    backed: set<Slot>,
    tombstones: map<string, Tombstone>,
    purges: map<string, Purge>,
    created: map<Slot, int>,
    dropped: set<string>,
    issuedSlots: set<Slot>,
    issuedKeys: set<string>,
    issuedTombstones: set<string>)

  /**
   * What the application does in one transaction.  Ids and keys are never reused.
   * Rows leave with tombstones for their keys, or without: when a failed upload is
   * undone, when a deleted note takes an attachment along that came after its
   * attachments were listed, when a document is deleted whose thumbnail came after
   * its keys were read.  A transaction that read its keys earlier may also repeat
   * a tombstone.
   */
  datatype AppStep =
    | InsertRows(rows: map<Slot, string>, createdAt: int)
    | DeleteRows(slots: set<Slot>, tombstones: map<string, Tombstone>)
    | CreateEnvironment(env: string)
    | DestroyEnvironment(env: string, deleteAfter: int)

  datatype Effect =
    | App(step: AppStep)
    | Upload(key: string)
    | MarkBacked(slot: Slot)
    | DeleteObject(key: string)
    | DropTombstone(id: string)
    | BumpTombstone(id: string)
    | DropPurge(env: string)
    | BumpPurge(env: string)

  const EmptyState := Durable({}, {}, map[], {}, map[], map[], map[], {}, {}, {}, {})

  // ----- keys and prefixes

  predicate SlashFree(env: string) {
    '/' !in env
  }

  predicate Under(env: string, key: string) {
    ROOT + env + "/" <= key
  }

  predicate Lists(listing: Listing, env: string, key: string) {
    match listing
    case ByDirectory => Under(env, key)
    case ByKeyPrefix => ROOT + env <= key
  }

  /** A purge of `gone` can list a key of `env`. */
  predicate Reaches(listing: Listing, gone: string, env: string) {
    gone == env || (listing.ByKeyPrefix? && gone <= env)
  }

  /** Exactly the own subtree, or for a raw prefix also that of every id that extends the purged one. */
  lemma PurgeReachesExactly(listing: Listing, gone: string, env: string)
    requires SlashFree(gone) && SlashFree(env)
    ensures Reaches(listing, gone, env) <==> exists key :: Under(env, key) && Lists(listing, gone, key)
  {
    if Reaches(listing, gone, env) {
      var key := ROOT + env + "/";
      assert Under(env, key);
      if gone <= env { assert ROOT + gone <= key; }
      assert Lists(listing, gone, key);
    }
    forall key | Under(env, key) && Lists(listing, gone, key) ensures Reaches(listing, gone, env) {
      var t := key[|ROOT|..];
      PrefixTail(ROOT, env + "/", key);
      assert ROOT + (env + "/") == ROOT + env + "/";
      PrefixTail(ROOT, gone, key);
      PrefixOfSegment(gone, env, t);
      if listing.ByDirectory? {
        assert ROOT + (gone + "/") == ROOT + gone + "/";
        PrefixTail(ROOT, gone + "/", key);
        PrefixOfSegment(env, gone, t);
      }
    }
  }

  lemma PrefixTail(root: string, rest: string, key: string)
    requires root + rest <= key
    ensures rest <= key[|root|..]
  {
    assert forall i :: 0 <= i < |rest| ==> (root + rest)[|root| + i] == rest[i];
  }

  /** A slash-free prefix ends no later than the first path segment. */
  lemma PrefixOfSegment(p: string, segment: string, t: string)
    requires SlashFree(p) && segment + "/" <= t && p <= t
    ensures p <= segment
  {
    if p != [] {
      assert p[0] in p && t[0] == p[0] == (segment + "/")[0];
      if segment != [] {
        assert (segment + "/")[1..] == segment[1..] + "/";
        PrefixOfSegment(p[1..], segment[1..], t[1..]);
        assert p == [p[0]] + p[1..] && segment == [segment[0]] + segment[1..];
      }
    }
  }

  // ----- the effects

  predicate HasTombstone(ts: map<string, Tombstone>, key: string) {
    exists id :: id in ts && ts[id].key == key
  }

  ghost predicate Purging(listing: Listing, s: Durable, key: string) {
    exists env :: env in s.purges && Lists(listing, env, key)
  }

  /** Someone will delete the backup copy of this key in the end, or a catalog row still wants it. */
  ghost predicate Covered(s: Durable, key: string) {
    || key in s.rows.Values
    || HasTombstone(s.tombstones, key)
    || (exists env :: env in s.purges && Under(env, key))
  }

  /** Covered, or once the key of a row that left without a tombstone. */
  ghost predicate Answered(s: Durable, key: string) {
    Covered(s, key) || key in s.dropped
  }

  /** The keys that these rows leave behind without a tombstone. */
  function DroppedKeys(s: Durable, slots: set<Slot>, ts: map<string, Tombstone>): set<string> {
    set slot | slot in slots && slot in s.rows && !HasTombstone(ts, s.rows[slot]) :: s.rows[slot]
  }

  predicate Injective(rows: map<Slot, string>) {
    forall a, b :: a in rows && b in rows && rows[a] == rows[b] ==> a == b
  }

  predicate AppAllowed(listing: Listing, s: Durable, a: AppStep) {
    match a
    case InsertRows(rows, _) =>
      && Injective(rows)
      && (forall slot :: slot in rows ==>
            slot !in s.issuedSlots && rows[slot] !in s.issuedKeys && slot.env in s.live && Under(slot.env, rows[slot]))
    case DeleteRows(slots, ts) =>
      && slots <= s.rows.Keys
      && (forall id :: id in ts ==>
            && id !in s.issuedTombstones && ts[id].env in s.live && Under(ts[id].env, ts[id].key)
            && ts[id].key in s.issuedKeys && ts[id].key !in (s.rows - slots).Values)
    case CreateEnvironment(env) =>
      && SlashFree(env) && env !in s.live
      && (forall gone :: gone in s.purges ==> !Reaches(listing, gone, env))
      && (forall other :: other in s.live ==> !Reaches(listing, env, other) && !Reaches(listing, other, env))
    case DestroyEnvironment(env, _) => env in s.live
  }

  function AppApply(s: Durable, a: AppStep): Durable {
    match a
    case InsertRows(rows, createdAt) =>
      s.(rows := s.rows + rows,
         created := s.created + (map slot | slot in rows :: createdAt),
         issuedSlots := s.issuedSlots + rows.Keys,
         issuedKeys := s.issuedKeys + rows.Values)
    case DeleteRows(slots, ts) =>
      s.(rows := s.rows - slots,
         backed := s.backed - slots,
         tombstones := s.tombstones + ts,
         dropped := s.dropped + DroppedKeys(s, slots, ts),
         issuedTombstones := s.issuedTombstones + ts.Keys)
    case CreateEnvironment(env) => s.(live := s.live + {env})
    case DestroyEnvironment(env, deleteAfter) =>
      s.(live := s.live - {env},
         rows := (map slot | slot in s.rows && slot.env != env :: s.rows[slot]),
         backed := (set slot | slot in s.backed && slot.env != env),
         tombstones := (map id | id in s.tombstones && s.tombstones[id].env != env :: s.tombstones[id]),
         purges := s.purges[env := Purge(deleteAfter, 0)])
  }

  ghost predicate Allowed(listing: Listing, s: Durable, e: Effect) {
    match e
    case App(a) => AppAllowed(listing, s, a)
    case Upload(key) => Answered(s, key)
    case MarkBacked(slot) => slot in s.rows ==> s.rows[slot] in s.dest
    case DeleteObject(key) =>
      HasTombstone(s.tombstones, key) || Purging(listing, s, key)
    case DropTombstone(id) => id in s.tombstones ==> s.tombstones[id].key !in s.dest
    case DropPurge(env) => forall key :: key in s.dest ==> !Lists(listing, env, key)
    case _ => true
  }

  /** Row updates and deletes by id leave the table alone when the row is gone. */
  function Apply(s: Durable, e: Effect): Durable {
    match e
    case App(a) => AppApply(s, a)
    case Upload(key) => s.(dest := s.dest + {key})
    case MarkBacked(slot) => if slot in s.rows then s.(backed := s.backed + {slot}) else s
    case DeleteObject(key) => s.(dest := s.dest - {key})
    case DropTombstone(id) => s.(tombstones := s.tombstones - {id})
    case BumpTombstone(id) =>
      if id in s.tombstones then
        s.(tombstones := s.tombstones[id := s.tombstones[id].(attempts := s.tombstones[id].attempts + 1)])
      else s
    case DropPurge(env) => s.(purges := s.purges - {env})
    case BumpPurge(env) =>
      if env in s.purges then s.(purges := s.purges[env := s.purges[env].(attempts := s.purges[env].attempts + 1)])
      else s
  }

  /** The state after a sequence of effects, or None when one of them broke the protocol. */
  ghost function Replay(listing: Listing, start: Durable, log: seq<Effect>): Option<Durable> {
    if log == [] then Some(start)
    else match Replay(listing, start, log[..|log| - 1])
      case Some(s) => if Allowed(listing, s, log[|log| - 1]) then Some(Apply(s, log[|log| - 1])) else None
      case None => None
  }

  // ----- what every crash point satisfies

  /** A row that is marked backed up has its object at the destination. */
  ghost predicate BackedIsStored(s: Durable) {
    forall slot :: slot in s.backed ==> slot in s.rows && s.rows[slot] in s.dest
  }

  /** An object at the destination that nothing will ever delete or ask for. */
  ghost predicate Orphan(s: Durable, key: string) {
    key in s.dest && !Covered(s, key)
  }

  ghost predicate NoOrphans(s: Durable) {
    forall key :: !Orphan(s, key)
  }

  /** Every object at the destination is answered for: an orphan's row left without a tombstone. */
  ghost predicate DestAnswered(s: Durable) {
    forall key :: key in s.dest ==> Answered(s, key)
  }

  ghost predicate KeysApart(s: Durable) {
    && Injective(s.rows)
    && s.rows.Keys <= s.issuedSlots && s.rows.Values <= s.issuedKeys && s.dropped <= s.issuedKeys - s.rows.Values
    && s.tombstones.Keys <= s.issuedTombstones
    && (forall id :: id in s.tombstones ==>
          s.tombstones[id].key in s.issuedKeys && s.tombstones[id].key !in s.rows.Values)
  }

  ghost predicate Placed(listing: Listing, s: Durable) {
    && (forall env :: env in s.live ==> SlashFree(env))
    && (forall env :: env in s.purges ==> SlashFree(env))
    && (forall slot :: slot in s.rows ==> slot.env in s.live && Under(slot.env, s.rows[slot]))
    && (forall id :: id in s.tombstones ==>
          s.tombstones[id].env in s.live && Under(s.tombstones[id].env, s.tombstones[id].key))
    && (forall gone, env :: gone in s.purges && env in s.live ==> !Reaches(listing, gone, env))
    && (forall a, b :: a in s.live && b in s.live && a != b ==> !Reaches(listing, a, b))
  }

  ghost predicate Safe(listing: Listing, s: Durable) {
    BackedIsStored(s) && DestAnswered(s) && KeysApart(s) && Placed(listing, s)
  }

  /** Only rows that leave without a tombstone lose their cover, and then they are on record. */
  lemma AppAnswered(listing: Listing, s: Durable, a: AppStep, key: string)
    requires AppAllowed(listing, s, a) && Answered(s, key) && KeysApart(s) && Placed(listing, s)
    ensures Answered(AppApply(s, a), key)
  {
    if Covered(s, key) {
      AppCovered(listing, s, a, key);
    }
  }

  lemma AppCovered(listing: Listing, s: Durable, a: AppStep, key: string)
    requires AppAllowed(listing, s, a) && Covered(s, key) && KeysApart(s) && Placed(listing, s)
    ensures Covered(AppApply(s, a), key) || (a.DeleteRows? && key in DroppedKeys(s, a.slots, a.tombstones))
  {
    var s' := AppApply(s, a);
    match a
    case InsertRows(rows, _) =>
      if slot :| slot in s.rows && s.rows[slot] == key {
        assert slot in s'.rows && s'.rows[slot] == key;
      }
    case DeleteRows(slots, ts) => DeleteCovered(listing, s, slots, ts, key);
    case CreateEnvironment(env) =>
    case DestroyEnvironment(env, _) => DestroyCovered(listing, s, a, key);
  }

  lemma DeleteCovered(listing: Listing, s: Durable, slots: set<Slot>, ts: map<string, Tombstone>, key: string)
    requires AppAllowed(listing, s, DeleteRows(slots, ts)) && Covered(s, key) && KeysApart(s)
    ensures Covered(AppApply(s, DeleteRows(slots, ts)), key) || key in DroppedKeys(s, slots, ts)
  {
    var s' := AppApply(s, DeleteRows(slots, ts));
    if slot :| slot in s.rows && s.rows[slot] == key {
      if slot !in slots {
        assert slot in s'.rows && s'.rows[slot] == key;
      } else if id :| id in ts && ts[id].key == key {
        assert id in s'.tombstones && s'.tombstones[id].key == key;
      }
    } else if id :| id in s.tombstones && s.tombstones[id].key == key {
      assert id !in ts;
      assert id in s'.tombstones && s'.tombstones[id].key == key;
    }
  }

  lemma DestroyCovered(listing: Listing, s: Durable, a: AppStep, key: string)
    requires a.DestroyEnvironment? && Covered(s, key) && Placed(listing, s)
    ensures Covered(AppApply(s, a), key)
  {
    var s' := AppApply(s, a);
    assert a.env in s'.purges;
    if slot :| slot in s.rows && s.rows[slot] == key {
      if slot.env != a.env { assert slot in s'.rows && s'.rows[slot] == key; }
    } else if id :| id in s.tombstones && s.tombstones[id].key == key {
      if s.tombstones[id].env != a.env { assert id in s'.tombstones && s'.tombstones[id].key == key; }
    } else {
      var env :| env in s.purges && Under(env, key);
      assert env in s'.purges;
    }
  }

  lemma ValueOf(rows: map<Slot, string>, slot: Slot)
    requires slot in rows
    ensures rows[slot] in rows.Values
  {
  }

  lemma UnionValues(a: map<Slot, string>, b: map<Slot, string>)
    requires a.Keys !! b.Keys
    ensures (a + b).Keys == a.Keys + b.Keys && (a + b).Values == a.Values + b.Values
  {
    var r := a + b;
    forall key | key in a.Values ensures key in r.Values {
      var slot :| slot in a && a[slot] == key;
      assert r[slot] == key;
      ValueOf(r, slot);
    }
    forall key | key in b.Values ensures key in r.Values {
      var slot :| slot in b && b[slot] == key;
      assert r[slot] == key;
      ValueOf(r, slot);
    }
    forall key | key in r.Values ensures key in a.Values + b.Values {
      var slot :| slot in r && r[slot] == key;
      if slot in b { ValueOf(b, slot); } else { ValueOf(a, slot); }
    }
  }

  lemma UnionInjective(a: map<Slot, string>, b: map<Slot, string>)
    requires Injective(a) && Injective(b) && a.Values !! b.Values
    ensures Injective(a + b)
  {
    forall slot | slot in a ensures a[slot] in a.Values { ValueOf(a, slot); }
    forall slot | slot in b ensures b[slot] in b.Values { ValueOf(b, slot); }
  }

  lemma InsertApart(s: Durable, rows: map<Slot, string>, at: int)
    requires KeysApart(s) && Injective(rows)
    requires forall slot :: slot in rows ==> slot !in s.issuedSlots && rows[slot] !in s.issuedKeys
    ensures KeysApart(AppApply(s, InsertRows(rows, at)))
  {
    forall key | key in rows.Values ensures key !in s.issuedKeys {
      var slot :| slot in rows && rows[slot] == key;
    }
    UnionValues(s.rows, rows);
    UnionInjective(s.rows, rows);
    hide Injective;
  }

  lemma InsertPlaced(listing: Listing, s: Durable, rows: map<Slot, string>, at: int)
    requires Placed(listing, s) && AppAllowed(listing, s, InsertRows(rows, at))
    ensures Placed(listing, AppApply(s, InsertRows(rows, at)))
  {
    hide Under, Reaches, Injective;
  }

  lemma InsertStored(s: Durable, rows: map<Slot, string>, at: int)
    requires BackedIsStored(s) && s.rows.Keys <= s.issuedSlots
    requires forall slot :: slot in rows ==> slot !in s.issuedSlots
    ensures BackedIsStored(AppApply(s, InsertRows(rows, at)))
  {
    forall slot | slot in s.backed ensures slot !in rows { }
  }

  lemma InsertSafe(listing: Listing, s: Durable, rows: map<Slot, string>, at: int)
    requires Safe(listing, s) && AppAllowed(listing, s, InsertRows(rows, at))
    ensures KeysApart(AppApply(s, InsertRows(rows, at))) && Placed(listing, AppApply(s, InsertRows(rows, at)))
    ensures BackedIsStored(AppApply(s, InsertRows(rows, at)))
  {
    InsertApart(s, rows, at);
    InsertPlaced(listing, s, rows, at);
    assert s.rows.Keys <= s.issuedSlots;
    hide KeysApart, Placed, Injective;
    InsertStored(s, rows, at);
  }

  /** The key of a row that leaves is the key of no row that stays. */
  lemma LeavingKeys(s: Durable, slots: set<Slot>, key: string)
    requires KeysApart(s) && slots <= s.rows.Keys
    ensures key in (s.rows - slots).Values ==> key in s.rows.Values
    ensures (exists slot :: slot in slots && s.rows[slot] == key) ==> key !in (s.rows - slots).Values
  {
    if slot :| slot in s.rows - slots && (s.rows - slots)[slot] == key {
      assert s.rows[slot] == key;
    }
  }

  lemma DeleteSafe(listing: Listing, s: Durable, slots: set<Slot>, ts: map<string, Tombstone>)
    requires Safe(listing, s) && AppAllowed(listing, s, DeleteRows(slots, ts))
    ensures KeysApart(AppApply(s, DeleteRows(slots, ts))) && Placed(listing, AppApply(s, DeleteRows(slots, ts)))
    ensures BackedIsStored(AppApply(s, DeleteRows(slots, ts)))
  {
    var s' := AppApply(s, DeleteRows(slots, ts));
    forall key | key in s'.rows.Values ensures key in s.rows.Values && key !in s'.dropped {
      LeavingKeys(s, slots, key);
    }
  }

  lemma DestroySafe(listing: Listing, s: Durable, env: string, deleteAfter: int)
    requires Safe(listing, s) && env in s.live
    ensures KeysApart(AppApply(s, DestroyEnvironment(env, deleteAfter)))
    ensures Placed(listing, AppApply(s, DestroyEnvironment(env, deleteAfter)))
    ensures BackedIsStored(AppApply(s, DestroyEnvironment(env, deleteAfter)))
  {
  }

  lemma AppSafe(listing: Listing, s: Durable, a: AppStep)
    requires Safe(listing, s) && AppAllowed(listing, s, a)
    ensures Safe(listing, AppApply(s, a))
  {
    match a {
      case InsertRows(rows, at) => InsertSafe(listing, s, rows, at);
      case DeleteRows(slots, ts) => DeleteSafe(listing, s, slots, ts);
      case CreateEnvironment(env) =>
      case DestroyEnvironment(env, deleteAfter) => DestroySafe(listing, s, env, deleteAfter);
    }
    forall key | key in AppApply(s, a).dest ensures Answered(AppApply(s, a), key) {
      AppAnswered(listing, s, a, key);
    }
  }

  /** A purge never lists the key of a live row: that is what the naming of environments must provide. */
  lemma PurgeMissesRows(listing: Listing, s: Durable, gone: string, slot: Slot)
    requires Placed(listing, s) && gone in s.purges && slot in s.rows
    ensures !Lists(listing, gone, s.rows[slot])
  {
    PurgeReachesExactly(listing, gone, slot.env);
  }

  lemma DeleteObjectSafe(listing: Listing, s: Durable, key: string)
    requires Safe(listing, s) && Allowed(listing, s, DeleteObject(key))
    ensures Safe(listing, Apply(s, DeleteObject(key)))
  {
    forall slot | slot in s.rows ensures s.rows[slot] != key {
      assert s.rows[slot] in s.rows.Values;
      if s.rows[slot] == key {
        var gone :| gone in s.purges && Lists(listing, gone, key);
        PurgeMissesRows(listing, s, gone, slot);
      }
    }
    assert forall k :: k in s.dest - {key} ==> Answered(s, k) && Answered(Apply(s, DeleteObject(key)), k);
  }

  lemma UnderIsListed(listing: Listing, env: string, key: string)
    requires Under(env, key)
    ensures Lists(listing, env, key)
  {
    assert ROOT + env <= ROOT + env + "/";
  }

  /** A row of a queue takes no cover from what is still at the destination. */
  lemma DropCovered(listing: Listing, s: Durable, e: Effect, key: string)
    requires Allowed(listing, s, e) && (e.DropTombstone? || e.DropPurge?) && key in s.dest && Covered(s, key)
    ensures Covered(Apply(s, e), key)
  {
    var s' := Apply(s, e);
    if key in s.rows.Values {
    } else if id :| id in s.tombstones && s.tombstones[id].key == key {
      if id in s'.tombstones { assert s'.tombstones[id].key == key; }
    } else {
      var env :| env in s.purges && Under(env, key);
      UnderIsListed(listing, env, key);
    }
  }

  lemma DropSafe(listing: Listing, s: Durable, e: Effect)
    requires Safe(listing, s) && Allowed(listing, s, e) && (e.DropTombstone? || e.DropPurge?)
    ensures Safe(listing, Apply(s, e))
  {
    forall key | key in s.dest ensures Answered(Apply(s, e), key) {
      if Covered(s, key) { DropCovered(listing, s, e, key); }
    }
  }

  /** Counting an attempt changes no key and no row of either queue. */
  lemma BumpCovered(s: Durable, e: Effect, key: string)
    requires e.BumpTombstone? || e.BumpPurge?
    ensures Covered(Apply(s, e), key) <==> Covered(s, key)
  {
    var s' := Apply(s, e);
    assert forall id :: id in s.tombstones ==> id in s'.tombstones && s'.tombstones[id].key == s.tombstones[id].key;
    assert s'.tombstones.Keys == s.tombstones.Keys && s'.purges.Keys == s.purges.Keys;
  }

  lemma BumpSameRows(s: Durable, e: Effect)
    requires e.BumpTombstone? || e.BumpPurge?
    ensures forall id :: id in Apply(s, e).tombstones <==> id in s.tombstones
    ensures forall id :: id in s.tombstones ==>
              && Apply(s, e).tombstones[id].key == s.tombstones[id].key
              && Apply(s, e).tombstones[id].env == s.tombstones[id].env
    ensures Apply(s, e).tombstones.Keys == s.tombstones.Keys && Apply(s, e).purges.Keys == s.purges.Keys
    ensures Apply(s, e) == s.(tombstones := Apply(s, e).tombstones, purges := Apply(s, e).purges)
  {
  }

  lemma BumpApart(s: Durable, e: Effect)
    requires KeysApart(s) && (e.BumpTombstone? || e.BumpPurge?)
    ensures KeysApart(Apply(s, e))
  {
    BumpSameRows(s, e);
    hide Apply;
  }

  lemma BumpPlaced(listing: Listing, s: Durable, e: Effect)
    requires Placed(listing, s) && (e.BumpTombstone? || e.BumpPurge?)
    ensures Placed(listing, Apply(s, e))
  {
    BumpSameRows(s, e);
    hide Apply, Under, Reaches, SlashFree;
  }

  lemma BumpSafe(listing: Listing, s: Durable, e: Effect)
    requires Safe(listing, s) && (e.BumpTombstone? || e.BumpPurge?)
    ensures Safe(listing, Apply(s, e))
  {
    hide KeysApart, Placed, Covered;
    BumpApart(s, e);
    BumpPlaced(listing, s, e);
    forall key | key in s.dest ensures Answered(Apply(s, e), key) {
      BumpCovered(s, e, key);
    }
  }

  lemma UploadSafe(listing: Listing, s: Durable, key: string)
    requires Safe(listing, s) && Answered(s, key)
    ensures Safe(listing, Apply(s, Upload(key)))
  {
    assert forall k :: Answered(s, k) ==> Answered(Apply(s, Upload(key)), k);
  }

  lemma StepSafe(listing: Listing, s: Durable, e: Effect)
    requires Safe(listing, s) && Allowed(listing, s, e)
    ensures Safe(listing, Apply(s, e))
  {
    match e
    case App(a) => AppSafe(listing, s, a);
    case Upload(key) => UploadSafe(listing, s, key);
    case MarkBacked(slot) => assert forall k :: Answered(s, k) ==> Answered(Apply(s, e), k);
    case DeleteObject(key) => DeleteObjectSafe(listing, s, key);
    case DropTombstone(_) => DropSafe(listing, s, e);
    case DropPurge(_) => DropSafe(listing, s, e);
    case BumpTombstone(_) => BumpSafe(listing, s, e);
    case BumpPurge(_) => BumpSafe(listing, s, e);
  }

  // ----- names of environments

  /** The ids that connections are opened for: 8 to 32 letters and digits. */
  predicate IsEnvironmentId(env: string) {
    8 <= |env| <= 32 && forall c :: c in env ==> '0' <= c <= '9' || 'A' <= c <= 'Z' || 'a' <= c <= 'z'
  }

  /** The ids that are issued. */
  predicate IsIssuedId(env: string) {
    IsEnvironmentId(env) && |env| == 11
  }

  lemma EqualLengthIdsApart(listing: Listing, a: string, b: string)
    requires |a| == |b|
    ensures Reaches(listing, a, b) <==> a == b
  {
  }

  /** As ids are issued, a new environment only has to be new. */
  lemma NamingExactlyWhen(listing: Listing, s: Durable, env: string)
    requires IsIssuedId(env) && forall other :: other in s.live || other in s.purges ==> IsIssuedId(other)
    ensures AppAllowed(listing, s, CreateEnvironment(env)) <==> env !in s.live && env !in s.purges
  {
    assert '/' !in env;
    forall other | other in s.live || other in s.purges
      ensures Reaches(listing, other, env) == Reaches(listing, env, other) == (other == env)
    {
      EqualLengthIdsApart(listing, other, env);
      EqualLengthIdsApart(listing, env, other);
    }
  }

  /**
   * The hazard of a change of the id length: under raw-prefix listing the purge of
   * an id deletes what the rows of an id that extends it still call backed up.
   */
  lemma LongerIdLosesBackups(gone: string, env: string, id: string)
    requires IsEnvironmentId(gone) && IsEnvironmentId(env) && gone < env
    ensures var slot, key := Main(env, id), ROOT + env + "/documents/" + id;
            var s := Durable({key}, {env}, map[slot := key], {slot}, map[], map[gone := Purge(0, 0)],
                             map[slot := 0], {}, {slot}, {key}, {});
            && BackedIsStored(s) && NoOrphans(s) && KeysApart(s)
            && Allowed(ByKeyPrefix, s, DeleteObject(key))
            && !BackedIsStored(Apply(s, DeleteObject(key)))
  {
    var slot, key := Main(env, id), ROOT + env + "/documents/" + id;
    var s := Durable({key}, {env}, map[slot := key], {slot}, map[], map[gone := Purge(0, 0)],
                     map[slot := 0], {}, {slot}, {key}, {});
    assert ROOT + gone <= ROOT + env <= key;
    assert gone in s.purges && Lists(ByKeyPrefix, gone, key);
    assert slot in s.rows && s.rows[slot] == key;
  }

  // ----- every crash point

  lemma EmptyIsSafe(listing: Listing)
    ensures Safe(listing, EmptyState) && NoOrphans(EmptyState)
  {
  }

  /**
   * However the runs of the job, their failures and the application interleave,
   * and wherever a crash cuts them off, every row marked backed up has its object
   * at the destination, and an object there that nobody answers for is one whose
   * row left without a tombstone.
   */
  lemma {:induction false} EveryCrashPointSafe(listing: Listing, start: Durable, log: seq<Effect>)
    requires Safe(listing, start) && Replay(listing, start, log).Some?
    ensures Safe(listing, Replay(listing, start, log).value)
    ensures forall i :: 0 <= i <= |log| ==>
              Replay(listing, start, log[..i]).Some? && Safe(listing, Replay(listing, start, log[..i]).value)
  {
    if log != [] {
      var before := log[..|log| - 1];
      EveryCrashPointSafe(listing, start, before);
      StepSafe(listing, Replay(listing, start, before).value, log[|log| - 1]);
      forall i | 0 <= i < |log|
        ensures Replay(listing, start, log[..i]).Some? && Safe(listing, Replay(listing, start, log[..i]).value)
      {
        assert log[..i] == before[..i];
      }
    }
    assert log[..|log|] == log;
  }

  /**
   * Across every step of every such sequence a tombstone leaves only once its
   * object is gone, or together with its environment, whose purge then covers it;
   * and a purge row leaves only once nothing is listed under its prefix.
   */
  lemma RowsLeaveOnlyWhenDone(listing: Listing, start: Durable, log: seq<Effect>)
    requires Safe(listing, start) && Replay(listing, start, log).Some? && log != []
    ensures var s, s' := Replay(listing, start, log[..|log| - 1]).value, Replay(listing, start, log).value;
            && (forall id :: id in s.tombstones && id !in s'.tombstones ==>
                  s.tombstones[id].key !in s'.dest || Purging(listing, s', s.tombstones[id].key))
            && (forall env :: env in s.purges && env !in s'.purges ==>
                  forall key :: key in s'.dest ==> !Lists(listing, env, key))
  {
    EveryCrashPointSafe(listing, start, log[..|log| - 1]);
    LeavesWhenDone(listing, Replay(listing, start, log[..|log| - 1]).value, log[|log| - 1]);
  }

  lemma LeavesWhenDone(listing: Listing, s: Durable, e: Effect)
    requires Safe(listing, s) && Allowed(listing, s, e)
    ensures forall id :: id in s.tombstones && id !in Apply(s, e).tombstones ==>
              s.tombstones[id].key !in Apply(s, e).dest || Purging(listing, Apply(s, e), s.tombstones[id].key)
    ensures forall env :: env in s.purges && env !in Apply(s, e).purges ==>
              forall key :: key in Apply(s, e).dest ==> !Lists(listing, env, key)
  {
    if e.App? && e.step.DestroyEnvironment? {
      var env, s' := e.step.env, Apply(s, e);
      forall id | id in s.tombstones && id !in s'.tombstones ensures Purging(listing, s', s.tombstones[id].key) {
        UnderIsListed(listing, env, s.tombstones[id].key);
        assert env in s'.purges;
      }
    }
  }

  /** From an empty catalog and destination nothing is needed of the start. */
  lemma EveryRunFromEmptySafe(listing: Listing, log: seq<Effect>)
    requires Replay(listing, EmptyState, log).Some?
    ensures Safe(listing, Replay(listing, EmptyState, log).value)
  {
    EmptyIsSafe(listing);
    EveryCrashPointSafe(listing, EmptyState, log);
  }

  // ----- orphans

  /**
   * The effects that orphan an object: rows leave without a tombstone while their
   * object is at the destination, or such a row's object is uploaded afterwards
   * and no purge covers it.
   */
  ghost predicate Abandons(s: Durable, e: Effect) {
    match e
    case App(DeleteRows(slots, ts)) => exists key :: key in DroppedKeys(s, slots, ts) && key in s.dest
    case Upload(key) => key !in s.dest && !Covered(s, key)
    case _ => false
  }

  lemma StepCovered(listing: Listing, s: Durable, e: Effect, key: string)
    requires Safe(listing, s) && Allowed(listing, s, e) && Covered(s, key) && key in Apply(s, e).dest
    ensures Covered(Apply(s, e), key) || (e.App? && e.step.DeleteRows? && Abandons(s, e))
  {
    match e
    case App(a) => AppCovered(listing, s, a, key);
    case DropTombstone(_) => DropCovered(listing, s, e, key);
    case DropPurge(_) => DropCovered(listing, s, e, key);
    case BumpTombstone(_) => BumpCovered(s, e, key);
    case BumpPurge(_) => BumpCovered(s, e, key);
    case _ =>
  }

  /** Purges and tombstones are kept apart from the keys of live rows. */
  lemma RowAlone(listing: Listing, s: Durable, slot: Slot)
    requires Safe(listing, s) && slot in s.rows
    ensures !HasTombstone(s.tombstones, s.rows[slot])
    ensures forall env :: env in s.purges ==> !Under(env, s.rows[slot])
  {
    assert s.rows[slot] in s.rows.Values;
    forall env | env in s.purges ensures !Under(env, s.rows[slot]) {
      PurgeMissesRows(listing, s, env, slot);
      if Under(env, s.rows[slot]) { UnderIsListed(listing, env, s.rows[slot]); }
    }
  }

  lemma DroppedIsUncovered(listing: Listing, s: Durable, slots: set<Slot>, ts: map<string, Tombstone>, key: string)
    requires Safe(listing, s) && AppAllowed(listing, s, DeleteRows(slots, ts)) && key in DroppedKeys(s, slots, ts)
    ensures Covered(s, key) && !Covered(AppApply(s, DeleteRows(slots, ts)), key)
  {
    var s' := AppApply(s, DeleteRows(slots, ts));
    var slot :| slot in slots && slot in s.rows && s.rows[slot] == key && !HasTombstone(ts, key);
    assert key in s.rows.Values;
    RowAlone(listing, s, slot);
    LeavingKeys(s, slots, key);
    assert forall id :: id in s'.tombstones && s'.tombstones[id].key == key ==>
                          (id in ts && ts[id].key == key) || (id in s.tombstones && s.tombstones[id].key == key);
  }

  /** A step makes an orphan of some object exactly when it abandons one. */
  lemma OrphanedExactlyWhen(listing: Listing, s: Durable, e: Effect)
    requires Safe(listing, s) && Allowed(listing, s, e)
    ensures Abandons(s, e) <==> exists key :: !Orphan(s, key) && Orphan(Apply(s, e), key)
  {
    var s' := Apply(s, e);
    if key :| !Orphan(s, key) && Orphan(s', key) {
      if Covered(s, key) {
        StepCovered(listing, s, e, key);
      } else {
        assert e == Upload(key);
      }
    }
    if Abandons(s, e) {
      if e.Upload? {
        assert Covered(s', e.key) <==> Covered(s, e.key);
        assert !Orphan(s, e.key) && Orphan(s', e.key);
      } else {
        var key :| key in DroppedKeys(s, e.step.slots, e.step.tombstones) && key in s.dest;
        DroppedIsUncovered(listing, s, e.step.slots, e.step.tombstones, key);
        assert !Orphan(s, key) && Orphan(s', key);
      }
    }
  }

  ghost predicate SomeStepAbandons(listing: Listing, start: Durable, log: seq<Effect>) {
    if log == [] then false
    else
      var before := log[..|log| - 1];
      SomeStepAbandons(listing, start, before)
      || (Replay(listing, start, before).Some? && Abandons(Replay(listing, start, before).value, log[|log| - 1]))
  }

  /** Some prefix of the run ends with an orphan. */
  ghost predicate OrphanAtSomePoint(listing: Listing, start: Durable, log: seq<Effect>) {
    || HasOrphan(Replay(listing, start, log))
    || (log != [] && OrphanAtSomePoint(listing, start, log[..|log| - 1]))
  }

  ghost predicate HasOrphan(s: Option<Durable>) {
    s.Some? && !NoOrphans(s.value)
  }

  lemma OrphanComesFrom(listing: Listing, s: Durable, e: Effect)
    requires Safe(listing, s) && Allowed(listing, s, e) && NoOrphans(s)
    ensures Abandons(s, e) <==> !NoOrphans(Apply(s, e))
  {
    OrphanedExactlyWhen(listing, s, e);
  }

  lemma NoneAtTheEnd(listing: Listing, start: Durable, log: seq<Effect>)
    requires Replay(listing, start, log).Some? && !OrphanAtSomePoint(listing, start, log)
    ensures NoOrphans(Replay(listing, start, log).value)
  {
  }

  /** A run has an orphan at some crash point exactly when one of its steps abandons an object. */
  lemma {:induction false} OrphanArisesExactlyWhen(listing: Listing, start: Durable, log: seq<Effect>)
    requires Safe(listing, start) && NoOrphans(start) && Replay(listing, start, log).Some?
    ensures OrphanAtSomePoint(listing, start, log) <==> SomeStepAbandons(listing, start, log)
  {
    hide Safe, NoOrphans, Allowed, Abandons, Apply;
    if log != [] {
      var before := log[..|log| - 1];
      OrphanArisesExactlyWhen(listing, start, before);
      EveryCrashPointSafe(listing, start, before);
      if !OrphanAtSomePoint(listing, start, before) {
        NoneAtTheEnd(listing, start, before);
        OrphanComesFrom(listing, Replay(listing, start, before).value, log[|log| - 1]);
      }
    }
  }

  ghost predicate Drops(s: Durable, e: Effect) {
    e.App? && e.step.DeleteRows? && DroppedKeys(s, e.step.slots, e.step.tombstones) != {}
  }

  ghost predicate SomeStepDrops(listing: Listing, start: Durable, log: seq<Effect>) {
    if log == [] then false
    else
      var before := log[..|log| - 1];
      SomeStepDrops(listing, start, before)
      || (Replay(listing, start, before).Some? && Drops(Replay(listing, start, before).value, log[|log| - 1]))
  }

  lemma DropsNothing(s: Durable, e: Effect)
    ensures !Drops(s, e) ==> Apply(s, e).dropped == s.dropped
  {
  }

  lemma {:induction false} NothingDropped(listing: Listing, start: Durable, log: seq<Effect>)
    requires Replay(listing, start, log).Some? && start.dropped == {} && !SomeStepDrops(listing, start, log)
    ensures Replay(listing, start, log).value.dropped == {}
  {
    hide Allowed, Apply, Drops;
    if log != [] {
      var before := log[..|log| - 1];
      NothingDropped(listing, start, before);
      DropsNothing(Replay(listing, start, before).value, log[|log| - 1]);
    }
  }

  /** While every row leaves with a tombstone for its key, no object is ever orphaned. */
  lemma TombstonedRunsOrphanNothing(listing: Listing, start: Durable, log: seq<Effect>)
    requires Safe(listing, start) && start.dropped == {} && Replay(listing, start, log).Some?
    requires !SomeStepDrops(listing, start, log)
    ensures NoOrphans(Replay(listing, start, log).value)
  {
    EveryCrashPointSafe(listing, start, log);
    NothingDropped(listing, start, log);
  }

  lemma DroppedCanBeCopied(listing: Listing, s: Durable, slots: set<Slot>, ts: map<string, Tombstone>, key: string)
    requires Safe(listing, s) && AppAllowed(listing, s, DeleteRows(slots, ts)) && key in DroppedKeys(s, slots, ts)
    ensures var s' := AppApply(s, DeleteRows(slots, ts));
            Allowed(listing, s', Upload(key)) && Orphan(Apply(s', Upload(key)), key)
  {
    DroppedIsUncovered(listing, s, slots, ts, key);
    hide Safe, AppAllowed;
    var s' := AppApply(s, DeleteRows(slots, ts));
    assert Covered(Apply(s', Upload(key)), key) <==> Covered(s', key);
  }

  /**
   * While no row has left without a tombstone: a step opens the way to an orphan,
   * a copy that is still under way then, exactly when it lets such a row leave.
   */
  lemma DropOrphansExactlyWhen(listing: Listing, s: Durable, e: Effect)
    requires Safe(listing, s) && Allowed(listing, s, e) && s.dropped == {}
    ensures Drops(s, e) <==>
              exists key :: Allowed(listing, Apply(s, e), Upload(key)) && Orphan(Apply(Apply(s, e), Upload(key)), key)
  {
    hide Safe;
    var s' := Apply(s, e);
    if Drops(s, e) {
      var key :| key in DroppedKeys(s, e.step.slots, e.step.tombstones);
      DroppedCanBeCopied(listing, s, e.step.slots, e.step.tombstones, key);
    } else {
      DropsNothing(s, e);
      forall key | Allowed(listing, s', Upload(key)) ensures !Orphan(Apply(s', Upload(key)), key) {
        assert Covered(Apply(s', Upload(key)), key) <==> Covered(s', key);
      }
    }
  }

  /** A row is inserted, copied and marked, and leaves without a tombstone. */
  function ComesAndGoes(env: string, slot: Slot, key: string): seq<Effect> {
    [ App(CreateEnvironment(env)), App(InsertRows(map[slot := key], 0)), Upload(key), MarkBacked(slot),
      App(DeleteRows({slot}, map[])) ]
  }

  lemma Extends(listing: Listing, start: Durable, log: seq<Effect>, e: Effect, s: Durable)
    requires Replay(listing, start, log) == Some(s) && Allowed(listing, s, e)
    ensures Replay(listing, start, log + [e]) == Some(Apply(s, e))
  {
    assert (log + [e])[..|log|] == log;
  }

  /** One row in one environment, nothing copied. */
  function OneRow(env: string, slot: Slot, key: string): Durable {
    Durable({}, {env}, map[slot := key], {}, map[], map[], map[slot := 0], {}, {slot}, {key}, {})
  }

  lemma RowInserted(listing: Listing, env: string, slot: Slot, key: string)
    requires IsIssuedId(env) && slot.env == env && Under(env, key)
    ensures Replay(listing, EmptyState, ComesAndGoes(env, slot, key)[..2]) == Some(OneRow(env, slot, key))
  {
    var run := ComesAndGoes(env, slot, key);
    var s1 := AppApply(EmptyState, CreateEnvironment(env));
    assert '/' !in env && AppAllowed(listing, EmptyState, CreateEnvironment(env));
    Extends(listing, EmptyState, [], run[0], EmptyState);
    assert [] + [run[0]] == run[..1];
    Extends(listing, EmptyState, run[..1], run[1], s1);
    assert run[..1] + [run[1]] == run[..2];
    FirstRow(env, slot, key, s1);
  }

  lemma FirstRow(env: string, slot: Slot, key: string, s: Durable)
    requires s == EmptyState.(live := {env})
    ensures AppApply(s, InsertRows(map[slot := key], 0)) == OneRow(env, slot, key)
  {
    var rows, s' := map[slot := key], AppApply(s, InsertRows(map[slot := key], 0));
    assert rows[slot] == key && rows.Values == {key} && rows.Keys == {slot};
    assert s'.rows == rows && s'.created == map[slot := 0];
    assert s'.issuedSlots == {slot} && s'.issuedKeys == {key};
  }

  lemma CopiedAndDropped(listing: Listing, env: string, slot: Slot, key: string)
    requires slot.env == env
    ensures var s := OneRow(env, slot, key);
            var copied := s.(dest := {key}, backed := {slot});
            && Allowed(listing, s, Upload(key)) && Allowed(listing, Apply(s, Upload(key)), MarkBacked(slot))
            && Apply(Apply(s, Upload(key)), MarkBacked(slot)) == copied
            && Allowed(listing, copied, App(DeleteRows({slot}, map[])))
            && Orphan(Apply(copied, App(DeleteRows({slot}, map[]))), key)
  {
    var s := OneRow(env, slot, key);
    assert s.rows[slot] == key && key in s.rows.Values;
    assert s.rows - {slot} == map[];
  }

  /** The three effects behind the insertion. */
  lemma CopyExtends(listing: Listing, run: seq<Effect>, s: Durable)
    requires |run| == 5 && Replay(listing, EmptyState, run[..2]) == Some(s)
    requires Allowed(listing, s, run[2]) && Allowed(listing, Apply(s, run[2]), run[3])
    requires Allowed(listing, Apply(Apply(s, run[2]), run[3]), run[4])
    ensures Replay(listing, EmptyState, run) == Some(Apply(Apply(Apply(s, run[2]), run[3]), run[4]))
  {
    hide Allowed, Apply, Replay;
    Extends(listing, EmptyState, run[..2], run[2], s);
    assert run[..2] + [run[2]] == run[..3];
    Extends(listing, EmptyState, run[..3], run[3], Apply(s, run[2]));
    assert run[..3] + [run[3]] == run[..4];
    Extends(listing, EmptyState, run[..4], run[4], Apply(Apply(s, run[2]), run[3]));
    assert run[..4] + [run[4]] == run;
  }

  /** The run that leaves a copy behind for good: for every issued id, every kind of slot and every key. */
  lemma ComesAndGoesOrphans(listing: Listing, env: string, slot: Slot, key: string)
    requires IsIssuedId(env) && slot.env == env && Under(env, key)
    ensures var end := Replay(listing, EmptyState, ComesAndGoes(env, slot, key));
            end.Some? && Orphan(end.value, key)
  {
    var run, s := ComesAndGoes(env, slot, key), OneRow(env, slot, key);
    RowInserted(listing, env, slot, key);
    CopiedAndDropped(listing, env, slot, key);
    CopyExtends(listing, run, s);
  }

  /** What ends an orphan: a purge that lists it, the end of its environment, or a late tombstone. */
  ghost predicate Recovers(e: Effect, key: string) {
    match e
    case DeleteObject(k) => k == key
    case App(DestroyEnvironment(env, _)) => Under(env, key)
    case App(DeleteRows(_, ts)) => HasTombstone(ts, key)
    case _ => false
  }

  lemma OrphanEndsExactlyWhen(listing: Listing, s: Durable, e: Effect, key: string)
    requires Safe(listing, s) && Allowed(listing, s, e) && Orphan(s, key)
    ensures !Orphan(Apply(s, e), key) <==> Recovers(e, key)
  {
    assert key in s.dropped && key in s.issuedKeys;
    LeavesDestination(s, e, key);
    hide Safe, Allowed, Covered, Apply;
    if Covered(Apply(s, e), key) { CoverIsNew(listing, s, e, key); }
    if e.App? && Recovers(e, key) { RecoveredIsCovered(s, e, key); }
  }

  lemma LeavesDestination(s: Durable, e: Effect, key: string)
    requires key in s.dest
    ensures key in Apply(s, e).dest <==> e != DeleteObject(key)
  {
  }

  lemma RecoveredIsCovered(s: Durable, e: Effect, key: string)
    requires e.App? && Recovers(e, key)
    ensures Covered(Apply(s, e), key)
  {
    var s' := Apply(s, e);
    if e.step.DeleteRows? {
      var id :| id in e.step.tombstones && e.step.tombstones[id].key == key;
      assert id in s'.tombstones && s'.tombstones[id].key == key;
    } else {
      assert e.step.env in s'.purges;
    }
  }

  lemma NoNewRow(listing: Listing, s: Durable, e: Effect, key: string)
    requires Allowed(listing, s, e) && key in s.issuedKeys && key !in s.rows.Values
    ensures key !in Apply(s, e).rows.Values
  {
    var s' := Apply(s, e);
    forall slot | slot in s'.rows ensures s'.rows[slot] != key {
      if slot in s.rows { assert s.rows[slot] in s.rows.Values; }
    }
  }

  lemma NewTombstone(listing: Listing, s: Durable, e: Effect, key: string)
    requires Allowed(listing, s, e) && !HasTombstone(s.tombstones, key)
    ensures HasTombstone(Apply(s, e).tombstones, key) ==>
              e.App? && e.step.DeleteRows? && HasTombstone(e.step.tombstones, key)
  {
    if id :| id in Apply(s, e).tombstones && Apply(s, e).tombstones[id].key == key {
      assert id in s.tombstones ==> s.tombstones[id].key != key;
    }
  }

  lemma NewPurge(s: Durable, e: Effect, env: string)
    requires env in Apply(s, e).purges && env !in s.purges
    ensures e.App? && e.step.DestroyEnvironment? && e.step.env == env
  {
  }

  lemma CoverIsNew(listing: Listing, s: Durable, e: Effect, key: string)
    requires Allowed(listing, s, e) && !Covered(s, key) && key in s.issuedKeys && Covered(Apply(s, e), key)
    ensures Recovers(e, key)
  {
    NoNewRow(listing, s, e, key);
    NewTombstone(listing, s, e, key);
    if !HasTombstone(Apply(s, e).tombstones, key) {
      var env :| env in Apply(s, e).purges && Under(env, key);
      hide Apply, Allowed, Under, HasTombstone;
      NewPurge(s, e, env);
    }
  }
}
