# A model of the server's stateful core

This project models the parts of the server whose behaviour is hardest to see
from one function at a time, and proves what they keep over whole runs.  It is
written in Dafny 4.11; `dafny verify dfyconfig.toml` checks all of it.

What is modelled, one module or a small group of modules each:

- **Tenant connection pool** (`TenantPool*`, `BusyRetry`).  A call of
  `getTenantDB` suspends at each `await`, and sweeps, evictions and other calls
  run in between.  The class `TenantConnections` does what the source does step
  by step; the other modules prove what every interleaving keeps.  The capacity
  check runs before the first suspension, so the limit is not a hard bound:
  `CapacityBound` gives the true one and `CapacityAttained` shows that it is
  reached.  `TenantPoolUse` reads off the events when each tenant was last used and
  for whom each client was opened, and shows what sweeps and evictions take.
- **Admission counters** (`TtlCache`, `RateLimit*`, `LoginLockout`).  Fixed
  windows with blocks and lockouts over a cache whose entries expire, as theorems
  about whole request traces on one key: the bounds, and for each answer exactly when
  it is given.
- **Object backup** (`ObjectBackup*`, `Backup*`).  `ObjectBackup` is the durable state
  and the effects that may change it.  `ObjectBackupJob` is the job, with every call
  failing before or after it took effect, the application acting in between, the lock
  being lost, and a crash anywhere; `BackupCalls`, `BackupQueues`, `BackupVisits` and
  `BackupRuns` say for all outcomes which calls it makes, what becomes of each item,
  and what a failure of one leaves untouched of the others.  `BackupKeys` shows why its
  keys are apart, and `BackupFreshness` is about the bytes behind one key.
- **Cron overlap scan** (`Text`, `Cron*`, `JobRegistry`).  The evaluation of cron
  expressions on text against their meaning, the weekly scan, what an empty scan
  and the printed gap say about all time and about two jobs, and the registered
  schedules, read character by character.
- **Address and domain lists** (`Cidr`, `DomainLists`).  Signed 32-bit shifts and
  masks against quotients, and suffixes of strings against suffixes of label
  sequences.
- **Read-through context cache** (`FeatureGuard`), **storage paths**
  (`StoragePaths`), **chunk arithmetic** (`ChunkedUpload`) and **batched deletes**
  (`BatchedCleanup`), between whose calls others may write.

Classes stand for state the source updates in place; their methods are proved
against a step function on values (`Step`, `Apply`, `Replay`), and the theorems
are about that function over sequences of events.  Calls whose code is elsewhere
(drivers, SQL, storage providers, password checks) are parameters that may
answer anything, or fail.

## What the proofs found

Where the code and its comments differ the model follows the code.

- The pool keeps at most `MAX - 1` connections plus as many as were ever being
  created at once.  Evicting a tenant during its own creation lets a second
  creation start, and the one mapped last leaves the other's client open for
  good unless it has been closed before; so does a throw from the pragma step.
- The `finally` of a creation forgets whatever creation is in flight for its tenant, also
  one that is not its own (`FinallyForgetsOther`).
- Between the mapping of a connection and the `finally` of its creation another
  tenant's creation at capacity can evict it.  Then the creator, all who joined
  before and all who join in that gap are handed a closed client
  (`UndisturbedOpenExactlyWhen`, `LateJoinHappens`).  A sweep cannot do that: it runs
  from a timer, not in such a gap, and only takes what has been idle for five
  minutes (`UnmappedExactlyWhen`).
- A rate-limit block never lasts beyond the window in which it began, because
  the window is reset before the block is looked at.  Twice the maximum bounds
  what one window admits if and only if the block time is zero or at least the
  window.  The time to live of an admitted entry is computed in milliseconds and
  passed as seconds.
- A block shorter than the window takes the count with it when it ends, because the entry
  lives only as long as the block (`DecidedExactlyWhen`, `ShortBlockOverrun`).
- Failed logins are bounded by five per lockout interval only between accepted
  passwords: each acceptance in the interval allows four more.
- A row that leaves the catalog without a tombstone for its key can leave its copy at
  the destination until the environment is destroyed; while every row leaves with one,
  nothing is orphaned (`DropOrphansExactlyWhen`, `TombstonedRunsOrphanNothing`).  Three
  places let a row leave so.  A failed upload is undone without a tombstone
  (`services/documents/document-upload.service.ts:655` and `1204`).  Deleting a note lists its
  attachments first, and the foreign key takes along one that is inserted afterwards
  (`services/notes/note-delete.service.ts:36`).  Deleting documents or folders reads the
  keys before the transaction (`services/documents/document-delete.service.ts:494`,
  `services/document-folders/folder-delete.service.ts:268`), and a thumbnail may be
  registered meanwhile (`handlers/documents/thumbnail-upload.handler.ts:273`).
- "Backed up" is said of a key, not of its bytes.  A thumbnail that is uploaded again
  keeps its mark and is never copied again, and a file that is still being written in
  place is copied and marked as it is.  A marked copy is current if and only if the
  object was whole while it was copied and no write has ended since the copy began.
- Where the backup destination lists by raw key prefix, purging an environment
  reaches those whose ids extend its id.  Issued ids all have eleven characters, so
  this cannot happen now; ids of 8 to 32 characters are accepted elsewhere, and it
  would after a change of the length.
- The scan's closest approach leaves out the step from the last firing of a week
  to the first of the next.  It is printed as that of two jobs but measures firing
  minutes: for a single job every five minutes it prints five (`OneJobTwice`).  It is
  the least distance of two jobs if and only if two neighbouring minutes that far apart
  are not those of one job alone (`JobsApartExactlyWhen`).  For the registry it is.
- With exactly one firing minute in the window the report says that no job fires.
- The scan is silent about dates that do not come up in its week, and a scan of fewer
  than seven days proves nothing.
- The phrase for a schedule every so many hours is built by a loop that ends if and only
  if the step is positive or not a number; `*/0` and `*/-2` keep it going for ever.
- The mask of an address block takes its shift count modulo 32: a prefix of 33 is
  a prefix of 1.  Lists are refused such a prefix when they are stored, except in
  development mode.
- A client address in the mapped form `::ffff:a.b.c.d` has dots and four parts, of which
  the first is not a number: it is compared with blocks as `0.b.c.d`
  (`MappedExactlyWhen`).  Any other IPv6 address is accepted only when listed literally.
- The bytes of an object count as copied as soon as its copy has returned, also when the
  mark behind it fails and the object is copied again by the next run; the bytes and the
  failures of thumbnails are not counted (`DocumentCounted`).
- Three of the checks on stored domains can never report anything.
- The comment in the route table asks for an order of its entries that makes no
  difference.
- A cleanup job deletes by the ids it has selected.  A threat entry that is reactivated
  between the select and the delete is deleted all the same; that happens if and only
  if the last write to the row since the select made it one that is not due.
- An invalidated context can be cached again by a request that read the row
  before the update, and is then served until it expires.  Comparing the row at the
  cache write with the row that was read is exactly what would rule this out.

## Model

| member | source | states |
|---|---|---|
| TenantPool.TenantConnections.GetTenantDB | db/db.ts:182-209 | one call up to its first suspension: hit with a refreshed use time, joining a creation in flight, a rejected empty id, or starting a creation; the whole new pool and the answer |
| TenantPool.TenantConnections.BeginCreation | db/db.ts:211-229 | the linear scan for the least recent use closes and removes exactly the connection that the specification calls oldest, and only at capacity |
| TenantPool.TenantConnections.ResumeResolved | db/db.ts:231-245 | after the credentials: the client is opened, or the creation fails without one |
| TenantPool.TenantConnections.ResumeConfigured | db/db.ts:248-277 | after the pragmas: mapped at once, on to the migration, or failed with its client neither mapped nor closed |
| TenantPool.TenantConnections.ResumeMigrated | db/db.ts:264-277 | after the migration: recorded and mapped, or closed and failed |
| TenantPool.TenantConnections.Finally | db/db.ts:204-208 | the settled call drops whatever creation is registered for its tenant |
| TenantPool.TenantConnections.SweepIdle | db/db.ts:324-332 | one pass over the map closes and removes exactly the connections idle for more than five minutes, in order, and keeps the rest |
| TenantPool.TenantConnections.EvictTenantDB | db/db.ts:334-341 | closes and removes the tenant's connection, and forgets a creation in flight without stopping it |
| TenantPool.OldestIsUnique | db/db.ts:213-221 | the strict comparison of the scan picks one connection: the first of those least recently used |
| TenantPoolRuns.RunInv | db/db.ts:182-341 | in every interleaving connections have distinct tenants and clients, and no client is both in creation, mapped or closed twice over |
| TenantPoolRuns.CapacityBound | db/db.ts:182-277 | in every interleaving live connections plus creations in progress never exceed MAX - 1 plus the peak number of simultaneous creations |
| TenantPoolLru.CapacityAttained | db/db.ts:211-277 | for every MAX and every overlap some run holds exactly MAX - 1 + overlap live connections: the bound cannot be improved |
| TenantPoolClients.AtMostOnePlace | db/db.ts:211-341 | no client is ever counted twice among in creation, mapped, and closed |
| TenantPoolClients.StrandedExactlyWhen | db/db.ts:248-277 | a step abandons an open client exactly when the pragmas throw or a second creation of the tenant is mapped over the first; nothing ever recovers it |
| TenantPoolClients.EveryClientAccountedExactlyWhen | db/db.ts:182-341 | after any run every opened client is in exactly one place if and only if no step of the run was such a step |
| TenantPoolClients.NoStrayExactlyWhen | db/db.ts:182-341 | a run leaves an abandoned client if and only if it took such a step |
| TenantPoolSharing.OverlappingCallersShareDb | db/db.ts:189-209 | when no tenant is evicted during its own creation: at most one creation per tenant, and every overlapping caller joins it or gets the same db |
| TenantPoolSharing.HitIsOpen | db/db.ts:189-194 | in every run a hit hands out an open client |
| TenantPoolSharing.UndisturbedStrands | db/db.ts:248-248 | without such an eviction only a throw from the pragma step abandons a client, and it always does |
| TenantPoolSharing.UndisturbedAccount | db/db.ts:182-341 | without such an eviction every client is in exactly one place if and only if no pragma step threw |
| TenantPoolSharing.EvictionDuplicatesCreation | db/db.ts:334-341 | evicting a tenant during its creation always lets the next caller start a second creation beside the first |
| TenantPoolHandout.HandedOutOpenExactlyWhen | db/db.ts:196-209 | in every run the client that a finished creation hands to its creator and to all who joined is open if and only if it is mapped or abandoned |
| TenantPoolHandout.UndisturbedOpenExactlyWhen | db/db.ts:196-209 | when no tenant is evicted during its own creation, they all get an open client if and only if the tenant is still mapped |
| TenantPoolHandout.LateJoinExactlyWhen | db/db.ts:196-208 | and who asks between the mapping and the `finally` joins the creation if and only if its client has been closed |
| TenantPoolHandout.LateJoinHappens | db/db.ts:196-229 | a run with one slot in which the creator and all who join are given a closed client |
| TenantPoolHandout.UnmappedExactlyWhen | db/db.ts:211-341 | a step takes a tenant out of the map if and only if it evicts the oldest connection at capacity, sweeps one idle for more than five minutes, or is `evictTenantDB` of that tenant |
| TenantPoolHandout.SecondMappingExactlyWhen | db/db.ts:264-276 | when a tenant that was mapped is mapped again by another creation, whatever happened in between and with or without migrations, the first client is abandoned if and only if it had not been closed |
| TenantPoolSharing.MappedHasMigrated | db/db.ts:264-275 | with migrate-on-connect a mapped tenant has migrated successfully in this run, and the record of migrated tenants is exact |
| TenantPoolSharing.MigratesOnce | db/db.ts:264-268 | and without such an eviction no tenant is migrated again after a success |
| TenantPoolLru.ServeIsSteps | db/db.ts:182-277 | a call that runs to completion alone is a sequence of enabled steps of the pool, in the order of the awaits |
| TenantPoolLru.LruHoldsMostRecent | db/db.ts:213-229 | a least-recently-used list holds a tenant exactly when fewer than MAX distinct others were used since |
| TenantPoolLru.PoolTracksLru | db/db.ts:189-229 | the map with its use times, evicted by a linear scan, refines that list under a strictly increasing clock |
| TenantPoolLru.KeepsMostRecentlyUsed | db/db.ts:189-275 | so a tenant is connected exactly when it is among the MAX most recently used |
| TenantPoolUse.LastUsedIsLastUse | db/db.ts:189-275 | in every run the use time of each connection is the instant of the last call for its tenant or of its mapping, told from the events alone |
| TenantPoolUse.SweepsExactlyIdle | db/db.ts:324-332 | so a sweep closes and removes exactly the tenants that were neither called for nor mapped within the last 300 000 ms |
| TenantPoolUse.EvictsLeastRecentlyUsed | db/db.ts:213-229 | and a call that starts a creation at capacity closes and removes exactly one connection, that of the tenant whose last use is oldest; below capacity none |
| TenantPoolUse.ClientsBelong | db/db.ts:182-277 | in every run each connection and each creation holds a client that was opened for its own tenant, and in flight under a tenant is a creation of that tenant |
| TenantPoolUse.TenantsApart | db/db.ts:189-209 | so whoever asks for a tenant, on a hit, on joining or on creating, is handed a client opened for that tenant and never another's |
| TenantPoolUse.FinallyForgetsOther | db/db.ts:204-208 | the `finally` of one creation forgets another in flight of the same tenant: the next caller starts one more beside it |
| BusyRetry.Retry | db/db.ts:366-382 | the result is that of the first call that is not busy, or of the last allowed; all earlier calls were busy; calls and waiting time are bounded |
| BusyRetry.DefaultBounds | db/db.ts:366-382 | with the default limit at most five calls and 870 ms of waiting |
| RateLimit.LimitBounds | middleware/rate-limit.middleware.ts:157-188 | with a multiplier of at most 1 every adjusted maximum lies between 1 and the configured one |
| RateLimit.LimitShares | middleware/rate-limit.middleware.ts:157-188 | in integers: a likely bot gets a tenth of the maximum, other infrastructure half, an anonymizer and by default a suspicious address three tenths, rounded down but at least one, and the rest all of it |
| RateLimit.SuspiciousShare | middleware/rate-limit.middleware.ts:181-186 | with a multiplier of its own a suspicious address gets that share of the maximum, rounded down, or one |
| RateLimit.LimitOrder | middleware/rate-limit.middleware.ts:171-187 | likely bots get no more than anonymizers, those no more than other infrastructure, and that no more than the rest |
| RateLimit.RateLimiter.MaxAttempts | middleware/rate-limit.middleware.ts:157-188 | the branches of the adjustment compute the adjusted maximum, in the source's order of precedence |
| RateLimit.RateLimiter.Handle | middleware/rate-limit.middleware.ts:190-245 | one request on one key: decision and new slot are those of the specification, other keys are untouched |
| RateLimitDecisions.DecidedExactlyWhen | middleware/rate-limit.middleware.ts:192-242 | in every trace a request is turned away if and only if the last counted request of its window was refused and its block has not run out, and refused if and only if it is not turned away and the counted requests of its window with it exceed its limit; the wait is the rest of the block in whole seconds, rounded up |
| RateLimit.DefaultBlock | middleware/rate-limit.middleware.ts:155-225 | without a block time of its own a refusal lasts and names twice the window |
| RateLimit.AdmittedLifetime | middleware/rate-limit.middleware.ts:231-240 | an admitted entry lives for a minute, or for as many seconds as its window has milliseconds left |
| RateLimitTraces.AdmissionsBounded | middleware/rate-limit.middleware.ts:192-242 | in every trace no closed interval one window long admits more than 2 max - 1 requests (2 max when the block is as long as the window), whatever each request's own limit was |
| RateLimitTraces.OptionsBoundAdmissions | middleware/rate-limit.middleware.ts:155-242 | the same from the options: at most 2 max, and 2 max - 1 with the default block of twice the window |
| RateLimitTraces.BotAdmissions | middleware/rate-limit.middleware.ts:155-242 | a trace of likely bots alone gets at most a fifth of the configured maximum in one window, or two requests |
| RateLimitTraces.BoundAttained | middleware/rate-limit.middleware.ts:192-242 | for every maximum and window a trace reaches the bound |
| RateLimitTraces.ShortBlockOverrun | middleware/rate-limit.middleware.ts:197-229 | a block shorter than the window lets five requests through in one window under a maximum of two |
| RateLimitTraces.TwiceTheLimitExactlyWhen | middleware/rate-limit.middleware.ts:197-229 | twice the maximum bounds every trace if and only if there is no block time or it is at least the window |
| RateLimitTraces.ModestNeverRefused | middleware/rate-limit.middleware.ts:197-242 | a caller who never sends more than the smallest limit in any closed window is never refused |
| RateLimitTraces.BlockOutlastsWindow | middleware/rate-limit.middleware.ts:197-225 | with a block longer than the window the stored block always ends after the window does |
| RateLimitTraces.RefusedUntilWindowEnds | middleware/rate-limit.middleware.ts:197-211 | after a refusal each later request is refused up to firstRequest + window exactly, without touching the slot, and the next opens a fresh window |
| LoginLockout.LoginHandler.Handle | handlers/auth/login.handler.ts:150-217 | one login on one key: result and new counters are those of the specification, other keys are untouched |
| LoginLockout.AnsweredExactlyWhen | handlers/auth/login.handler.ts:150-217 | for each of the five answers, in every serialized trace, the condition under which it is given: locked while a lockout of the last 900 seconds lasts, and otherwise what the password check says, only a valid one being accepted |
| LoginLockout.CountersChangeOnly | handlers/auth/login.handler.ts:158-217 | only a counted failure and an accepted password touch the counters, and the latter leaves the lockout alone |
| LoginLockout.LockoutStartsExactlyWhen | handlers/auth/login.handler.ts:190-212 | a lockout starts at a login if and only if it is the fifth of counted failures, each recorded less than 1800 seconds after the one before, with no password accepted and no lockout begun from the first of them on |
| LoginLockout.StoredCountBelowMaximum | handlers/auth/login.handler.ts:190-195 | after any logins at all the stored count is between 1 and 4 |
| LoginLockout.FailuresPerInterval | handlers/auth/login.handler.ts:150-217 | in every serialized trace a half-open 900-second interval has at most 5 counted failures plus 4 for each password accepted in it, whatever came before |
| LoginLockout.BoundAttained | handlers/auth/login.handler.ts:150-217 | for every number of accepted passwords some trace reaches that bound |
| LoginLockout.LockoutHolds | handlers/auth/login.handler.ts:152-156 | from the fifth failure on no password is checked until exactly 900 seconds have passed |
| LoginLockout.FiveBoundsExactlyWhen | handlers/auth/login.handler.ts:216-217 | 5 bounds every trace if and only if no password is accepted in the interval |
| ObjectBackup.StepSafe | jobs/object-storage-backup.job.ts:91-216 | each effect the protocol allows, of the job or of the application with or without tombstones, keeps the safety invariant |
| ObjectBackup.EveryCrashPointSafe | jobs/object-storage-backup.job.ts:91-216 | after every prefix of every interleaving: a row marked backed up has its object at the destination, and an object there without a row, a tombstone or a purge is one whose row left without a tombstone |
| ObjectBackup.EveryRunFromEmptySafe | jobs/object-storage-backup.job.ts:91-216 | the same for every run that starts from nothing |
| ObjectBackup.OrphanedExactlyWhen | services/documents/document-upload.service.ts:655-690 | a step orphans an object if and only if it drops rows without a tombstone while their object is at the destination, or uploads the object of such a row with no purge covering it |
| ObjectBackup.OrphanArisesExactlyWhen | services/documents/document-upload.service.ts:655-690 | a run has an orphan at some crash point if and only if one of its steps is of that kind |
| ObjectBackup.TombstonedRunsOrphanNothing | services/documents/document-delete.service.ts:301-352 | while rows leave only with tombstones for their keys, no object is ever orphaned |
| ObjectBackup.DropOrphansExactlyWhen | services/documents/document-delete.service.ts:488-545 | while no row has left without a tombstone: a step makes an orphan possible, of a copy still under way, if and only if a row leaves without one; here a thumbnail registered after its document was read |
| ObjectBackup.ComesAndGoesOrphans | services/notes/note-delete.service.ts:28-37 | for every issued id, every kind of row and every key: a row that is inserted, copied and marked and then leaves without a tombstone, as an attachment does that is inserted after those of its note were listed, leaves its copy orphaned |
| ObjectBackup.OrphanEndsExactlyWhen | services/super-admin/environment.service.ts:405-427 | an orphan ends if and only if its environment is destroyed, a purge that lists it deletes it, or a late tombstone names it |
| ObjectBackup.RowsLeaveOnlyWhenDone | jobs/object-storage-backup.job.ts:160-216 | a tombstone leaves only when its object is gone or its environment's purge covers it; a purge row only when nothing is listed under its prefix |
| ObjectBackup.PurgeReachesExactly | services/storage/s3.ts:474-505 | what purging an environment reaches: its own subtree, and under raw-prefix listing that of every id extending its own |
| ObjectBackup.NamingExactlyWhen | utils/database/id-generation/id-generation.ts:96-96 | for ids as they are issued a new environment keeps all subtrees apart if and only if its id is new |
| ObjectBackup.LongerIdLosesBackups | services/storage/s3.ts:474-505 | the hazard of a change of the id length: under raw-prefix listing, for any two valid ids of which one extends the other, a purge can delete the object of a row still marked backed up |
| ObjectBackup.EqualLengthIdsApart | services/object-backup/tombstone.ts:32-34 | ids of one length reach each other only when equal |
| BackupKeys.KeysDistinct | constants/storage-paths.ts:15-51 | two columns of the catalog never name one object: with ids as they are issued equal keys mean equal columns |
| BackupKeys.InsertAllowedExactlyWhen | constants/storage-paths.ts:15-51 | so what the protocol asks of inserted rows holds if and only if their ids are new and their environments live |
| BackupFreshness.CurrentExactlyWhen | services/object-backup/copy.ts:35-41 | a marked key's copy is the last write of the key if and only if the object was whole while it was copied and no write has ended since the copy began |
| BackupFreshness.WholeExactlyWhen | services/storage/local.ts:100-119 | in every run an object written in place is whole if and only if the last writing was that of one write by itself; one put in place at once, if and only if a write has ended |
| BackupFreshness.DestinationChangesOnly | services/object-backup/copy.ts:35-41 | the destination changes only when a copy ends or fails behind its effect, to what that copy had read, and only a mark that took effect marks |
| BackupFreshness.MarkedWasCopied | services/object-backup/catalog.ts:85-118 | every run that has marked a key is of the form which that condition speaks of |
| BackupFreshness.StaleForGood | services/object-backup/catalog.ts:42-58 | a marked copy that is not current never becomes so: nothing selects the key again |
| BackupFreshness.ReplacedThumbnail | handlers/documents/thumbnail-upload.handler.ts:162-279 | a thumbnail uploaded again after its backup keeps the mark, and the destination keeps the old one |
| BackupFreshness.CopiedWhileStreaming | services/storage/local.ts:100-119 | a file copied while it is still being written in place is marked all the same |
| ObjectBackupJob.BackupJob.Pause | jobs/object-storage-backup.job.ts:226-233 | before every call the application may act, rows leaving without a tombstone included, and the lock may be lost; the invariant and all that is queued survive |
| ObjectBackupJob.BackupJob.CopyObject | services/object-backup/copy.ts:35-41 | an upload that may fail before or after it took effect |
| ObjectBackupJob.BackupJob.MarkBackedUp | services/object-backup/catalog.ts:85-118 | marks a row by id, only behind a confirmed upload |
| ObjectBackupJob.BackupJob.PurgeBackupObject | services/object-backup/purge.ts:25-37 | deletes one key at the destination, an absent one being a success |
| ObjectBackupJob.BackupJob.MarkTombstonePurged | services/object-backup/tombstone.ts:91-94 | drops a tombstone, only behind a confirmed delete |
| ObjectBackupJob.BackupJob.BumpAttempts | services/object-backup/tombstone.ts:96-104 | adds one to the attempts of the row, or fails itself |
| ObjectBackupJob.BackupJob.SelectUnbackedDocuments | services/object-backup/catalog.ts:42-68 | a batch of distinct documents with something to copy, oldest first, as large as the limit admits, leaving out nothing older |
| ObjectBackupJob.BackupJob.SelectUnbackedAttachments | services/object-backup/catalog.ts:70-83 | a batch of distinct unbacked attachments, oldest first, as large as the limit admits, leaving out nothing older |
| ObjectBackupJob.BackupJob.SelectDueTombstones | services/object-backup/tombstone.ts:73-89 | a batch of distinct due tombstones, longest due first, as large as the limit admits, leaving out nothing older |
| ObjectBackupJob.BackupJob.CopyDocuments | jobs/object-storage-backup.job.ts:91-135 | Phase A over the documents, whatever fails: each is tried until the lock is lost, none after that, every crash point is safe, and without application steps exactly the columns named by the calls are marked |
| ObjectBackupJob.BackupJob.CopyAttachments | jobs/object-storage-backup.job.ts:139-158 | Phase A over the attachments in the same way |
| ObjectBackupJob.BackupJob.PurgeTombstones | jobs/object-storage-backup.job.ts:160-179 | Phase B, whatever fails: delete, then drop, or count the attempt; tombstones are tried until the lock is lost or an attempt cannot be counted |
| ObjectBackupJob.BackupJob.BackupTenant | jobs/object-storage-backup.job.ts:79-182 | which calls a tenant takes for all outcomes, with the abort between the phases; and without application steps what became of each queue, the batches being those the queries choose |
| ObjectBackupJob.BackupJob.PurgeEnvironmentBackupSubtree | services/object-backup/purge.ts:39-50 | lists, deletes key by key and lists again; success means nothing is left under the prefix |
| ObjectBackupJob.BackupJob.MarkEnvironmentPurgeDone | services/object-backup/tombstone.ts:151-155 | drops a purge row, only behind an empty listing |
| ObjectBackupJob.BackupJob.RunPhaseC | jobs/object-storage-backup.job.ts:185-216 | Phase C, whatever fails: each due purge is tried until the lock is lost or an attempt cannot be counted; without application steps those whose calls all returned are gone and the others have an attempt more |
| ObjectBackupJob.BackupJob.RunObjectStorageBackup | jobs/object-storage-backup.job.ts:218-300 | a whole run for all outcomes: the protocol kept, tenants visited until the lock is lost, then Phase C; without application steps each tenant none of whose own calls fails loses a batch of each queue, whatever fails for the others, and when nothing fails so do all and the purge queue |
| ObjectBackupJob.BackupJob.RunRepeatedly | jobs/object-storage-backup.job.ts:84-286 | with nothing failing and nothing new, n runs take exactly n batches off every queue |
| ObjectBackupJob.DrainedExactlyWhen | jobs/object-storage-backup.job.ts:84-92 | so a queue is empty after n runs if and only if n is at least its length over the limit, rounded up |
| BackupCalls.DocumentOutcome | jobs/object-storage-backup.job.ts:91-135 | a document none of whose own calls fails is marked completely; one whose main object fails counts as failed and leaves its thumbnail alone |
| BackupCalls.DocumentCounted | jobs/object-storage-backup.job.ts:91-135 | what is counted for a document in terms of its calls: the bytes of its main object as soon as the copy returned, the objects of which both calls returned, and a failure of the main object only |
| BackupCalls.AttachmentCounted | jobs/object-storage-backup.job.ts:139-158 | and for an attachment: a copy or a failure, and the bytes as soon as its copy returned |
| BackupCalls.GivenUpExactlyWhen | jobs/object-storage-backup.job.ts:160-179 | a tenant is given up in Phase B if and only if for the last tombstone tried the delete or the drop threw and so did the counting of the attempt |
| BackupCalls.PurgeOutcome | jobs/object-storage-backup.job.ts:160-179 | whatever fails for the others: a tombstone that was tried is gone if and only if its delete returned and its drop took effect, and otherwise has one attempt more if counting it took effect |
| BackupQueues.EmptyExactlyWhen | jobs/object-storage-backup.job.ts:84-92 | the queues of a tenant are empty if and only if all of its rows are backed up and none of its tombstones is due |
| BackupQueues.EntersQueues | services/object-backup/tombstone.ts:36-71 | a row is pending from its insertion on; a tombstone, and the purge of an environment, is due from the end of its grace period on |
| BackupQueues.TermsStay | services/object-backup/tombstone.ts:91-160 | no step of the protocol changes the key or the grace period of a tombstone or a purge |
| BackupVisits.OldestDocumentsChosen | services/object-backup/catalog.ts:42-68 | no document left out of a batch was created before one in it |
| BackupVisits.OldestAttachmentsChosen | services/object-backup/catalog.ts:70-83 | no attachment left out of a batch was created before one in it |
| BackupVisits.LongestDueChosen | services/object-backup/tombstone.ts:73-89 | no tombstone left out of a batch has been due for longer than one in it |
| BackupVisits.TenantTriesAll | jobs/object-storage-backup.job.ts:79-182 | a tenant that is not given up and whose lock is held tries all that it has selected, whatever fails |
| BackupVisits.DocumentBackedExactlyWhen | jobs/object-storage-backup.job.ts:91-135 | whatever fails for the others: the main object of a tried document is marked if and only if its copy returned and its mark took effect, and the thumbnail if and only if its own did and the main object did not fail |
| BackupVisits.AttachmentBackedExactlyWhen | jobs/object-storage-backup.job.ts:139-158 | and an attachment if and only if its copy returned and its mark took effect |
| BackupVisits.WorkedOnlyTenant | jobs/object-storage-backup.job.ts:79-182 | the calls for one tenant touch no column and no tombstone of another, and no purge |
| BackupVisits.FineTenant | jobs/object-storage-backup.job.ts:79-182 | a tenant none of whose own calls fails loses one batch of each queue, and each object counted as copied is a column newly marked |
| BackupRuns.LongestDuePurgesChosen | services/object-backup/tombstone.ts:136-149 | no purge left out of a batch has been due for longer than one in it |
| BackupRuns.EveryTenantVisited | jobs/object-storage-backup.job.ts:239-286 | a run that keeps its lock visits every enumerated tenant whatever fails, each counted as done or failed; then comes Phase C, and every due purge is tried unless an attempt cannot be counted |
| BackupRuns.RunIsDone | jobs/object-storage-backup.job.ts:218-300 | when nothing fails, nobody else acts and the lock is held, every queue of every tenant and the purge queue lose one batch, and all totals say so |
| Cron.SharedMinutes | scripts/verify-job-overlaps.ts:256-274 | the list built by the scan holds exactly the minutes with several entries, each with all of them |
| Cron.OverlapMinutes | scripts/verify-job-overlaps.ts:252-274 | the scan reports exactly the minutes in which two or more entries fire, with the names of all of them |
| Cron.FindScheduleOverlaps | scripts/verify-job-overlaps.ts:252-284 | overlaps are exact, each once and in order; the gap is the least distance of any two distinct firing minutes of the window (none when there are fewer than two); a malformed expression throws unless the window is empty |
| Cron.MinConsecutiveGap | scripts/verify-job-overlaps.ts:276-282 | comparing neighbours only finds the minimum over all pairs of an increasing list |
| CronFields.PartExactlyWhen | scripts/verify-job-overlaps.ts:107-128 | for every number, range and step as they are written: the evaluation of the text is its meaning; a step behind a single number is ignored |
| CronFields.ListExactlyWhen | scripts/verify-job-overlaps.ts:109-111 | a written list means any of its parts |
| CronFields.FiresExactlyWhen | scripts/verify-job-overlaps.ts:136-156 | for every written expression, calendar and minute: it fires if and only if its fields say so, with Sunday as 0 or 7 and two restricted day fields as alternatives |
| CronTheorems.FiresWeekly | scripts/verify-job-overlaps.ts:136-156 | without dates an expression fires with a period of one week, in every calendar |
| CronTheorems.ClockReads | scripts/verify-job-overlaps.ts:248-262 | day, hour and minute of each scanned instant are those of the clock |
| CronTheorems.WeekdayNumbers | scripts/verify-job-overlaps.ts:248-262 | the anchor day is a Monday, numbered 1, and the days count on from there with Sunday as 0 |
| CronTheorems.AtMostOneFires | scripts/verify-job-overlaps.ts:263-265 | at most one name is listed if and only if no two entries fire |
| CronTheorems.EmptyScanExactlyWhen | scripts/verify-job-overlaps.ts:252-284 | without dates a scan of seven days or more is empty if and only if no two jobs ever share a minute, in any calendar |
| CronTheorems.AlwaysEmptyExactlyWhen | scripts/verify-job-overlaps.ts:252-284 | with dates or without: a scan of seven days or more is empty in every calendar if and only if no two jobs ever share a minute |
| CronTheorems.ClosestApproach | scripts/verify-job-overlaps.ts:276-282 | the least distance over all time is the smaller of the scan's gap and the step over the end of the week |
| CronTheorems.PrintedGapExactlyWhen | scripts/verify-job-overlaps.ts:309-313 | the printed closest approach is that of all time if and only if no nearer pair straddles the end of the week |
| CronApproach.PrintedIsOfJobsExactlyWhen | scripts/verify-job-overlaps.ts:309-311 | the printed gap is the least distance of two different jobs that fire at different minutes of the window if and only if some two jobs fire that far apart |
| CronApproach.JobsApartExactlyWhen | scripts/verify-job-overlaps.ts:256-282 | and that is so if and only if two neighbouring firing minutes that far apart are not those of one job alone, which the names listed for them tell |
| CronApproach.TogetherExactlyWhen | scripts/verify-job-overlaps.ts:267-269 | two jobs fire in one minute of the window if and only if an overlap is listed |
| CronApproach.ClosestIsOfJobsExactlyWhen | scripts/verify-job-overlaps.ts:276-311 | over all time the closest approach is one of two different jobs if and only if it is so within the scanned week or over its end |
| CronApproach.SilenceExactlyWhen | scripts/verify-job-overlaps.ts:309-314 | where the report says that no job fires within the window, none does if and only if there is not exactly one firing minute |
| JobRegistry.OneJobTwice | scripts/verify-job-overlaps.ts:309-311 | for the one entry */5 * * * * the scan prints a closest approach of five minutes between two jobs |
| JobRegistry.SundayIsSilent | scripts/verify-job-overlaps.ts:309-314 | for one job on Sundays the report says that no job fires |
| JobRegistry.JobFires | jobs/registry.ts:112-181 | each registered expression, read character by character, fires at its minutes and hours and no others |
| JobRegistry.RegistryNeverClashes | jobs/registry.ts:112-181 | in all of time at most one registered job fires in a minute |
| JobRegistry.RegistryClosestApproach | jobs/registry.ts:112-181 | distinct start minutes are at least 15 minutes apart, and some are exactly that |
| JobRegistry.RegistryJobsApart | jobs/registry.ts:112-181 | and 15 minutes is also the least distance of two different jobs, in the scanned week and in all of time |
| JobRegistry.RegistryReport | scripts/verify-job-overlaps.ts:332-352 | for the registry the scan reports no overlap and a gap of 15 |
| JobRegistry.SoundWindowExactlyWhen | scripts/verify-job-overlaps.ts:248-254 | an empty scan of so many days proves every list without dates free of clashes if and only if they are at least seven |
| JobRegistry.DatedScanMisses | scripts/verify-job-overlaps.ts:248-254 | a scan of seven days is empty for two jobs that meet every ninth of the month |
| CronReport.FirstFiringMinuteOfDay | scripts/verify-job-overlaps.ts:163-170 | the first firing minute of the anchor day, or the greatest safe integer |
| CronReport.SortByFirstFiringTime | scripts/verify-job-overlaps.ts:175-177 | a permutation of the entries, earliest first, with ties in the order in which they were; a malformed one throws only among two or more |
| CronReport.SameJobsFire | scripts/verify-job-overlaps.ts:263-265 | entries in another order fire the same jobs |
| CronReport.SortingKeepsVerdict | scripts/verify-job-overlaps.ts:345-353 | the verdict and the gap on the sorted list are those of the list as written |
| CronReport.HourLoopEndsExactlyWhen | scripts/verify-job-overlaps.ts:223-228 | the loop over the hours of a described schedule ends if and only if its step is positive or not a number |
| CronReport.DescribedHours | scripts/verify-job-overlaps.ts:223-228 | when it ends with a step that is a number, the hours it lists are those of the day that the step matches, in order |
| CronReport.DescribedHoursExactlyWhen | scripts/verify-job-overlaps.ts:223-228 | so for an hour field that is a star and a step the listed hours are those at which it fires if and only if the step is a number |
| Cidr.QuadInteger | utils/security-check.ts:338-342 | shifting and or-ing four octets gives, as an unsigned word, the address |
| Cidr.MaskBits | utils/security-check.ts:344-345 | the mask is ones above as many zeros as the shift count modulo 32 says, and all zeros for a prefix of 0 |
| Cidr.AndClearsLowBits | utils/security-check.ts:347-347 | masking leaves the multiple of the block size at or below the address |
| Cidr.MaskedExactlyWhen | utils/security-check.ts:344-347 | equal masked signed words mean equal quotients of the unsigned ones |
| Cidr.MatchExactlyWhen | utils/security-check.ts:325-348 | on dotted quads, for every prefix at all, the test is true if and only if both addresses share the quotient by two to the host bits the mask really has |
| Cidr.PrefixHonouredExactlyWhen | utils/security-check.ts:344-345 | the mask has the length asked for if and only if the prefix is between 0 and 32 |
| Cidr.PrefixPastTheEnd | utils/security-check.ts:344-345 | a prefix of 33, which only a list stored in development mode can hold, acts as a prefix of 1 |
| Cidr.BlockExactlyWhen | utils/security-check.ts:325-352 | on IPv4 blocks the test is membership in the block in the sense of section 3.1 of RFC 4632, and on other entries it is false |
| Cidr.ValidateIpAgainstAllowList | utils/security-check.ts:305-323 | true if and only if an entry equals the address or is a matching block |
| Cidr.AcceptedExactlyWhen | utils/security-check.ts:305-352 | an IPv4 address is accepted if and only if it is listed literally or lies in a listed block |
| Cidr.UndottedExactlyWhen | utils/security-check.ts:305-352 | an address without a dot, such as IPv6, is accepted if and only if it is listed literally |
| Cidr.LooseMatchExactlyWhen | utils/security-check.ts:325-348 | a client text of four parts is compared with a block as if each part that is not a number were zero |
| Cidr.MappedExactlyWhen | utils/security-check.ts:325-348 | so an IPv4-mapped address matches a block if and only if the address with its first octet replaced by zero does |
| Cidr.WrittenBlockExactlyWhen | utils/security-check.ts:325-348 | on addresses and blocks as they are written, for all octets and prefixes 0 to 32: true if and only if the quotients agree |
| DomainLists.MatchExactlyWhen | utils/security-check.ts:169-181 | the suffix test on strings is the suffix relation on label sequences |
| DomainLists.ValidateDomainAgainstAllowList | utils/security-check.ts:159-185 | true if and only if some normalized entry equals the domain or is a wildcard whose labels end the domain's |
| DomainLists.CaseAndSpaceIgnored | utils/security-check.ts:165-168 | two texts that differ only in case and outer white space are normalized alike, for matching and for storing |
| DomainLists.NormalExactlyWhen | utils/security-check.ts:165-168 | normalizing leaves a text alone if and only if it is in lower case without outer white space, and both orders of the two steps agree |
| DomainLists.FormatExactlyWhen | utils/security-check.ts:36-36 | the format expression accepts exactly the texts all of whose labels are labels |
| DomainLists.TldExactlyWhen | utils/security-check.ts:37-37 | the search for a top-level domain succeeds if and only if there are two labels or more and the last is two letters or more |
| DomainLists.FaultExactlyWhen | utils/security-check.ts:62-148 | the checks pass if and only if the entry is localhost-like or is short enough, well formed, has a top-level domain and no forbidden wildcard; the later wildcard and label checks never speak |
| DomainLists.ReasonsExactlyWhen | utils/security-check.ts:62-148 | for each reason the condition on length, labels, wildcard and last label under which a domain is refused for it, and for none under which it is accepted |
| DomainLists.StrayDotExactlyWhen | utils/security-check.ts:71-80 | a leading, trailing or double dot is there if and only if a label is missing |
| DomainLists.LabelExactlyWhen | utils/security-check.ts:36-36 | the label expression accepts exactly 1 to 63 letters, digits and inner hyphens |
| DomainLists.LocalExactlyWhen | utils/security-check.ts:35-35 | the texts passed over as localhost are exactly the three hosts, alone or with a port of digits |
| DomainLists.AcceptedNames | utils/security-check.ts:62-148 | an accepted name has at most 253 characters, two labels or more of 1 to 63 letters, digits and inner hyphens (section 2.3.4 of RFC 1035), letters in the last, and a star only in front |
| DomainLists.CheckLabels | utils/security-check.ts:132-148 | reports a label exactly when one is empty or longer than 63 characters |
| DomainLists.CheckDomain | utils/security-check.ts:62-148 | the checks in the program's order give the first fault |
| DomainLists.ValidateDomainBeforeInsert | utils/security-check.ts:23-157 | succeeds if and only if the normalized entries are pairwise distinct and each acceptable; three of the reasons are never given |
| FeatureGuard.EnvironmentContexts.GetEnvironmentContext | middleware/feature-guard.middleware.ts:31-42 | the cache read: a hit is served, a miss goes on; other environments are untouched |
| FeatureGuard.EnvironmentContexts.SelectRow | middleware/feature-guard.middleware.ts:44-64 | the database read of a miss: the row is held for the cache write, a missing row is reported and not cached |
| FeatureGuard.EnvironmentContexts.SetCache | middleware/feature-guard.middleware.ts:66-75 | the cache write with 24 hours to live, and the answer |
| FeatureGuard.EnvironmentContexts.UpdateEnvironment | services/super-admin/environment-features.service.ts:105-115 | changes the row and leaves the cache as it is |
| FeatureGuard.EnvironmentContexts.InvalidateEnvironmentCache | middleware/feature-guard.middleware.ts:111-114 | removes the entry and nothing else |
| FeatureGuard.FetchedWasRead | middleware/feature-guard.middleware.ts:44-75 | what a request is about to cache was the row at an earlier instant of its own |
| FeatureGuard.CachedWasFilled | middleware/feature-guard.middleware.ts:66-73 | a cached entry stems from a read and a later write of one request, with no invalidation since |
| FeatureGuard.ServedWasRow | middleware/feature-guard.middleware.ts:31-75 | in every interleaving a served context was the row when its request read it, and is served within the time to live of the write |
| FeatureGuard.ServedAge | middleware/feature-guard.middleware.ts:66-73 | so its age is below 24 hours plus the duration of the read that filled the cache |
| FeatureGuard.LiveFillExists | middleware/feature-guard.middleware.ts:31-75 | what is served was read and written by one request, and not invalidated since the write |
| FeatureGuard.ServedIsRowExactlyWhen | middleware/feature-guard.middleware.ts:31-75 | once every update has been invalidated, what is served is the row if and only if the row was the same at that write as at that read |
| FeatureGuard.ServedIsRow | middleware/feature-guard.middleware.ts:31-75 | in particular when that one miss was not in flight across an update and its invalidation |
| FeatureGuard.GuardAgreesExactlyWhen | middleware/feature-guard.middleware.ts:77-109 | the guard decides as if it had asked the database if and only if the rows at that read and at that write decide alike |
| FeatureGuard.GuardAgreesWithDatabase | middleware/feature-guard.middleware.ts:77-109 | in particular when that one miss was not in flight across an update and its invalidation |
| FeatureGuard.VerdictExactlyWhen | middleware/feature-guard.middleware.ts:77-109 | the guard answers suspended if and only if there is a context of that status, and disabled if and only if there is another context and some entry of the table prefixes the path and names a feature outside it |
| FeatureGuard.RefusedExactlyWhen | middleware/feature-guard.middleware.ts:77-109 | in every settled run with no miss across an update a path is refused if and only if the row disables its feature |
| FeatureGuard.CachedExactlyWhen | middleware/feature-guard.middleware.ts:66-73 | the cache holds an entry if and only if some write has not been invalidated, and that of the last such write for 24 hours |
| FeatureGuard.HitExactlyWhen | middleware/feature-guard.middleware.ts:31-42 | a new request is answered from the cache if and only if it comes within 24 hours of that write |
| FeatureGuard.StaleRead | middleware/feature-guard.middleware.ts:44-75 | a run in which an invalidated value is served again |
| FeatureGuard.FirstMatchFinds | middleware/feature-guard.middleware.ts:90-91 | the lookup finds an entry that prefixes the path if and only if there is one |
| FeatureGuard.AnyMatchAgrees | middleware/feature-guard.middleware.ts:90-104 | in a table whose overlapping prefixes name one column, any matching entry decides like the first |
| FeatureGuard.RouteTableCoherent | middleware/feature-guard.middleware.ts:14-25 | the table is of that kind, so the order of its entries does not matter |
| StoragePaths.SessionFileSegments | constants/storage-paths.ts:61-114 | the five segments of a file in a session folder are read back |
| StoragePaths.SessionPathsDistinct | constants/storage-paths.ts:61-99 | no two environments, sessions, chunk indices or kinds of file share a path |
| StoragePaths.ObjectPathsExactlyWhen | constants/storage-paths.ts:15-51 | paths of documents, thumbnails and attachments coincide if and only if environment, folder and file name do |
| StoragePaths.ObjectPathsDistinct | constants/storage-paths.ts:15-51 | and for 32-character ids as they are issued only for one object |
| StoragePaths.HyphenatedIdsClash | constants/storage-paths.ts:15-37 | ids with hyphens and of other lengths could let a document share the path of a thumbnail |
| StoragePaths.MatchPositions | constants/storage-paths.ts:124-124 | where the greedy expression can match a session path |
| StoragePaths.ExtractExactlyWhen | constants/storage-paths.ts:122-131 | for all slash-free ids and files the folder is read back if and only if it is not an empty session in an environment called temp-chunks |
| StoragePaths.ExtractFromSessionFile | constants/storage-paths.ts:61-131 | so every chunk, original chunk and session thumbnail leads back to its folder, even when an id is temp-chunks or holds a line break |
| StoragePaths.FallbackExactlyWhen | constants/storage-paths.ts:122-131 | without a session folder in the path what stands before its last slash is returned, and the whole path if and only if there is no slash behind its first character |
| StoragePaths.KeyNamesEnvironment | scripts/reconcile-backup-prefixes.ts:41-42 | a key below an environment's prefix names that environment |
| StoragePaths.NamesExactlyWhen | scripts/reconcile-backup-prefixes.ts:41-42 | a key names an environment if and only if the id is its second segment and not empty |
| StoragePaths.DocumentPathsNameEnvironment | constants/storage-paths.ts:15-51 | document, thumbnail and attachment paths name their environment |
| StoragePaths.SessionPathsNameEnvironment | constants/storage-paths.ts:61-99 | and so do the paths of a session |
| StoragePaths.Reconcile | scripts/reconcile-backup-prefixes.ts:38-59 | a purge is queued for exactly the environments that some key names and no live row does, and they are counted |
| ChunkedUpload.CalculateOptimalChunkSize | constants/documents/chunked-upload.ts:121-146 | the chunk size is valid for every size and type |
| ChunkedUpload.SizeChangesExactlyWhen | constants/documents/chunked-upload.ts:129-145 | for a file that is not media the chunk size rises if and only if the file reaches 100 or 500 megabytes, or two or five gigabytes |
| ChunkedUpload.WholeChunksBeforeChange | constants/documents/chunked-upload.ts:129-145 | and just before each change the chunks of 5, 10, 20 and 30 megabytes fill it |
| ChunkedUpload.ChunksPerTier | constants/documents/chunked-upload.ts:129-156 | how many chunks a file takes, size range by size range |
| ChunkedUpload.ChunkSizeGrows | constants/documents/chunked-upload.ts:121-146 | a larger file never gets smaller chunks |
| ChunkedUpload.MediaExactlyWhen | constants/documents/chunked-upload.ts:121-127 | a type gets two megabytes whatever the size if and only if it is video or audio |
| ChunkedUpload.ValidSizesBound | constants/documents/chunked-upload.ts:173-176 | with any valid chunk size the largest file takes 103 to 5120 chunks |
| ChunkedUpload.NonEmptyExactlyWhen | constants/documents/chunked-upload.ts:151-168 | a chunk holds bytes if and only if its index is below the number of chunks |
| ChunkedUpload.Consecutive | constants/documents/chunked-upload.ts:158-168 | chunks start at zero, follow one another, are full but for the last, and end with the file |
| ChunkedUpload.AssembleAll | constants/documents/chunked-upload.ts:151-168 | their slices, one after the other, are the file |
| ChunkedUpload.SizesSum | constants/documents/chunked-upload.ts:158-168 | their sizes sum to the length of what they assemble |
| ChunkedUpload.ByteInOneChunk | constants/documents/chunked-upload.ts:158-168 | every byte lies in exactly one chunk |
| ChunkedUpload.ChunkCountBound | constants/validation/numeric-limits.ts:26-26 | a file within the limit that is not media needs at most 171 chunks |
| ChunkedUpload.MediaChunkCountBound | constants/documents/chunked-upload.ts:125-127 | a media file within the limit needs at most 2560 |
| ChunkedUpload.ChunkCountAttained | constants/documents/chunked-upload.ts:129-145 | both numbers are reached |
| BatchedCleanup.Databases.CleanupTable | jobs/threat-intelligence-cleanup.job.ts:96-147 | whatever throws and whatever others write, each delete names due rows of the select in front of it; when nobody else writes, only due rows of the one table go, at most one batch of them is not counted, and if nothing throws the count is exact and, unless the batch size is zero, all due rows go |
| BatchedCleanup.KeptExactlyWhen | jobs/notifications-cleanup.job.ts:55-95 | what a cleanup leaves: every trace expiring at or after now, every active or recent threat entry, every undismissed or recent notification, all unchanged, and when it is done nothing else |
| BatchedCleanup.UndueGoesExactlyWhen | jobs/threat-intelligence-cleanup.job.ts:110-128 | each row that is deleted was due when it was selected, and it goes although it is not due any more if and only if the last write to it since the select made it so |
| BatchedCleanup.ReactivatedEntryGoes | services/threat-intelligence/db-utils.ts:215-221 | a threat entry that is reactivated between the select and the delete is deleted |
| BatchedCleanup.Databases.CleanupExpiredTraces | jobs/trace-cleanup.job.ts:60-106 | when nobody else writes: removes exactly the expired traces and returns their number, or throws; a batch size of zero removes none |
| BatchedCleanup.Databases.CleanupInactiveThreatEntries | jobs/threat-intelligence-cleanup.job.ts:66-90 | when nobody else writes: removes exactly the stale entries of both tables and returns their number together, or throws; whoever writes, the history shows each delete behind its select |
| BatchedCleanup.Databases.CleanupTenant | jobs/notifications-cleanup.job.ts:55-95 | one tenant, when nobody else writes: only due notifications go, all of them unless a call throws |
| BatchedCleanup.Databases.CleanupDismissedNotifications | jobs/notifications-cleanup.job.ts:47-105 | a failing tenant holds up no other, and the total is that of the tenants whose loop completed |

## Left out

- Drivers, SQL, HTTP, cookies, tracing, logging, hashing and storage providers: they appear only as operations that may fail.
- A row that keeps failing at the front of a queue: the oldest rows are selected again each run, and no bound on the others is claimed.
- Purges that `scripts/reconcile-backup-prefixes.ts` adds to the queue of a running system: `Reconcile` is modelled by itself.
- Two instances of one job at a time, and the inside of the job lock.
- Concurrent read-modify-write on one rate-limit or lockout key: requests on one key are taken one after the other.
- Cache providers beyond expiry: eviction under memory pressure and rounding of the time to live to whole seconds.
- Rate-limit keys, fingerprints and the header tests that classify an address: the classification is a parameter, and its multipliers are exact rationals where the source multiplies in floating point.
- `decideMagicLinkCompletion` and the rest of the login handler behind an accepted password.
- `getDecryptedTenantCredentials`, `tenantDbPath` and the process-wide global client of `db/db.ts`.
- `describeCronSchedule` and `formatOverlapReport`: text for people, of which only the hour loop, the closest approach and the line for no gap are modelled.
- `parseSchedulesFromSource`: the registry's schedules are data here.
- The calendar: day of month and month come from an arbitrary function of the day, and only `DatedScanMisses` fixes a part of it.
- Numbers beyond 2^53, where the source's doubles are no longer exact, in cron fields, octets and file sizes.
- Text outside ASCII in trimming, lower-casing and digits.
- `useValidateIpBeforeInsert`, which checks a list of addresses and blocks before it is stored.
- The three regular expressions of the domain check are written as predicates on characters and labels, not as expressions that are run.
- The file extension of a MIME type is a parameter of the path builders.
- RunRepeatedly: keeps the instants at which the runs come to a tenant and to the purges fixed, so that the due rows are those of the start.
- EveryCrashPointSafe: speaks of keys; whether the bytes are those of the last write is the subject of `BackupFreshness`, one key at a time.
- EveryRunFromEmptySafe: speaks of keys as well.
- CleanupTable: others write during finitely many of its calls; for ever, the loop need not end, in the model as in the source.
- CleanupInactiveThreatEntries: counts what was selected; when others write, this is not the number of rows removed, and only the history is claimed.
- Retry: the shift that doubles the wait is exact, which it is for the four retries in use.
- Statistics of password rotation, the threat scanner's patterns, notification and error catalogues, CRUD handlers.
