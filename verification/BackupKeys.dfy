/**
 * Why the catalog's keys are apart: what the backup assumes of a new row follows
 * from the path builders and from the shape of the ids.
 */
module BackupKeys {
  import opened ObjectBackup
  import StoragePaths

  /** The object that a column names; the extension stems from the MIME type in the same row. */
  function ObjectOf(slot: Slot, extension: string): StoragePaths.StoredObject {
    match slot
    case Main(_, id) => StoragePaths.Document(id, extension)
    case Thumbnail(_, id) => StoragePaths.DocumentThumbnail(id)
    case Attachment(_, id) => StoragePaths.NoteAttachment(id, extension)
  }

  function KeyOf(slot: Slot, extension: string): string {
    StoragePaths.ObjectPath(slot.env, ObjectOf(slot, extension))
  }

  predicate WellNamed(slot: Slot, extension: string) {
    SlashFree(slot.env) && StoragePaths.IsIssued(ObjectOf(slot, extension))
  }

  /** Every row's key is the path of its slot. */
  ghost predicate AsBuilt(rows: map<Slot, string>, extensions: Slot -> string) {
    forall slot :: slot in rows ==> WellNamed(slot, extensions(slot)) && rows[slot] == KeyOf(slot, extensions(slot))
  }

  /** Every key that was ever issued is the path of a slot that was. */
  ghost predicate IssuedAsBuilt(s: Durable, extensions: Slot -> string) {
    forall key :: key in s.issuedKeys ==>
      exists slot :: slot in s.issuedSlots && WellNamed(slot, extensions(slot)) && key == KeyOf(slot, extensions(slot))
  }

  lemma KeysDistinct(a: Slot, x: string, b: Slot, y: string)
    requires WellNamed(a, x) && WellNamed(b, y) && KeyOf(a, x) == KeyOf(b, y)
    ensures a == b
  {
    StoragePaths.ObjectPathsDistinct(a.env, ObjectOf(a, x), b.env, ObjectOf(b, y));
  }

  lemma KeyIsUnder(slot: Slot, extension: string)
    ensures Under(slot.env, KeyOf(slot, extension))
  {
    var o := ObjectOf(slot, extension);
    StoragePaths.PathByParts(slot.env, o);
    var front := ROOT + slot.env + "/";
    var rest := StoragePaths.Folder(o) + "/" + StoragePaths.ObjectName(o);
    assert KeyOf(slot, extension) == front + rest;
  }

  lemma BuiltRowsApart(rows: map<Slot, string>, extensions: Slot -> string)
    requires AsBuilt(rows, extensions)
    ensures Injective(rows) && forall slot :: slot in rows ==> Under(slot.env, rows[slot])
  {
    hide KeyOf, WellNamed, Under;
    forall a, b | a in rows && b in rows && rows[a] == rows[b] ensures a == b {
      KeysDistinct(a, extensions(a), b, extensions(b));
    }
    forall slot | slot in rows ensures Under(slot.env, rows[slot]) {
      KeyIsUnder(slot, extensions(slot));
    }
  }

  lemma NewKeyIsFresh(s: Durable, slot: Slot, extensions: Slot -> string)
    requires IssuedAsBuilt(s, extensions) && slot !in s.issuedSlots && WellNamed(slot, extensions(slot))
    ensures KeyOf(slot, extensions(slot)) !in s.issuedKeys
  {
    hide KeyOf, WellNamed;
    var key := KeyOf(slot, extensions(slot));
    if key in s.issuedKeys {
      var other :| other in s.issuedSlots
                   && WellNamed(other, extensions(other)) && key == KeyOf(other, extensions(other));
      KeysDistinct(slot, extensions(slot), other, extensions(other));
    }
  }

  /** Rows with keys as they are built may be inserted exactly when their ids are new and their environments live. */
  lemma InsertAllowedExactlyWhen(listing: Listing, s: Durable, rows: map<Slot, string>, at: int,
                                 extensions: Slot -> string)
    requires AsBuilt(rows, extensions) && IssuedAsBuilt(s, extensions)
    ensures AppAllowed(listing, s, InsertRows(rows, at)) <==>
              forall slot :: slot in rows ==> slot !in s.issuedSlots && slot.env in s.live
    ensures IssuedAsBuilt(AppApply(s, InsertRows(rows, at)), extensions)
  {
    hide KeyOf, WellNamed, Under, Injective;
    BuiltRowsApart(rows, extensions);
    forall slot | slot in rows && slot !in s.issuedSlots ensures rows[slot] !in s.issuedKeys {
      NewKeyIsFresh(s, slot, extensions);
    }
    StillAsBuilt(s, rows, at, extensions);
  }

  lemma StillAsBuilt(s: Durable, rows: map<Slot, string>, at: int, extensions: Slot -> string)
    requires AsBuilt(rows, extensions) && IssuedAsBuilt(s, extensions)
    ensures IssuedAsBuilt(AppApply(s, InsertRows(rows, at)), extensions)
  {
    hide KeyOf, WellNamed;
    var s' := AppApply(s, InsertRows(rows, at));
    forall key | key in s'.issuedKeys
      ensures exists slot :: slot in s'.issuedSlots
                             && WellNamed(slot, extensions(slot)) && key == KeyOf(slot, extensions(slot))
    {
      if key in s.issuedKeys {
        var slot :| slot in s.issuedSlots && WellNamed(slot, extensions(slot)) && key == KeyOf(slot, extensions(slot));
        assert slot in s'.issuedSlots;
      } else {
        var slot :| slot in rows && rows[slot] == key;
        assert slot in s'.issuedSlots;
      }
    }
  }
}
