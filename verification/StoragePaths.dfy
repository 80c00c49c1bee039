/**
 * The path builders of constants/storage-paths.ts, the session folder read back
 * from a chunk path, and the environments that reconciliation reads from keys.
 */
module StoragePaths {
  import opened Wrappers
  import opened Text

  const ROOT := "environment-storage"
  const TEMP := "temp-chunks"

  // ----- the builders; the file extension of a MIME type is a parameter

  function CompleteStoragePathForDocument(environmentId: string, storageMetadataId: string, extension: string): string {
    ROOT + "/" + environmentId + "/documents/" + storageMetadataId + extension
  }

  function CompleteStoragePathForThumbnail(environmentId: string, storageMetadataId: string): string {
    ROOT + "/" + environmentId + "/documents/" + storageMetadataId + "-thumbnail.jpg"
  }

  function CompleteStoragePathForNoteAttachment(environmentId: string, attachmentId: string, extension: string): string
  {
    ROOT + "/" + environmentId + "/notes/" + attachmentId + extension
  }

  function GetSessionFolderPath(environmentId: string, sessionId: string): string {
    ROOT + "/" + environmentId + "/" + TEMP + "/" + sessionId
  }

  function CompleteStoragePathForChunk(environmentId: string, sessionId: string, chunkIndex: nat): string {
    GetSessionFolderPath(environmentId, sessionId) + "/" + (Decimal(chunkIndex) + ".chunk")
  }

  function CompleteStoragePathForOriginalChunk(environmentId: string, sessionId: string, chunkIndex: nat): string {
    GetSessionFolderPath(environmentId, sessionId) + "/" + (Decimal(chunkIndex) + ".original")
  }

  function CompleteStoragePathForSessionThumbnail(environmentId: string, sessionId: string): string {
    GetSessionFolderPath(environmentId, sessionId) + "/" + "thumbnail.jpg"
  }

  // ----- reading the segments back

  lemma AnotherSegment(front: string, last: string)
    requires '/' !in last
    ensures Split(front + "/" + last, '/') == Split(front, '/') + [last]
  {
    SplitAt(front, last, '/');
    SplitFree(last, '/');
  }

  lemma FiveSegments(a: string, b: string, c: string, d: string, e: string)
    requires '/' !in a && '/' !in b && '/' !in c && '/' !in d && '/' !in e
    ensures Split(a + "/" + b + "/" + c + "/" + d + "/" + e, '/') == [a, b, c, d, e]
  {
    SplitFree(a, '/');
    AnotherSegment(a, b);
    AnotherSegment(a + "/" + b, c);
    AnotherSegment(a + "/" + b + "/" + c, d);
    AnotherSegment(a + "/" + b + "/" + c + "/" + d, e);
  }

  /** The segments of a file in a session folder. */
  lemma SessionFileSegments(environmentId: string, sessionId: string, file: string)
    requires '/' !in environmentId && '/' !in sessionId && '/' !in file
    ensures Split(GetSessionFolderPath(environmentId, sessionId) + "/" + file, '/')
              == [ROOT, environmentId, TEMP, sessionId, file]
  {
    FiveSegments(ROOT, environmentId, TEMP, sessionId, file);
  }

  lemma SameFile(e: string, s: string, f: string, e': string, s': string, f': string)
    requires '/' !in e && '/' !in s && '/' !in f && '/' !in e' && '/' !in s' && '/' !in f'
    requires GetSessionFolderPath(e, s) + "/" + f == GetSessionFolderPath(e', s') + "/" + f'
    ensures e == e' && s == s' && f == f'
  {
    SessionFileSegments(e, s, f);
    SessionFileSegments(e', s', f');
    var parts := Split(GetSessionFolderPath(e, s) + "/" + f, '/');
    assert parts[1] == e && parts[3] == s && parts[4] == f;
    assert parts[1] == e' && parts[3] == s' && parts[4] == f';
  }

  lemma SameEnding(a: string, b: string, ending: string)
    requires a + ending == b + ending
    ensures a == b
  {
    assert |a| == |b| && a == (a + ending)[..|a|] && b == (b + ending)[..|b|];
  }

  lemma LastChar(a: string, ending: string)
    requires ending != []
    ensures (a + ending)[|a + ending| - 1] == ending[|ending| - 1]
  {
  }

  datatype SessionFile =
    | Chunk(index: nat)
    | Original(index: nat)
    | Thumbnail

  function PathOf(environmentId: string, sessionId: string, file: SessionFile): string {
    match file
    case Chunk(i) => CompleteStoragePathForChunk(environmentId, sessionId, i)
    case Original(i) => CompleteStoragePathForOriginalChunk(environmentId, sessionId, i)
    case Thumbnail => CompleteStoragePathForSessionThumbnail(environmentId, sessionId)
  }

  function FileName(file: SessionFile): (name: string)
    ensures '/' !in name && name != ""
  {
    match file
    case Chunk(i) => Decimal(i) + ".chunk"
    case Original(i) => Decimal(i) + ".original"
    case Thumbnail => "thumbnail.jpg"
  }

  lemma SameName(f: SessionFile, g: SessionFile)
    requires FileName(f) == FileName(g)
    ensures f == g
  {
    if f.Chunk? { LastChar(Decimal(f.index), ".chunk"); }
    if g.Chunk? { LastChar(Decimal(g.index), ".chunk"); }
    if f.Original? { LastChar(Decimal(f.index), ".original"); }
    if g.Original? { LastChar(Decimal(g.index), ".original"); }
    if f.Chunk? {
      SameEnding(Decimal(f.index), Decimal(g.index), ".chunk");
      DecimalInjective(f.index, g.index);
    } else if f.Original? {
      SameEnding(Decimal(f.index), Decimal(g.index), ".original");
      DecimalInjective(f.index, g.index);
    }
  }

  /** No two uploads, chunks or kinds of file share a path. */
  lemma SessionPathsDistinct(e: string, s: string, f: SessionFile, e': string, s': string, g: SessionFile)
    requires '/' !in e && '/' !in s && '/' !in e' && '/' !in s'
    requires PathOf(e, s, f) == PathOf(e', s', g)
    ensures e == e' && s == s' && f == g
  {
    SameFile(e, s, FileName(f), e', s', FileName(g));
    SameName(f, g);
  }

  // ----- documents, thumbnails and attachments

  datatype StoredObject =
    | Document(id: string, extension: string)
    | DocumentThumbnail(id: string)
    | NoteAttachment(id: string, extension: string)

  function ObjectPath(environmentId: string, o: StoredObject): string {
    match o
    case Document(id, extension) => CompleteStoragePathForDocument(environmentId, id, extension)
    case DocumentThumbnail(id) => CompleteStoragePathForThumbnail(environmentId, id)
    case NoteAttachment(id, extension) => CompleteStoragePathForNoteAttachment(environmentId, id, extension)
  }

  function Folder(o: StoredObject): string {
    if o.NoteAttachment? then "notes" else "documents"
  }

  function ObjectName(o: StoredObject): string {
    o.id + if o.DocumentThumbnail? then "-thumbnail.jpg" else o.extension
  }

  /** What the table of extensions holds, and the empty text for a type that it does not. */
  predicate IsExtension(extension: string) {
    '/' !in extension && (extension == "" || extension[0] == '.')
  }

  predicate IsStorageChar(c: char) {
    '0' <= c <= '9' || 'A' <= c <= 'Z' || c == '_' || 'a' <= c <= 'z'
  }

  predicate IsStorageId(id: string) {
    |id| == 32 && forall i :: 0 <= i < |id| ==> IsStorageChar(id[i])
  }

  predicate IsIssued(o: StoredObject) {
    IsStorageId(o.id) && (o.DocumentThumbnail? || IsExtension(o.extension))
  }

  predicate OneSegment(o: StoredObject) {
    '/' !in ObjectName(o)
  }

  lemma FourSegments(a: string, b: string, c: string, d: string)
    requires '/' !in a && '/' !in b && '/' !in c && '/' !in d
    ensures Split(a + "/" + b + "/" + c + "/" + d, '/') == [a, b, c, d]
  {
    SplitFree(a, '/');
    AnotherSegment(a, b);
    AnotherSegment(a + "/" + b, c);
    AnotherSegment(a + "/" + b + "/" + c, d);
  }

  lemma PathByParts(e: string, o: StoredObject)
    ensures ObjectPath(e, o) == ROOT + "/" + e + "/" + Folder(o) + "/" + ObjectName(o)
  {
    var front := ROOT + "/" + e;
    match o
    case Document(id, x) => assert front + "/documents/" + id + x == front + "/" + "documents" + "/" + (id + x);
    case DocumentThumbnail(id) =>
      assert front + "/documents/" + id + "-thumbnail.jpg" == front + "/" + "documents" + "/" + (id + "-thumbnail.jpg");
    case NoteAttachment(id, x) => assert front + "/notes/" + id + x == front + "/" + "notes" + "/" + (id + x);
  }

  /** Two paths coincide exactly when environment, folder and file name do. */
  lemma ObjectPathsExactlyWhen(e: string, o: StoredObject, e': string, p: StoredObject)
    requires '/' !in e && '/' !in e' && OneSegment(o) && OneSegment(p)
    ensures ObjectPath(e, o) == ObjectPath(e', p) <==>
              e == e' && Folder(o) == Folder(p) && ObjectName(o) == ObjectName(p)
  {
    PathByParts(e, o);
    PathByParts(e', p);
    hide ObjectPath, ObjectName, Split;
    FourSegments(ROOT, e, Folder(o), ObjectName(o));
    FourSegments(ROOT, e', Folder(p), ObjectName(p));
  }

  lemma IdIsFront(o: StoredObject)
    ensures |ObjectName(o)| >= |o.id| && ObjectName(o)[..|o.id|] == o.id
    ensures ObjectName(o)[|o.id|..] == if o.DocumentThumbnail? then "-thumbnail.jpg" else o.extension
  {
  }

  lemma SameObject(o: StoredObject, p: StoredObject)
    requires IsIssued(o) && IsIssued(p) && Folder(o) == Folder(p) && ObjectName(o) == ObjectName(p)
    ensures o == p
  {
    IdIsFront(o);
    IdIsFront(p);
    assert o.id == p.id;
    assert o.DocumentThumbnail? == p.DocumentThumbnail?;
  }

  lemma IssuedIsOneSegment(o: StoredObject)
    requires IsIssued(o)
    ensures OneSegment(o)
  {
    assert forall i :: 0 <= i < |o.id| ==> IsStorageChar(o.id[i]);
  }

  /** For ids as they are issued no two stored objects share a path. */
  lemma ObjectPathsDistinct(e: string, o: StoredObject, e': string, p: StoredObject)
    requires '/' !in e && '/' !in e' && IsIssued(o) && IsIssued(p)
    ensures ObjectPath(e, o) == ObjectPath(e', p) <==> e == e' && o == p
  {
    IssuedIsOneSegment(o);
    IssuedIsOneSegment(p);
    ObjectPathsExactlyWhen(e, o, e', p);
    hide ObjectPath, ObjectName;
    if ObjectPath(e, o) == ObjectPath(e', p) { SameObject(o, p); }
  }

  /** Ids of another shape could clash: a document with the thumbnail of another. */
  lemma HyphenatedIdsClash(e: string, id: string)
    ensures ObjectPath(e, Document(id + "-thumbnail", ".jpg")) == ObjectPath(e, DocumentThumbnail(id))
  {
    assert "-thumbnail" + ".jpg" == "-thumbnail.jpg";
  }

  // ----- the session folder of a path

  /** The characters that a dot in a regular expression does not match. */
  predicate IsLineEnd(c: char) {
    c == '\n' || c == '\r' || c == '\U{2028}' || c == '\U{2029}'
  }

  /** The end of the segment that begins at i. */
  function SegmentEnd(path: string, i: nat): (e: nat)
    requires i <= |path|
    ensures i <= e <= |path| && '/' !in path[i..e] && (e < |path| ==> path[e] == '/')
    decreases |path| - i
  {
    if i == |path| || path[i] == '/' then i else
      assert path[i..SegmentEnd(path, i + 1)] == [path[i]] + path[i + 1..SegmentEnd(path, i + 1)];
      SegmentEnd(path, i + 1)
  }

  /** ^(.+\/temp-chunks\/[^/]+)\/ with the wildcard taking the first p characters. */
  predicate MatchesAt(path: string, p: nat) {
    && 1 <= p && p + 13 <= |path| && path[p..p + 13] == "/temp-chunks/"
    && (forall i :: 0 <= i < p ==> !IsLineEnd(path[i]))
    && p + 13 < SegmentEnd(path, p + 13) < |path|
  }

  /** The wildcard is greedy: the greatest p below n. */
  function GreedyMatch(path: string, n: nat): (m: Option<nat>)
    ensures m.Some? ==> m.value < n && MatchesAt(path, m.value)
    ensures forall p: nat :: p < n && MatchesAt(path, p) ==> m.Some? && p <= m.value
  {
    if n == 0 then None
    else if MatchesAt(path, n - 1) then Some(n - 1)
    else GreedyMatch(path, n - 1)
  }

  function LastSlash(path: string): (i: int)
    ensures -1 <= i < |path|
    ensures i >= 0 ==> path[i] == '/'
  {
    if path == "" then -1
    else if path[|path| - 1] == '/' then |path| - 1
    else LastSlash(path[..|path| - 1])
  }

  lemma {:induction false} NoLaterSlash(path: string)
    ensures forall k :: LastSlash(path) < k < |path| ==> path[k] != '/'
  {
    if path != "" && path[|path| - 1] != '/' {
      NoLaterSlash(path[..|path| - 1]);
    }
  }

  function ExtractSessionFolderPath(chunkPath: string): string {
    var m := GreedyMatch(chunkPath, |chunkPath|);
    if m.Some? then chunkPath[..SegmentEnd(chunkPath, m.value + 13)]
    else
      var lastSlash := LastSlash(chunkPath);
      if lastSlash > 0 then chunkPath[..lastSlash] else chunkPath
  }

  function SessionPath(environmentId: string, sessionId: string, file: string): string {
    GetSessionFolderPath(environmentId, sessionId) + "/" + file
  }

  /** Where the slash behind the environment stands. */
  function Cut(environmentId: string): nat {
    |ROOT| + 1 + |environmentId|
  }

  lemma SlashPositions(environmentId: string, sessionId: string, file: string, i: nat)
    requires '/' !in environmentId && '/' !in sessionId && '/' !in file
    requires i < |SessionPath(environmentId, sessionId, file)|
    ensures SessionPath(environmentId, sessionId, file)[i] == '/' <==>
              i in {|ROOT|, Cut(environmentId), Cut(environmentId) + 12, Cut(environmentId) + 13 + |sessionId|}
  {
    var path := SessionPath(environmentId, sessionId, file);
    var cut := Cut(environmentId);
    if i < |ROOT| {
      assert path[i] == ROOT[i];
    } else if |ROOT| < i < cut {
      assert path[i] == environmentId[i - |ROOT| - 1] && path[i] in environmentId;
    } else if cut < i < cut + 12 {
      assert path[i] == TEMP[i - cut - 1];
    } else if cut + 12 < i < cut + 13 + |sessionId| {
      assert path[i] == sessionId[i - cut - 13] && path[i] in sessionId;
    } else if cut + 13 + |sessionId| < i {
      assert path[i] == file[i - cut - 14 - |sessionId|] && path[i] in file;
    }
  }

  lemma SegmentEndAt(path: string, i: nat, e: nat)
    requires i <= e < |path| && path[e] == '/' && forall k :: i <= k < e ==> path[k] != '/'
    ensures SegmentEnd(path, i) == e
  {
  }

  lemma LastSlashAt(path: string, e: nat)
    requires e < |path| && path[e] == '/' && forall k :: e < k < |path| ==> path[k] != '/'
    ensures LastSlash(path) == e
  {
    NoLaterSlash(path);
  }

  lemma Middle(a: string, b: string, c: string)
    ensures (a + b + c)[|a|..|a| + |b|] == b
  {
    assert (a + b + c)[..|a| + |b|] == a + b;
  }

  lemma SessionPathParts(e: string, s: string, f: string)
    ensures SessionPath(e, s, f)[|ROOT| + 1..Cut(e)] == e
    ensures SessionPath(e, s, f)[Cut(e)..Cut(e) + 13] == "/temp-chunks/"
  {
    var path, tail := SessionPath(e, s, f), "/temp-chunks/" + s + "/" + f;
    assert path == (ROOT + "/") + e + tail;
    Middle(ROOT + "/", e, tail);
    assert path == (ROOT + "/" + e) + "/temp-chunks/" + (s + "/" + f);
    Middle(ROOT + "/" + e, "/temp-chunks/", s + "/" + f);
  }

  ghost predicate OneLine(s: string) {
    forall c :: c in s ==> !IsLineEnd(c)
  }

  lemma InsideMatch(path: string, p: nat)
    requires p + 13 <= |path| && path[p..p + 13] == "/temp-chunks/"
    ensures path[p + 1..p + 12] == TEMP
  {
    forall i | 0 <= i < 11 ensures path[p + 1 + i] == TEMP[i] {
      assert path[p + 1 + i] == path[p..p + 13][i + 1];
    }
  }

  lemma NoLineEnds(e: string, s: string, f: string, p: nat)
    requires p >= Cut(e) && p <= |SessionPath(e, s, f)|
    requires forall i :: 0 <= i < p ==> !IsLineEnd(SessionPath(e, s, f)[i])
    ensures OneLine(e)
  {
    SessionPathParts(e, s, f);
    var path := SessionPath(e, s, f);
    hide IsLineEnd, SessionPath;
    forall i | 0 <= i < |e| ensures !IsLineEnd(e[i]) {
      assert e[i] == path[|ROOT| + 1 + i];
    }
  }

  /** Only the environment's end, or the root before an environment called temp-chunks, can match. */
  lemma MatchPositions(e: string, s: string, f: string, p: nat)
    requires '/' !in e && '/' !in s && '/' !in f && MatchesAt(SessionPath(e, s, f), p)
    ensures (p == Cut(e) && s != "" && OneLine(e)) || (p == |ROOT| && e == TEMP)
  {
    var path := SessionPath(e, s, f);
    var end := SegmentEnd(path, p + 13);
    assert path[p] == path[p..p + 13][0] == '/' && path[p + 12] == path[p..p + 13][12] == '/';
    SlashPositions(e, s, f, p);
    SlashPositions(e, s, f, p + 12);
    SlashPositions(e, s, f, end);
    SessionPathParts(e, s, f);
    if p == |ROOT| {
      assert Cut(e) == p + 12;
      InsideMatch(path, p);
    } else {
      NoLineEnds(e, s, f, p);
    }
  }

  lemma MatchAtCut(e: string, s: string, f: string)
    requires '/' !in e && '/' !in s && '/' !in f && s != "" && OneLine(e)
    ensures MatchesAt(SessionPath(e, s, f), Cut(e))
    ensures SegmentEnd(SessionPath(e, s, f), Cut(e) + 13) == Cut(e) + 13 + |s|
  {
    var path, cut := SessionPath(e, s, f), Cut(e);
    SessionPathParts(e, s, f);
    forall i | 0 <= i < cut ensures !IsLineEnd(path[i]) {
      if i < |ROOT| {
        assert path[i] == ROOT[i];
      } else if i > |ROOT| {
        assert path[i] == e[i - |ROOT| - 1] && path[i] in e;
      }
    }
    forall k | cut + 13 <= k < cut + 13 + |s| ensures path[k] != '/' { SlashPositions(e, s, f, k); }
    SegmentEndAt(path, cut + 13, cut + 13 + |s|);
  }

  lemma MatchAtRoot(e: string, s: string, f: string)
    requires '/' !in s && '/' !in f && e == TEMP
    ensures MatchesAt(SessionPath(e, s, f), |ROOT|)
    ensures SegmentEnd(SessionPath(e, s, f), |ROOT| + 13) == Cut(e) + 12
  {
    var path := SessionPath(e, s, f);
    SessionPathParts(e, s, f);
    assert path == ROOT + "/temp-chunks/" + path[|ROOT| + 13..];
    Middle(ROOT, "/temp-chunks/", path[|ROOT| + 13..]);
    assert forall i :: 0 <= i < |ROOT| ==> path[i] == ROOT[i];
    forall k | |ROOT| + 13 <= k < Cut(e) + 12 ensures path[k] != '/' { SlashPositions(e, s, f, k); }
    SlashPositions(e, s, f, Cut(e) + 12);
    SegmentEndAt(path, |ROOT| + 13, Cut(e) + 12);
  }

  lemma LastSlashOfFile(e: string, s: string, f: string)
    requires '/' !in e && '/' !in s && '/' !in f
    ensures LastSlash(SessionPath(e, s, f)) == Cut(e) + 13 + |s|
  {
    var path, end := SessionPath(e, s, f), Cut(e) + 13 + |s|;
    SlashPositions(e, s, f, end);
    forall k | end < k < |path| ensures path[k] != '/' { SlashPositions(e, s, f, k); }
    LastSlashAt(path, end);
  }

  /**
   * From a file in a session folder the folder is read back, even when an id is
   * temp-chunks or holds a line break; the one exception is an empty session id
   * in an environment called temp-chunks.
   */
  lemma ExtractExactlyWhen(e: string, s: string, f: string)
    requires '/' !in e && '/' !in s && '/' !in f
    ensures ExtractSessionFolderPath(SessionPath(e, s, f)) == GetSessionFolderPath(e, s) <==> !(e == TEMP && s == "")
  {
    FolderIsPrefix(e, s, f);
    hide GetSessionFolderPath, SessionPath, MatchesAt;
    var path := SessionPath(e, s, f);
    var m := GreedyMatch(path, |path|);
    if m.Some? { MatchPositions(e, s, f, m.value); }
    if s != "" && OneLine(e) {
      MatchAtCut(e, s, f);
    } else if e == TEMP {
      MatchAtRoot(e, s, f);
    } else {
      LastSlashOfFile(e, s, f);
    }
  }

  lemma FolderIsPrefix(e: string, s: string, f: string)
    ensures |SessionPath(e, s, f)| > Cut(e) + 13 + |s| && |GetSessionFolderPath(e, s)| == Cut(e) + 13 + |s|
    ensures SessionPath(e, s, f)[..Cut(e) + 13 + |s|] == GetSessionFolderPath(e, s)
  {
  }

  /** Any file of a session leads back to the session's folder. */
  lemma ExtractFromSessionFile(environmentId: string, sessionId: string, file: SessionFile)
    requires '/' !in environmentId && '/' !in sessionId && sessionId != ""
    ensures ExtractSessionFolderPath(PathOf(environmentId, sessionId, file))
              == GetSessionFolderPath(environmentId, sessionId)
  {
    ExtractExactlyWhen(environmentId, sessionId, FileName(file));
  }

  /**
   * Without a session folder in the path what stands before the last slash is
   * returned, and the whole path when there is nothing before it or no slash.
   */
  lemma FallbackExactlyWhen(path: string)
    requires forall p: nat :: p < |path| ==> !MatchesAt(path, p)
    ensures var folder := ExtractSessionFolderPath(path);
            && (folder == path <==> path == "" || '/' !in path[1..])
            && (folder != path ==>
                  exists name: string :: folder != "" && '/' !in name && path == folder + "/" + name)
  {
    var last := LastSlash(path);
    NoLaterSlash(path);
    if last > 0 {
      assert path == path[..last] + "/" + path[last + 1..];
      assert path[1..][last - 1] == '/';
    } else if path != "" {
      assert last == 0 ==> path[1..] == path[last + 1..];
      assert last < 0 ==> path[last + 1..] == path;
    }
  }

  // ----- reconciliation

  /** key.split("/")[1], when there is one and it is not empty. */
  function KeyEnvironment(key: string): Option<string> {
    var parts := Split(key, '/');
    if |parts| > 1 && parts[1] != "" then Some(parts[1]) else None
  }

  lemma SecondSegment(a: string, b: string, rest: string)
    requires '/' !in a && '/' !in b
    ensures |Split(a + "/" + b + "/" + rest, '/')| > 1 && Split(a + "/" + b + "/" + rest, '/')[1] == b
  {
    SplitFree(a, '/');
    AnotherSegment(a, b);
    SplitAt(a + "/" + b, rest, '/');
  }

  /** A key names an environment exactly when the id is its second segment, and not empty. */
  lemma NamesExactlyWhen(key: string, id: string)
    ensures KeyEnvironment(key) == Some(id) <==>
              && id != "" && '/' !in id
              && exists first: string ::
                   '/' !in first
                   && (key == first + "/" + id || exists rest: string :: key == first + "/" + id + "/" + rest)
  {
    if KeyEnvironment(key) == Some(id) { NamedIsSecond(key, id); }
    if '/' !in id {
      forall first: string | '/' !in first && key == first + "/" + id
        ensures |Split(key, '/')| > 1 && Split(key, '/')[1] == id
      {
        SplitFree(first, '/');
        AnotherSegment(first, id);
      }
      forall first: string, rest: string | '/' !in first && key == first + "/" + id + "/" + rest
        ensures |Split(key, '/')| > 1 && Split(key, '/')[1] == id
      {
        SecondSegment(first, id, rest);
      }
    }
  }

  lemma NamedIsSecond(key: string, id: string)
    requires KeyEnvironment(key) == Some(id)
    ensures id != "" && '/' !in id
    ensures exists first: string ::
              '/' !in first
              && (key == first + "/" + id || exists rest: string :: key == first + "/" + id + "/" + rest)
  {
    var parts := Split(key, '/');
    PartsHoldNoSeparator(key, '/');
    JoinSplit(key, '/');
    assert parts == [parts[0]] + parts[1..];
    JoinAppend([parts[0]], parts[1..], '/');
    if |parts| > 2 {
      assert parts[1..] == [id] + parts[2..];
      JoinAppend([id], parts[2..], '/');
      assert key == parts[0] + "/" + id + "/" + Join(parts[2..], '/');
    } else {
      assert parts[1..] == [id];
    }
  }

  /** Whatever lies below an environment's prefix names that environment. */
  lemma KeyNamesEnvironment(environmentId: string, rest: string)
    requires '/' !in environmentId && environmentId != ""
    ensures KeyEnvironment(ROOT + "/" + environmentId + "/" + rest) == Some(environmentId)
  {
    SecondSegment(ROOT, environmentId, rest);
  }

  lemma DocumentPathsNameEnvironment(environmentId: string, id: string, extension: string)
    requires '/' !in environmentId && environmentId != ""
    ensures KeyEnvironment(CompleteStoragePathForDocument(environmentId, id, extension)) == Some(environmentId)
    ensures KeyEnvironment(CompleteStoragePathForThumbnail(environmentId, id)) == Some(environmentId)
    ensures KeyEnvironment(CompleteStoragePathForNoteAttachment(environmentId, id, extension)) == Some(environmentId)
  {
    var front := ROOT + "/" + environmentId + "/";
    KeyNamesEnvironment(environmentId, "documents/" + id + extension);
    assert CompleteStoragePathForDocument(environmentId, id, extension) == front + ("documents/" + id + extension);
    KeyNamesEnvironment(environmentId, "documents/" + id + "-thumbnail.jpg");
    assert CompleteStoragePathForThumbnail(environmentId, id) == front + ("documents/" + id + "-thumbnail.jpg");
    KeyNamesEnvironment(environmentId, "notes/" + id + extension);
    assert CompleteStoragePathForNoteAttachment(environmentId, id, extension) == front + ("notes/" + id + extension);
  }

  lemma SessionPathsNameEnvironment(environmentId: string, sessionId: string, file: SessionFile)
    requires '/' !in environmentId && environmentId != "" && '/' !in sessionId
    ensures KeyEnvironment(PathOf(environmentId, sessionId, file)) == Some(environmentId)
  {
    SessionFileSegments(environmentId, sessionId, FileName(file));
  }

  /** Queues a purge for each environment that some backup key names and no live row does. */
  method Reconcile(keys: seq<string>, liveEnvIds: set<string>) returns (orphans: set<string>, enqueued: nat)
    ensures forall id :: id in orphans <==>
              id !in liveEnvIds && exists key :: key in keys && KeyEnvironment(key) == Some(id)
    ensures enqueued == |orphans|
  {
    var backupEnvIds: set<string> := {};
    for i := 0 to |keys|
      invariant forall id :: id in backupEnvIds <==> exists k :: 0 <= k < i && KeyEnvironment(keys[k]) == Some(id)
    {
      var seg := KeyEnvironment(keys[i]);
      if seg.Some? {
        backupEnvIds := backupEnvIds + {seg.value};
      }
    }
    orphans, enqueued := {}, 0;
    var pending := backupEnvIds;
    while pending != {}
      invariant pending <= backupEnvIds
      invariant forall id :: id in orphans <==> id in backupEnvIds && id !in pending && id !in liveEnvIds
      invariant enqueued == |orphans|
      decreases |pending|
    {
      var id :| id in pending;
      pending := pending - {id};
      if id !in liveEnvIds {
        orphans := orphans + {id};
        enqueued := enqueued + 1;
      }
    }
  }
}
