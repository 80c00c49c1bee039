/**
 * The bytes behind one key.  The application may write a key again, as it does
 * with thumbnails, and a row may name a key whose object is still being written.
 * The job copies a key only while it is not marked, so what it copied once stays.
 */
module BackupFreshness {
  import opened Wrappers

  /** Does a reader see a write only when it is complete, or the file as it is being overwritten? */
  datatype Provider = Atomic | InPlace

  /** What is stored under the key; Torn is what no one write has put there. */
  datatype Content = Missing | Whole(version: nat) | Torn

  datatype Copying = Idle | Reading(content: Content) | Copied

  datatype Cell = Cell(
    source: Content,
    ended: nat,
    writing: nat,
    alone: bool,
    job: Copying,
    dest: Content,
    marked: bool)

  /** A call that fails may have taken effect. */
  datatype Event =
    | WriteBegins
    | WriteEnds
    | WriteFails
    | CopyBegins
    | CopyEnds
    | CopyFails(took: bool)
    | Mark(took: bool)

  const Fresh := Cell(Missing, 0, 0, true, Idle, Missing, false)

  predicate IsWrite(e: Event) {
    e.WriteBegins? || e.WriteEnds? || e.WriteFails?
  }

  /** An unmarked row is selected; the download of a missing object throws. */
  predicate Enabled(c: Cell, e: Event) {
    match e
    case WriteBegins => true
    case WriteEnds => c.writing > 0
    case WriteFails => c.writing > 0
    case CopyBegins => c.job.Idle? && !c.marked && !c.source.Missing?
    case CopyEnds => c.job.Reading?
    case CopyFails(_) => c.job.Reading?
    case Mark(_) => c.job.Copied?
  }

  function Step(p: Provider, c: Cell, e: Event): Cell
    requires Enabled(c, e)
  {
    match e
    case WriteBegins =>
      var begun := c.(writing := c.writing + 1, alone := c.writing == 0);
      if p.InPlace? then begun.(source := Torn, job := if c.job.Reading? then Reading(Torn) else c.job) else begun
    case WriteEnds =>
      c.(ended := c.ended + 1, writing := c.writing - 1,
         source := if p.Atomic? || (c.alone && c.writing == 1) then Whole(c.ended + 1) else Torn)
    case WriteFails => c.(writing := c.writing - 1)
    case CopyBegins => c.(job := Reading(c.source))
    case CopyEnds => c.(dest := c.job.content, job := Copied)
    case CopyFails(took) => c.(dest := if took then c.job.content else c.dest, job := Idle)
    case Mark(took) => c.(marked := c.marked || took, job := Idle)
  }

  function Run(p: Provider, c: Cell, log: seq<Event>): Option<Cell> {
    if log == [] then Some(c)
    else match Run(p, c, log[..|log| - 1])
      case Some(d) => if Enabled(d, log[|log| - 1]) then Some(Step(p, d, log[|log| - 1])) else None
      case None => None
  }

  lemma {:induction false} RunSplits(p: Provider, c: Cell, a: seq<Event>, b: seq<Event>)
    ensures Run(p, c, a + b) == match Run(p, c, a) case Some(d) => Run(p, d, b) case None => None
  {
    if b == [] {
      assert a + b == a;
    } else {
      RunSplits(p, c, a, b[..|b| - 1]);
      assert (a + b)[..|a + b| - 1] == a + b[..|b| - 1];
    }
  }

  // ----- what every run keeps

  /** A whole object is the last write that ended; in place, nobody is writing then. */
  ghost predicate Inv(p: Provider, c: Cell) {
    && (c.source.Whole? ==> c.source.version == c.ended && (p.InPlace? ==> c.writing == 0))
    && (p.Atomic? ==> !c.source.Torn?)
  }

  lemma {:induction false} RunInv(p: Provider, log: seq<Event>)
    requires Run(p, Fresh, log).Some?
    ensures Inv(p, Run(p, Fresh, log).value)
  {
    if log != [] {
      RunInv(p, log[..|log| - 1]);
    }
  }

  // ----- when the object is whole

  /** How many writes are under way. */
  function UnderWay(log: seq<Event>): int {
    if log == [] then 0
    else
      var e := log[|log| - 1];
      UnderWay(log[..|log| - 1])
      + (if e.WriteBegins? then 1 else if e.WriteEnds? || e.WriteFails? then -1 else 0)
  }

  ghost predicate NoWrite(log: seq<Event>, from: nat, to: nat) {
    forall k :: from <= k < to && k < |log| ==> !IsWrite(log[k])
  }

  /** The write that began at i, with no other under way, is the last that anything was heard of. */
  ghost predicate AloneSince(log: seq<Event>, i: nat) {
    i < |log| && log[i] == WriteBegins && UnderWay(log[..i]) == 0 && NoWrite(log, i + 1, |log|)
  }

  /** It began with no other under way and ended before another began, and nothing was written since. */
  ghost predicate WroteAlone(log: seq<Event>, i: nat, j: nat) {
    && i < j < |log| && log[i] == WriteBegins && UnderWay(log[..i]) == 0
    && log[j] == WriteEnds && NoWrite(log, i + 1, j) && NoWrite(log, j + 1, |log|)
  }

  ghost predicate Tracks(p: Provider, log: seq<Event>)
    requires Run(p, Fresh, log).Some?
  {
    var c := Run(p, Fresh, log).value;
    && c.writing == UnderWay(log) && (c.alone ==> c.writing <= 1)
    && (c.writing == 1 && c.alone <==> exists i :: AloneSince(log, i))
    && (p.InPlace? ==> (c.source.Whole? <==> exists i, j :: WroteAlone(log, i, j)))
  }

  lemma AloneNext(before: seq<Event>, e: Event)
    ensures var log := before + [e];
            (exists i :: AloneSince(log, i)) <==>
              if e.WriteBegins? then UnderWay(before) == 0
              else !IsWrite(e) && exists i :: AloneSince(before, i)
  {
    var log := before + [e];
    assert log[..|before|] == before;
    if e.WriteBegins? && UnderWay(before) == 0 { assert AloneSince(log, |before|); }
    if !IsWrite(e) {
      if i: nat :| AloneSince(before, i) {
        assert log[..i] == before[..i];
        assert AloneSince(log, i);
      }
    }
    if i: nat :| AloneSince(log, i) {
      assert log[|before|] == e;
      if i < |before| {
        assert log[..i] == before[..i];
        assert forall k :: 0 <= k < |before| ==> before[k] == log[k];
        assert AloneSince(before, i);
      }
    }
  }

  lemma WroteNext(before: seq<Event>, e: Event)
    ensures var log := before + [e];
            (exists i, j :: WroteAlone(log, i, j)) <==>
              if e.WriteEnds? then exists i :: AloneSince(before, i)
              else !IsWrite(e) && exists i, j :: WroteAlone(before, i, j)
  {
    var log := before + [e];
    assert log[|before|] == e && forall k :: 0 <= k < |before| ==> before[k] == log[k];
    if e.WriteEnds? {
      if i: nat :| AloneSince(before, i) {
        assert log[..i] == before[..i];
        assert WroteAlone(log, i, |before|);
      }
    }
    if !IsWrite(e) {
      if i: nat, j: nat :| WroteAlone(before, i, j) {
        assert log[..i] == before[..i];
        assert WroteAlone(log, i, j);
      }
    }
    if i: nat, j: nat :| WroteAlone(log, i, j) {
      assert log[..i] == before[..i];
      if j < |before| {
        assert WroteAlone(before, i, j);
      } else {
        assert AloneSince(before, i);
      }
    }
  }

  lemma {:induction false} RunTracks(p: Provider, log: seq<Event>)
    requires Run(p, Fresh, log).Some?
    ensures Tracks(p, log)
  {
    if log != [] {
      var before, e := log[..|log| - 1], log[|log| - 1];
      assert log == before + [e];
      RunTracks(p, before);
      RunInv(p, before);
      AloneNext(before, e);
      WroteNext(before, e);
      hide AloneSince, WroteAlone;
    } else {
      assert forall i :: !AloneSince(log, i);
      assert forall i, j :: !WroteAlone(log, i, j);
    }
  }

  /**
   * An object that is written in place is whole exactly when the last writing was that
   * of one write by itself, from its beginning to its end; one that is put in place at
   * once is whole exactly when some write has ended.
   */
  lemma WholeExactlyWhen(p: Provider, log: seq<Event>)
    requires Run(p, Fresh, log).Some?
    ensures p.InPlace? ==> (Run(p, Fresh, log).value.source.Whole? <==> exists i, j :: WroteAlone(log, i, j))
    ensures p.Atomic? ==> (Run(p, Fresh, log).value.source.Whole? <==> WriteEnds in log)
  {
    RunTracks(p, log);
    if p.Atomic? { AtomicWhole(p, log); }
  }

  lemma {:induction false} AtomicWhole(p: Provider, log: seq<Event>)
    requires p.Atomic? && Run(p, Fresh, log).Some?
    ensures Run(p, Fresh, log).value.source.Whole? <==> WriteEnds in log
  {
    if log != [] {
      AtomicWhole(p, log[..|log| - 1]);
      assert log == log[..|log| - 1] + [log[|log| - 1]];
    }
  }

  /** The destination changes only when a copy ends or fails after it took effect, to what that copy had read. */
  lemma DestinationChangesOnly(p: Provider, c: Cell, e: Event)
    requires Enabled(c, e)
    ensures Step(p, c, e).dest == if e.CopyEnds? || e == CopyFails(true) then c.job.content else c.dest
    ensures Step(p, c, e).marked <==> c.marked || e == Mark(true)
  {
  }

  // ----- writes alone

  ghost predicate OnlyWrites(log: seq<Event>) {
    forall i :: 0 <= i < |log| ==> IsWrite(log[i])
  }

  function Ends(log: seq<Event>): nat {
    if log == [] then 0 else Ends(log[..|log| - 1]) + if log[|log| - 1].WriteEnds? then 1 else 0
  }

  /** The copy under way is torn by a write that begins in place. */
  function AfterWrites(p: Provider, job: Copying, log: seq<Event>): Copying {
    if job.Reading? && p.InPlace? && WriteBegins in log then Reading(Torn) else job
  }

  lemma {:induction false} WritesOnly(p: Provider, c: Cell, log: seq<Event>)
    requires Run(p, c, log).Some? && OnlyWrites(log)
    ensures var d := Run(p, c, log).value;
            && d.ended == c.ended + Ends(log) && d.dest == c.dest && d.marked == c.marked
            && d.job == AfterWrites(p, c.job, log)
  {
    if log != [] {
      var before := log[..|log| - 1];
      WritesOnly(p, c, before);
      assert log == before + [log[|log| - 1]];
    }
  }

  /** Behind a mark the job does nothing more about the key. */
  lemma {:induction false} MarkedIsLeft(p: Provider, c: Cell, log: seq<Event>)
    requires Run(p, c, log).Some? && c.marked && c.job.Idle?
    ensures OnlyWrites(log)
  {
    if log != [] {
      var before := log[..|log| - 1];
      MarkedIsLeft(p, c, before);
      WritesOnly(p, c, before);
      assert log == before + [log[|log| - 1]];
    }
  }

  // ----- when the copy is current

  /** The destination holds the last write that ended. */
  predicate Current(c: Cell) {
    c.dest == Whole(c.ended)
  }

  /** The object was whole when the copy began, and in place nobody began to write during the copy. */
  predicate Untorn(p: Provider, at: Cell, during: seq<Event>) {
    at.source.Whole? && (p.InPlace? ==> WriteBegins !in during)
  }

  /** The copy, from where it began to where its row is marked. */
  function Copy(during: seq<Event>, between: seq<Event>): seq<Event> {
    [CopyBegins] + during + [CopyEnds] + between + [Mark(true)]
  }

  lemma OneStep(p: Provider, c: Cell, e: Event)
    ensures Run(p, c, [e]) == if Enabled(c, e) then Some(Step(p, c, e)) else None
  {
    assert [e][..0] == [];
    assert Run(p, c, [e][..0]) == Some(c);
  }

  lemma CopyResult(p: Provider, c: Cell, during: seq<Event>, between: seq<Event>)
    requires Inv(p, c) && OnlyWrites(during) && OnlyWrites(between) && Run(p, c, Copy(during, between)).Some?
    ensures var d := Run(p, c, Copy(during, between)).value;
            && d.marked && d.job.Idle? && d.ended == c.ended + Ends(during) + Ends(between)
            && d.dest == if Untorn(p, c, during) then Whole(c.ended) else Torn
  {
    var log1, log2, log3 := [CopyBegins] + during, [CopyBegins] + during + [CopyEnds],
                            [CopyBegins] + during + [CopyEnds] + between;
    RunSplits(p, c, log3, [Mark(true)]);
    RunSplits(p, c, log2, between);
    RunSplits(p, c, log1, [CopyEnds]);
    RunSplits(p, c, [CopyBegins], during);
    OneStep(p, c, CopyBegins);
    var c1 := Step(p, c, CopyBegins);
    WritesOnly(p, c1, during);
    var c2 := Run(p, c1, during).value;
    OneStep(p, c2, CopyEnds);
    var c3 := Step(p, c2, CopyEnds);
    WritesOnly(p, c3, between);
    OneStep(p, Run(p, c3, between).value, Mark(true));
  }

  /**
   * A marked key's copy is current exactly when the object was whole while it was
   * copied and no write of the key has ended since the copy began.
   */
  lemma CurrentExactlyWhen(p: Provider, before: seq<Event>, during: seq<Event>, between: seq<Event>, after: seq<Event>)
    requires OnlyWrites(during) && OnlyWrites(between)
    requires Run(p, Fresh, before + Copy(during, between) + after).Some?
    ensures Run(p, Fresh, before).Some?
    ensures Current(Run(p, Fresh, before + Copy(during, between) + after).value) <==>
              && Untorn(p, Run(p, Fresh, before).value, during)
              && Ends(during) + Ends(between) + Ends(after) == 0
  {
    RunSplits(p, Fresh, before + Copy(during, between), after);
    RunSplits(p, Fresh, before, Copy(during, between));
    RunInv(p, before);
    var c := Run(p, Fresh, before).value;
    hide Copy, Run;
    CopyResult(p, c, during, between);
    var d := Run(p, c, Copy(during, between)).value;
    MarkedIsLeft(p, d, after);
    WritesOnly(p, d, after);
  }

  // ----- every mark has such a copy in front of it

  lemma {:induction false} ReadingBegan(p: Provider, log: seq<Event>) returns (before: seq<Event>, during: seq<Event>)
    requires Run(p, Fresh, log).Some? && Run(p, Fresh, log).value.job.Reading?
    ensures log == before + [CopyBegins] + during && OnlyWrites(during)
  {
    var front, e := log[..|log| - 1], log[|log| - 1];
    assert log == front + [e];
    if e == CopyBegins {
      before, during := front, [];
      assert log == front + [CopyBegins] + [];
    } else {
      before, during := ReadingBegan(p, front);
      during := during + [e];
      assert log == before + [CopyBegins] + during;
    }
  }

  lemma {:induction false} CopiedBegan(p: Provider, log: seq<Event>)
    returns (before: seq<Event>, during: seq<Event>, between: seq<Event>)
    requires Run(p, Fresh, log).Some? && Run(p, Fresh, log).value.job.Copied?
    ensures log == before + [CopyBegins] + during + [CopyEnds] + between
    ensures OnlyWrites(during) && OnlyWrites(between)
  {
    var front, e := log[..|log| - 1], log[|log| - 1];
    assert log == front + [e];
    if e == CopyEnds {
      before, during := ReadingBegan(p, front);
      between := [];
      assert log == before + [CopyBegins] + during + [CopyEnds] + [];
    } else {
      before, during, between := CopiedBegan(p, front);
      between := between + [e];
      assert log == before + [CopyBegins] + during + [CopyEnds] + between;
    }
  }

  /** So every run that has marked the key is of the form that CurrentExactlyWhen speaks of. */
  lemma {:induction false} MarkedWasCopied(p: Provider, log: seq<Event>)
    returns (before: seq<Event>, during: seq<Event>, between: seq<Event>, after: seq<Event>)
    requires Run(p, Fresh, log).Some? && Run(p, Fresh, log).value.marked
    ensures log == before + Copy(during, between) + after && OnlyWrites(during) && OnlyWrites(between)
  {
    var front, e := log[..|log| - 1], log[|log| - 1];
    assert log == front + [e];
    if Run(p, Fresh, front).value.marked {
      before, during, between, after := MarkedWasCopied(p, front);
      after := after + [e];
      assert log == before + Copy(during, between) + after;
    } else {
      before, during, between := CopiedBegan(p, front);
      after := [];
      assert log == before + Copy(during, between) + after;
    }
  }

  // ----- what is not current stays so

  /** Once marked, a copy that is not current never becomes it: nothing selects the key again. */
  lemma StaleForGood(p: Provider, log: seq<Event>, more: seq<Event>)
    requires Run(p, Fresh, log).Some? && Run(p, Fresh, log).value.marked && Run(p, Fresh, log + more).Some?
    requires !Current(Run(p, Fresh, log).value)
    ensures !Current(Run(p, Fresh, log + more).value)
    ensures Run(p, Fresh, log + more).value.dest == Run(p, Fresh, log).value.dest
  {
    RunSplits(p, Fresh, log, more);
    MarkedIsIdle(p, log);
    var c := Run(p, Fresh, log).value;
    MarkedIsLeft(p, c, more);
    WritesOnly(p, c, more);
  }

  /** The version at the destination is not ahead of the writes. */
  lemma {:induction false} MarkedIsIdle(p: Provider, log: seq<Event>)
    requires Run(p, Fresh, log).Some?
    ensures var c := Run(p, Fresh, log).value;
            && (c.marked ==> c.job.Idle?)
            && (c.dest.Whole? ==> c.dest.version <= c.ended)
            && (c.job.Reading? && c.job.content.Whole? ==> c.job.content.version <= c.ended)
  {
    RunInv(p, log);
    if log != [] {
      RunInv(p, log[..|log| - 1]);
      MarkedIsIdle(p, log[..|log| - 1]);
    }
  }

  /** A thumbnail that is uploaded again after its backup: with either provider the old one stays at the destination. */
  lemma ReplacedThumbnail(p: Provider, log: seq<Event>)
    requires log == [WriteBegins, WriteEnds, CopyBegins, CopyEnds, Mark(true), WriteBegins, WriteEnds]
    ensures Run(p, Fresh, log).Some? && Run(p, Fresh, log).value.marked
    ensures Run(p, Fresh, log).value.dest == Whole(1) && Run(p, Fresh, log).value.source == Whole(2)
  {
    hide Run;
    var write, copy := [WriteBegins, WriteEnds], [CopyBegins, CopyEnds, Mark(true)];
    assert log == write + copy + write;
    RunSplits(p, Fresh, write + copy, write);
    RunSplits(p, Fresh, write, copy);
    var c := OneWrite(p, Fresh);
    var d := OneCopy(p, c);
    var f := OneWrite(p, d);
  }

  lemma OneCopy(p: Provider, c: Cell) returns (d: Cell)
    requires c.job.Idle? && !c.marked && !c.source.Missing?
    ensures d == c.(dest := c.source, marked := true)
    ensures Run(p, c, [CopyBegins, CopyEnds, Mark(true)]) == Some(d)
  {
    ThreeSteps(p, c, CopyBegins, CopyEnds, Mark(true));
    d := c.(dest := c.source, marked := true);
  }

  lemma OneWrite(p: Provider, c: Cell) returns (d: Cell)
    requires c.writing == 0 && !c.job.Reading?
    ensures d == c.(ended := c.ended + 1, alone := true, source := Whole(c.ended + 1))
    ensures Run(p, c, [WriteBegins, WriteEnds]) == Some(d)
  {
    d := c.(ended := c.ended + 1, alone := true, source := Whole(c.ended + 1));
    assert [WriteBegins] + [WriteEnds] == [WriteBegins, WriteEnds];
    RunSplits(p, c, [WriteBegins], [WriteEnds]);
    OneStep(p, c, WriteBegins);
    OneStep(p, Step(p, c, WriteBegins), WriteEnds);
  }

  lemma ThreeSteps(p: Provider, c: Cell, e: Event, f: Event, g: Event)
    requires Enabled(c, e) && Enabled(Step(p, c, e), f) && Enabled(Step(p, Step(p, c, e), f), g)
    ensures Run(p, c, [e, f, g]) == Some(Step(p, Step(p, Step(p, c, e), f), g))
  {
    hide Step, Enabled;
    assert [e] + [f, g] == [e, f, g] && [f] + [g] == [f, g];
    RunSplits(p, c, [e], [f, g]);
    OneStep(p, c, e);
    RunSplits(p, Step(p, c, e), [f], [g]);
    OneStep(p, Step(p, c, e), f);
    OneStep(p, Step(p, Step(p, c, e), f), g);
  }

  /** A file that is copied and marked while it is still being written in place. */
  lemma CopiedWhileStreaming(log: seq<Event>)
    requires log == [WriteBegins, CopyBegins, CopyEnds, Mark(true), WriteEnds]
    ensures Run(InPlace, Fresh, log).Some? && Run(InPlace, Fresh, log).value.marked
    ensures Run(InPlace, Fresh, log).value.dest == Torn && Run(InPlace, Fresh, log).value.source == Whole(1)
  {
    hide Run;
    var p := InPlace;
    var copy := [CopyBegins, CopyEnds, Mark(true)];
    assert log == [WriteBegins] + copy + [WriteEnds];
    RunSplits(p, Fresh, [WriteBegins] + copy, [WriteEnds]);
    RunSplits(p, Fresh, [WriteBegins], copy);
    OneStep(p, Fresh, WriteBegins);
    var c := Step(p, Fresh, WriteBegins);
    var d := OneCopy(p, c);
    OneStep(p, d, WriteEnds);
  }
}
