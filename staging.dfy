/**
  The plugin's commands as transitions of its state directory: `/ss` staging
  (the part after the archive arrives), `/se` review, `/sd` commit, `/sc`
  discard, and the `cleanup_all` they share. Each store holds the lines
  `splitlines()` gives for its file, or is absent when the file does not exist.
  `SaveState`, `Stage`, `Review` and `Commit` state that the text they write
  reads back as the stored lines whenever those lines hold no line break.
*/
module Staging {
  import opened Wrappers
  import opened LineText
  import opened Journal
  import opened Cleanup
  import opened History

  /** One of the plugin's text files: missing, or present with its lines. */
  datatype Store = Absent | Present(lines: seq<string>) {
    /** What the plugin reads from the file; a missing file reads as no lines. */
    function Lines(): seq<string> {
      match this
      case Absent => []
      case Present(lines) => lines
    }
  }

  /** The state directory (`selections.txt`, `state.txt`, `history.txt`) and the disk around it. */
  class StateDir {
    /** `selections.txt`: the staged lines. */
    var selections: Store
    /** `state.txt`: the cleanup journal. */
    var journal: Store
    /** `history.txt`: the capped, timestamped log of committed lines. */
    var history: Store
    /** Archives and extraction directories on disk, by path. */
    var disk: Disk
    /** Every line sent to the channel with `say`, in order. */
    ghost var sent: seq<string>

    constructor (selections: Store, journal: Store, history: Store, disk: Disk)
      ensures this.selections == selections && this.journal == journal
      ensures this.history == history && this.disk == disk
      ensures sent == []
    {
      this.selections := selections;
      this.journal := journal;
      this.history := history;
      this.disk := disk;
      sent := [];
    }

    /** `save_state`: append the archive line and then the directory line to the journal. */
    method SaveState(zip: string, dir: string)
      modifies this
      ensures journal == Present(old(journal.Lines()) + SavedLines(zip, dir))
      ensures (forall l | l in journal.lines :: BreakFree(l)) ==>
        SplitLines(Terminated(old(journal.Lines())) + Terminated(SavedLines(zip, dir))) == journal.lines
      ensures selections == old(selections) && history == old(history)
      ensures disk == old(disk) && sent == old(sent)
    {
      var before := journal.Lines();
      journal := Present(before + SavedLines(zip, dir));
      if forall l | l in journal.lines :: BreakFree(l) {
        AppendReadsBack(before, SavedLines(zip, dir));
      }
    }

    /**
      `launch_fzf` once the archive is extracted: drop the listing's six
      header lines; with nothing left, stop before anything is written.
      Otherwise append the picker's lines to the selections (creating the
      file even when nothing was picked) and journal the archive and its
      directory when both are known.
    */
    method Stage(listing: string, picked: seq<string>, zip: Option<string>, dir: Option<string>)
      returns (staged: bool)
      modifies this
      ensures staged <==> SkipHeader(SplitLines(listing)) != []
      ensures selections == if staged then Present(old(selections.Lines()) + picked) else old(selections)
      ensures staged && (forall l | l in selections.lines :: BreakFree(l)) ==>
        SplitLines(Terminated(old(selections.Lines())) + Terminated(picked)) == selections.lines
      ensures journal ==
        if staged && zip.Some? && dir.Some?
        then Present(old(journal.Lines()) + SavedLines(zip.value, dir.value))
        else old(journal)
      ensures staged && zip.Some? && dir.Some? && (forall l | l in journal.lines :: BreakFree(l)) ==>
        SplitLines(Terminated(old(journal.Lines())) + Terminated(SavedLines(zip.value, dir.value))) == journal.lines
      ensures history == old(history) && disk == old(disk) && sent == old(sent)
    {
      var candidates := SkipHeader(SplitLines(listing));
      if candidates == [] {
        return false;
      }
      var before := selections.Lines();
      selections := Present(before + picked);
      if forall l | l in selections.lines :: BreakFree(l) {
        AppendReadsBack(before, picked);
      }
      if zip.Some? && dir.Some? {
        SaveState(zip.value, dir.value);
      }
      staged := true;
    }

    /**
      `/se`: with no staged lines nothing happens. Otherwise the picker's
      output file, when it exists and holds at least one line, replaces the
      selections wholesale; an empty or missing output changes nothing.
    */
    method Review(output: Option<string>) returns (updated: bool)
      modifies this
      ensures updated <==>
        old(selections.Lines()) != [] && output.Some? && SplitLines(output.value) != []
      ensures selections == if updated then Present(SplitLines(output.value)) else old(selections)
      ensures updated ==> SplitLines(WriteText(selections.lines)) == selections.lines
      ensures journal == old(journal) && history == old(history)
      ensures disk == old(disk) && sent == old(sent)
    {
      updated := false;
      if selections.Lines() == [] {
        return;
      }
      if output.Some? {
        var chosen := SplitLines(output.value);
        if chosen != [] {
          WriteReadsBack(chosen);
          selections := Present(chosen);
          updated := true;
        }
      }
    }

    /**
      The history update of `send_worker`: the committed lines, stamped and
      newest first, go in front of the old log, capped; the rewritten file
      reads back as that log whenever its lines hold no line break.
    */
    method WriteHistory(timestamp: string, staged: seq<string>)
      requires staged != []
      modifies this`history
      ensures history == Present(CombineHistory(timestamp, staged, old(history.Lines())))
      ensures (forall l | l in history.lines :: BreakFree(l)) ==>
        SplitLines(WriteText(history.lines)) == history.lines
    {
      var combined := CombineHistory(timestamp, staged, history.Lines());
      if forall l | l in combined :: BreakFree(l) {
        WriteReadsBack(combined);
      }
      history := Present(combined);
    }

    /** The send loop of `send_worker`: `say` each line in file order. */
    method SendAll(lines: seq<string>)
      modifies this`sent
      ensures sent == old(sent) + lines
    {
      for i := 0 to |lines|
        invariant sent == old(sent) + lines[..i]
      {
        sent := sent + [lines[i]];
        assert lines[..i + 1] == lines[..i] + [lines[i]];
      }
      assert lines[..|lines|] == lines;
    }

    /**
      `cleanup_all`: handle every journal line in order, then delete the
      selections file and the journal, whether or not they existed.
    */
    method CleanupAll()
      modifies this
      ensures disk == ApplyJournal(old(disk), old(journal.Lines()))
      ensures selections == Absent && journal == Absent
      ensures history == old(history) && sent == old(sent)
    {
      var lines := journal.Lines();
      var d := disk;
      for i := 0 to |lines|
        invariant d == ApplyJournal(disk, lines[..i])
        modifies {}
      {
        var line := lines[i];
        ghost var before := d;
        match ParseJournalLine(line) {
          case None =>
          case Some(e) =>
            if e.path in d {
              if e.kind == DirKind {
                if d[e.path] == Directory {
                  d := Without(d, e);
                }
              } else if d[e.path] == File {
                d := Without(d, e);
              }
            }
        }
        assert d == ApplyLine(before, line);
        ApplyJournalStep(disk, lines, i);
      }
      assert lines[..|lines|] == lines;
      disk := d;
      selections := Absent;
      journal := Absent;
    }

    /**
      `/sd` and its worker: with no staged lines nothing happens at all.
      Otherwise the history gains the staged lines, each line is sent in file
      order, and the cleanup runs.
    */
    method Commit(timestamp: string) returns (committed: bool)
      modifies this
      ensures committed <==> old(selections.Lines()) != []
      ensures !committed ==>
        selections == old(selections) && journal == old(journal) &&
        history == old(history) && disk == old(disk) && sent == old(sent)
      ensures committed ==>
        history == Present(CombineHistory(timestamp, old(selections.Lines()), old(history.Lines()))) &&
        sent == old(sent) + old(selections.Lines()) &&
        disk == ApplyJournal(old(disk), old(journal.Lines())) &&
        selections == Absent && journal == Absent
      ensures committed && (forall l | l in history.lines :: BreakFree(l)) ==>
        SplitLines(WriteText(history.lines)) == history.lines
    {
      var staged := selections.Lines();
      if staged == [] {
        return false;
      }
      WriteHistory(timestamp, staged);
      SendAll(staged);
      CleanupAll();
      committed := true;
    }

    /** `/sc`: exactly the cleanup, nothing sent and no history written. */
    method Discard()
      modifies this
      ensures disk == ApplyJournal(old(disk), old(journal.Lines()))
      ensures selections == Absent && journal == Absent
      ensures history == old(history) && sent == old(sent)
    {
      CleanupAll();
    }
  }

  /**
    Running the cleanup a second time (a second `/sc`, or `/sc` after `/sd`)
    ends in the same state as running it once.
  */
  method CleanupTwice(s: StateDir)
    modifies s
    ensures s.disk == ApplyJournal(old(s.disk), old(s.journal.Lines()))
    ensures s.selections == Absent && s.journal == Absent
    ensures s.history == old(s.history) && s.sent == old(s.sent)
  {
    s.CleanupAll();
    s.CleanupAll();
  }

  /**
    A search whose listing offers one book after its six header lines, with
    the picker choosing that book: the book is staged and the archive and
    extraction directory are journalled.
  */
  method StageOneBook(header: seq<string>, book: string, zip: string, dir: string, disk: Disk)
    returns (s: StateDir)
    requires |header| == HeaderLines
    requires forall l | l in header :: BreakFree(l)
    requires BreakFree(book)
    ensures fresh(s)
    ensures s.selections == Present([book]) && s.journal == Present(SavedLines(zip, dir))
    ensures s.history == Absent && s.disk == disk && s.sent == []
  {
    var listing := Terminated(header) + Terminated([book]);
    assert SkipHeader(SplitLines(listing)) == [book] by {
      HeaderSkipped(header, Terminated([book]));
      SplitAfterTerminated([book], "");
      assert Terminated([book]) + "" == Terminated([book]);
    }
    s := new StateDir(Absent, Absent, Absent, disk);
    var staged := s.Stage(listing, [book], Some(zip), Some(dir));
    assert staged;
  }

  /**
    Committing that staged book: it is logged and sent once, the stores are
    cleared, and the archive and the directory with everything in it are
    gone while the rest of the disk stays.
  */
  method StageThenCommit(header: seq<string>, book: string, timestamp: string,
                         zip: string, dir: string, disk: Disk)
    requires |header| == HeaderLines
    requires forall l | l in header :: BreakFree(l)
    requires BreakFree(book)
    requires zip in disk && disk[zip] == File
    requires dir in disk && disk[dir] == Directory
  {
    var s := StageOneBook(header, book, zip, dir, disk);
    var committed := s.Commit(timestamp);
    assert committed;
    assert s.history.lines == [StampLine(timestamp, book)] by {
      var h := s.history.lines;
      assert |h| == 1 && h[0] == StampLine(timestamp, book);
    }
    assert s.sent == [book];
    assert s.selections == Absent && s.journal == Absent;
    SavedArtifactsRemoved(disk, zip, dir);
    assert zip !in s.disk && dir !in s.disk;
    assert forall p :: p in s.disk <==> p in disk && p != zip && p != dir && !Beneath(p, dir);
  }
}
