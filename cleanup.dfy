/**
  What `cleanup_all` does to the disk. The disk is a map from path to the
  kind of node found there. Each journal line is handled on its own: a line
  that cannot be split, a path that does not exist, and a deletion that would
  raise (`rmtree` on a plain file, `unlink` on a directory) leave the disk as
  it was and processing goes on with the next line.
*/
module Cleanup {
  import opened Wrappers
  import opened Journal

  datatype Node = File | Directory

  type Disk = map<string, Node>

  /** `p` lies strictly inside directory `d`: `d + "/"` is a prefix of `p`. */
  predicate Beneath(p: string, d: string) {
    |d| < |p| && p[..|d|] == d && p[|d|] == '/'
  }

  /** The paths a successful deletion for `e` removes: `rmtree` for `DIR`, `unlink` otherwise. */
  predicate Covers(e: Entry, p: string) {
    p == e.path || (e.kind == DirKind && Beneath(p, e.path))
  }

  /** The deletion for `e` succeeds on node `n`: `rmtree` needs a directory, `unlink` a file. */
  predicate Targets(e: Entry, n: Node) {
    if e.kind == DirKind then n == Directory else n == File
  }

  /** `small` is `big` with some paths removed and nothing else changed. */
  ghost predicate SubDisk(small: Disk, big: Disk) {
    forall p :: p in small ==> p in big && small[p] == big[p]
  }

  /** The disk after a successful deletion for `e`. */
  function Without(disk: Disk, e: Entry): Disk {
    map p | p in disk && !Covers(e, p) :: disk[p]
  }

  /**
    The deletion `line` asks for would go through on `disk`: the line splits,
    its path exists, and the node there is of the kind the deletion needs.
  */
  predicate Applies(line: string, disk: Disk) {
    match ParseJournalLine(line)
    case None => false
    case Some(e) => e.path in disk && Targets(e, disk[e.path])
  }

  /**
    One iteration of the loop in `cleanup_all`: a line that cannot be split,
    names a missing path, or whose deletion would raise leaves the disk as it
    was; otherwise it removes only what the line's deletion covers. Either
    way the line is done with afterwards (its path is gone, or its deletion
    fails there).
  */
  function ApplyLine(disk: Disk, line: string): (r: Disk)
    ensures SubDisk(r, disk)
    ensures !Applies(line, disk) ==> r == disk
    ensures forall p :: p in disk && p !in r ==> Applies(line, disk) && Removes(line, p)
    ensures Settled(line, r)
  {
    match ParseJournalLine(line)
    case None => disk
    case Some(e) =>
      if e.path in disk && Targets(e, disk[e.path]) then Without(disk, e) else disk
  }

  /** The disk after the loop has handled `lines` in file order. */
  function ApplyJournal(disk: Disk, lines: seq<string>): (r: Disk)
    ensures SubDisk(r, disk)
    decreases |lines|
  {
    if lines == [] then disk
    else ApplyLine(ApplyJournal(disk, lines[..|lines| - 1]), lines[|lines| - 1])
  }

  /** The loop's step: handling one more line of the journal. */
  lemma ApplyJournalStep(disk: Disk, lines: seq<string>, i: nat)
    requires i < |lines|
    ensures ApplyJournal(disk, lines[..i + 1]) == ApplyLine(ApplyJournal(disk, lines[..i]), lines[i])
  {
    assert lines[..i + 1][..i] == lines[..i];
  }

  /** Handling the lines of `a` and then those of `b` is handling `a + b`. */
  lemma {:induction false} ApplyJournalAppend(disk: Disk, a: seq<string>, b: seq<string>)
    ensures ApplyJournal(disk, a + b) == ApplyJournal(ApplyJournal(disk, a), b)
    decreases |b|
  {
    if b == [] {
      assert a + b == a;
    } else {
      var ab, init, last := a + b, b[..|b| - 1], b[|b| - 1];
      assert ab[..|ab| - 1] == a + init;
      assert ab[|ab| - 1] == last;
      ApplyJournalAppend(disk, a, init);
      calc {
        ApplyJournal(disk, ab);
        ApplyLine(ApplyJournal(disk, a + init), last);
        ApplyLine(ApplyJournal(ApplyJournal(disk, a), init), last);
        ApplyJournal(ApplyJournal(disk, a), b);
      }
    }
  }

  /** Whether `line` names a deletion that covers `p`. */
  predicate Removes(line: string, p: string) {
    ParseJournalLine(line).Some? && Covers(ParseJournalLine(line).value, p)
  }

  /**
    Nothing disappears that the journal does not name: every removed path is
    a journal path or lies beneath the path of a `DIR` line, and that line's
    deletion goes through on the original disk (its path exists there and
    has the kind the deletion needs).
  */
  lemma {:induction false} OnlyJournalPathsRemoved(disk: Disk, lines: seq<string>)
    ensures forall p :: p in disk && p !in ApplyJournal(disk, lines) ==>
      exists l :: l in lines && Applies(l, disk) && Removes(l, p)
    decreases |lines|
  {
    if lines != [] {
      var init := lines[..|lines| - 1];
      var last := lines[|lines| - 1];
      var mid := ApplyJournal(disk, init);
      OnlyJournalPathsRemoved(disk, init);
      forall p | p in disk && p !in ApplyJournal(disk, lines)
        ensures exists l :: l in lines && Applies(l, disk) && Removes(l, p)
      {
        if p in mid {
          assert Applies(last, mid) && Removes(last, p);
          assert Applies(last, disk);
          assert last in lines;
        } else {
          var l :| l in init && Applies(l, disk) && Removes(l, p);
          assert l in lines;
        }
      }
    }
  }

  /** If `line` can be parsed and its path is still on `disk`, its deletion would fail there. */
  predicate Settled(line: string, disk: Disk) {
    match ParseJournalLine(line)
    case None => true
    case Some(e) => e.path in disk ==> !Targets(e, disk[e.path])
  }

  /**
    Every well-formed journal line is done with: if its path is still there,
    the node is of the kind its deletion fails on (a file named by `DIR`, a
    directory named by any other kind).
  */
  lemma {:induction false} JournalSettled(disk: Disk, lines: seq<string>)
    ensures forall l :: l in lines ==> Settled(l, ApplyJournal(disk, lines))
    decreases |lines|
  {
    if lines != [] {
      var init := lines[..|lines| - 1];
      var last := lines[|lines| - 1];
      var mid := ApplyJournal(disk, init);
      var r := ApplyJournal(disk, lines);
      JournalSettled(disk, init);
      forall l | l in lines && ParseJournalLine(l).Some? && ParseJournalLine(l).value.path in r
        ensures Settled(l, r)
      {
        var e := ParseJournalLine(l).value;
        assert e.path in mid && r[e.path] == mid[e.path];
        if l != last {
          assert l in init by {
            var k :| 0 <= k < |lines| && lines[k] == l;
            assert k < |lines| - 1;
            assert init[k] == l;
          }
        }
      }
    }
  }

  /** A line meets nothing left to delete on a disk already past it. */
  lemma ApplyLineStable(g: Disk, disk: Disk, line: string)
    requires SubDisk(g, disk)
    requires SubDisk(g, ApplyLine(disk, line))
    ensures ApplyLine(g, line) == g
  {
  }

  /**
    Replaying a journal on a disk it has already been applied to (or on any
    part of such a disk) changes nothing.
  */
  lemma {:induction false} JournalReplay(g: Disk, disk: Disk, lines: seq<string>)
    requires SubDisk(g, ApplyJournal(disk, lines))
    ensures ApplyJournal(g, lines) == g
    decreases |lines|
  {
    if lines != [] {
      var init := lines[..|lines| - 1];
      var mid := ApplyJournal(disk, init);
      assert SubDisk(ApplyJournal(disk, lines), mid);
      JournalReplay(g, disk, init);
      ApplyLineStable(g, mid, lines[|lines| - 1]);
    }
  }

  /**
    The journal is deleted only after the loop, so a cleanup cut short after
    any number `k` of lines leaves the journal in place; running the cleanup
    again from the start reaches the same disk as an uninterrupted run.
  */
  lemma ResumeCleanup(disk: Disk, lines: seq<string>, k: nat)
    requires k <= |lines|
    ensures ApplyJournal(ApplyJournal(disk, lines[..k]), lines) == ApplyJournal(disk, lines)
  {
    var a, b := lines[..k], lines[k..];
    var partial := ApplyJournal(disk, a);
    assert lines == a + b;
    ApplyJournalAppend(partial, a, b);
    JournalReplay(partial, disk, a);
    ApplyJournalAppend(disk, a, b);
  }

  /** Lying beneath a directory that lies beneath another is lying beneath that other. */
  lemma BeneathTransitive(p: string, d: string, e: string)
    requires Beneath(p, d) && Beneath(d, e)
    ensures Beneath(p, e)
  {
  }

  /** Whenever a directory of the original disk is gone, so is everything beneath it. */
  lemma {:induction false} GoneDirectoryEmptied(disk: Disk, lines: seq<string>, d: string, p: string)
    requires d in disk && disk[d] == Directory
    requires d !in ApplyJournal(disk, lines)
    requires Beneath(p, d)
    ensures p !in ApplyJournal(disk, lines)
    decreases |lines|
  {
    if lines != [] {
      var last := lines[|lines| - 1];
      var mid := ApplyJournal(disk, lines[..|lines| - 1]);
      if d !in mid {
        GoneDirectoryEmptied(disk, lines[..|lines| - 1], d, p);
      } else {
        var e := ParseJournalLine(last).value;
        assert Covers(e, d);
        if d != e.path {
          BeneathTransitive(p, d, e.path);
        }
        assert Covers(e, p);
      }
    }
  }

  /**
    A `DIR` line naming a directory of the original disk leaves neither that
    directory nor anything beneath it, wherever the line sits in the journal.
  */
  lemma DirContentsGone(disk: Disk, lines: seq<string>, l: string, d: string, p: string)
    requires l in lines && ParseJournalLine(l) == Some(Entry(DirKind, d))
    requires d in disk && disk[d] == Directory
    requires Beneath(p, d)
    ensures d !in ApplyJournal(disk, lines)
    ensures p !in ApplyJournal(disk, lines)
  {
    JournalSettled(disk, lines);
    assert Settled(l, ApplyJournal(disk, lines));
    GoneDirectoryEmptied(disk, lines, d, p);
  }

  /**
    The two lines `save_state` writes do their job: once the extraction
    directory exists, it and the archive (when that is a file) are removed, with all
    that lies beneath the directory, and nothing else is touched.
  */
  lemma SavedArtifactsRemoved(disk: Disk, zip: string, dir: string)
    requires zip in disk ==> disk[zip] == File
    requires dir in disk && disk[dir] == Directory
    ensures ApplyJournal(disk, SavedLines(zip, dir)) ==
      map p | p in disk && p != zip && p != dir && !Beneath(p, dir) :: disk[p]
  {
    var lines := SavedLines(zip, dir);
    var zipEntry, dirEntry := Entry(ZipKind, zip), Entry(DirKind, dir);
    assert lines[..1][..0] == [] && lines[..1][0] == lines[0];
    assert ApplyJournal(disk, lines[..1]) == ApplyLine(disk, lines[0]);
    var afterZip := ApplyLine(disk, lines[0]);
    assert afterZip == if zip in disk then Without(disk, zipEntry) else disk;
    assert forall p :: p in afterZip <==> p in disk && p != zip;
    var r := ApplyLine(afterZip, lines[1]);
    assert r == if dir in afterZip then Without(afterZip, dirEntry) else afterZip;
    assert ApplyJournal(disk, lines) == r;
    var expected := map p | p in disk && p != zip && p != dir && !Beneath(p, dir) :: disk[p];
    assert forall p :: p in r <==> p in expected;
  }
}
