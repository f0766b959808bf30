/** The copy and move passes of the window application, as methods that
    change the two directories step by step. */
module Mover {

  import opened Sequences
  import opened Wrappers
  import opened FileSystem
  import opened Keywords
  import opened Tallies
  import opened LogFormat
  import opened Classify

  /** How a pass ends: skipped because a path is not a directory, stopped
      by a failing copy call (no log is written), or with its log lines. */
  datatype Outcome = Skipped | Aborted(at: Transfer) | Logged(lines: seq<string>)

  /** What a move pass run from the directories `src0` and `dest0` leaves
      behind. It is never skipped, and both directories end as the
      reference replay of the transfers leaves them. Entries that are not
      regular files stay where they were, the source only loses files, and
      the subfolders stay subfolders. The pass completes exactly when no
      regular file matches two subfolders: the matching files have then left
      the source and arrived in every matching subfolder, and the log counts
      them. Otherwise it stops, with no log, at the first transfer of a file
      that an earlier transfer already moved away: the files transferred
      before it have left the source and reached their subfolders, and
      nothing else has changed. */
  ghost predicate MoveOutcome(srcOrder: seq<string>, src0: map<string, Entry>,
                              destOrder: seq<string>, dest0: map<string, Entry>, operation: string,
                              src: map<string, Entry>, dest: map<string, Entry>, outcome: Outcome)
  {
    var ts := Transfers(srcOrder, src0, destOrder, dest0);
    var r := Replay(Move, src0, dest0, ts);
    && src == r.src && dest == r.dest
    && !outcome.Skipped?
    && SameShape(dest0, dest)
    && (forall x :: x in src ==> x in src0 && src[x] == src0[x])
    && (forall n :: n in src0 && !IsRegularFile(src0, n) ==> n in src && src[n] == src0[n])
    && (outcome.Logged? <==> !exists x, f, g :: f != g && Matched(src0, dest0, x, f) && Matched(src0, dest0, x, g))
    && (outcome.Logged? ==>
          && outcome == Logged(LogLines(TallyOf(KeywordsOf(ts)), operation))
          && (forall x :: IsRegularFile(src0, x) ==> (x in src <==> !exists f :: Matched(src0, dest0, x, f)))
          && Received(src0, dest0, dest))
    && (outcome.Aborted? ==>
          && Matched(src0, dest0, outcome.at.file, outcome.at.folder)
          && (exists g :: g != outcome.at.folder && Matched(src0, dest0, outcome.at.file, g))
          && exists k: nat :: k < |ts| && ts[k] == outcome.at && AbortedAt(src0, dest0, ts, k, r))
  }

  /** The source directory and the destination directory a pass is run on. */
  class FileMover {
    var src: Place
    var dest: Place

    constructor (src: Place, dest: Place)
      ensures this.src == src && this.dest == dest
    {
      this.src := src;
      this.dest := dest;
    }

    /** The copy pass: skipped unless both paths are directories; it never
        stops early, leaves the source directory as it was, and every
        subfolder ends up holding exactly its old files plus the regular
        source files that match its keyword. */
    method CopyFiles(srcOrder: seq<string>, destOrder: seq<string>) returns (outcome: Outcome)
      requires src.Directory? ==> IsListing(srcOrder, src.entries)
      requires dest.Directory? ==> IsListing(destOrder, dest.entries)
      modifies this
      ensures !(old(src).Directory? && old(dest).Directory?) ==>
        outcome == Skipped && src == old(src) && dest == old(dest)
      ensures old(src).Directory? && old(dest).Directory? ==>
        var ts := Transfers(srcOrder, old(src).entries, destOrder, old(dest).entries);
        && src == old(src)
        && dest.Directory? && SameShape(old(dest).entries, dest.entries)
        && Received(old(src).entries, old(dest).entries, dest.entries)
        && outcome == Logged(LogLines(TallyOf(KeywordsOf(ts)), CopyLabel))
    {
      if !(src.Directory? && dest.Directory?) {
        return Skipped;
      }
      CopyPassEffect(srcOrder, src.entries, destOrder, dest.entries);
      outcome := Pass(Copy, CopyLabel, srcOrder, destOrder);
    }

    /** The move pass: skipped unless both paths are directories, and
        otherwise ending as `MoveOutcome` describes. */
    method MoveFiles(srcOrder: seq<string>, destOrder: seq<string>) returns (outcome: Outcome)
      requires src.Directory? ==> IsListing(srcOrder, src.entries)
      requires dest.Directory? ==> IsListing(destOrder, dest.entries)
      modifies this
      ensures !(old(src).Directory? && old(dest).Directory?) ==>
        outcome == Skipped && src == old(src) && dest == old(dest)
      ensures old(src).Directory? && old(dest).Directory? ==>
        src.Directory? && dest.Directory?
        && MoveOutcome(srcOrder, old(src).entries, destOrder, old(dest).entries, MoveLabel,
                       src.entries, dest.entries, outcome)
    {
      if !(src.Directory? && dest.Directory?) {
        return Skipped;
      }
      MovePassCompletes(srcOrder, src.entries, destOrder, dest.entries);
      MovePassFrame(srcOrder, src.entries, destOrder, dest.entries);
      MovePassEffect(srcOrder, src.entries, destOrder, dest.entries);
      MovePassAbort(srcOrder, src.entries, destOrder, dest.entries);
      outcome := Pass(Move, MoveLabel, srcOrder, destOrder);
    }

    /** The classification loops shared by both passes: for each regular
        file in source listing order, for each subfolder in destination
        listing order, transfer the file when its name contains the
        subfolder's keyword, and count the transfer under that keyword. */
    method Pass(mode: Mode, operation: string, srcOrder: seq<string>, destOrder: seq<string>)
      returns (outcome: Outcome)
      requires src.Directory? && dest.Directory?
      requires IsListing(srcOrder, src.entries) && IsListing(destOrder, dest.entries)
      modifies this
      ensures var ts := Transfers(srcOrder, old(src).entries, destOrder, old(dest).entries);
        var r := Replay(mode, old(src).entries, old(dest).entries, ts);
        && src == Directory(r.src) && dest == Directory(r.dest)
        && (r.failed.Some? ==> outcome == Aborted(r.failed.value))
        && (r.failed.None? ==> outcome == Logged(LogLines(TallyOf(KeywordsOf(ts)), operation)))
    {
      ghost var src0, dest0 := src.entries, dest.entries;
      var tally := Empty;
      assert KeywordsOf(TransfersUpTo(srcOrder, src0, destOrder, dest0, 0)) == [];
      var i := 0;
      while i < |srcOrder|
        invariant i <= |srcOrder|
        invariant src.Directory? && dest.Directory?
        invariant Replay(mode, src0, dest0, TransfersUpTo(srcOrder, src0, destOrder, dest0, i))
          == Run(src.entries, dest.entries, None)
        invariant tally == TallyOf(KeywordsOf(TransfersUpTo(srcOrder, src0, destOrder, dest0, i)))
      {
        var name := srcOrder[i];
        ghost var done := TransfersUpTo(srcOrder, src0, destOrder, dest0, i);
        TransfersSpec(srcOrder, src0, destOrder, dest0, i);
        NotYetTransferred(mode, srcOrder, src0, destOrder, dest0, i, done);
        if !IsRegularFile(src0, name) {
          assert TransfersUpTo(srcOrder, src0, destOrder, dest0, i + 1) == done;
        }
        if name in src.entries && src.entries[name].File? {
          var failed;
          failed, tally := ClassifyFile(mode, name, destOrder, tally, src0, dest0, done);
          if failed.Some? {
            InnerPrefix(srcOrder, src0, destOrder, dest0, i, |destOrder|);
            ReplayStops(mode, src0, dest0, done + Matches(name, destOrder, dest0),
                        Transfers(srcOrder, src0, destOrder, dest0));
            return Aborted(failed.value);
          }
        }
        i := i + 1;
      }
      return Logged(LogLines(tally, operation));
    }

    /** The inner loop for the regular file `name`, after the transfers
        `before`: each subfolder whose keyword the name contains receives
        the file. Stops at the first copy call that fails. */
    method ClassifyFile(mode: Mode, name: string, destOrder: seq<string>, tally0: Tally,
                        ghost src0: map<string, Entry>, ghost dest0: map<string, Entry>,
                        ghost before: seq<Transfer>)
      returns (failed: Option<Transfer>, tally: Tally)
      requires src.Directory? && dest.Directory?
      requires Replay(mode, src0, dest0, before) == Run(src.entries, dest.entries, None)
      requires tally0 == TallyOf(KeywordsOf(before))
      modifies this
      ensures src.Directory? && dest.Directory?
      ensures var ts := before + Matches(name, destOrder, dest0);
        && Replay(mode, src0, dest0, ts) == Run(src.entries, dest.entries, failed)
        && (failed.None? ==> tally == TallyOf(KeywordsOf(ts)))
    {
      tally := tally0;
      var j := 0;
      ghost var done := before;
      assert before + MatchesUpTo(name, destOrder, dest0, 0) == before;
      while j < |destOrder|
        invariant j <= |destOrder|
        invariant src.Directory? && dest.Directory?
        invariant done == before + MatchesUpTo(name, destOrder, dest0, j)
        invariant Replay(mode, src0, dest0, done) == Run(src.entries, dest.entries, None)
        invariant tally == TallyOf(KeywordsOf(done))
      {
        MatchesStep(before, name, destOrder, dest0, j);
        failed, tally := VisitFolder(mode, name, destOrder[j], tally, src0, dest0, done);
        done := before + MatchesUpTo(name, destOrder, dest0, j + 1);
        if failed.Some? {
          MatchesStop(mode, src0, dest0, before, name, destOrder, dest0, j + 1);
          return;
        }
        j := j + 1;
      }
      return None, tally;
    }

    /** One step of the inner loop: when `folder` is a subfolder whose
        keyword the file name contains, the file is transferred into it and
        the transfer is counted under that keyword. */
    method VisitFolder(mode: Mode, name: string, folder: string, tally0: Tally,
                       ghost src0: map<string, Entry>, ghost dest0: map<string, Entry>,
                       ghost done: seq<Transfer>)
      returns (failed: Option<Transfer>, tally: Tally)
      requires src.Directory? && dest.Directory?
      requires Replay(mode, src0, dest0, done) == Run(src.entries, dest.entries, None)
      requires tally0 == TallyOf(KeywordsOf(done))
      modifies this
      ensures src.Directory? && dest.Directory?
      ensures var ts := done + (if IsSubfolder(dest0, folder) && Contains(name, Keyword(folder))
                                then [Transfer(name, folder)] else []);
        && Replay(mode, src0, dest0, ts) == Run(src.entries, dest.entries, failed)
        && (failed.None? ==> tally == TallyOf(KeywordsOf(ts)))
    {
      ReplayFrame(mode, src0, dest0, done);
      assert IsSubfolder(dest.entries, folder) == IsSubfolder(dest0, folder);
      assert done + [] == done;
      tally := tally0;
      if folder in dest.entries && dest.entries[folder].Folder? {
        var keyword := Keyword(folder);
        if Contains(name, keyword) {
          var t := Transfer(name, folder);
          ReplaySnoc(mode, src0, dest0, done, t);
          var ok := TransferFile(mode, t);
          if !ok {
            return Some(t), tally;
          }
          KeywordsOfSnoc(done, t);
          TallyOfSnoc(KeywordsOf(done), keyword);
          tally := Bump(tally, keyword);
        }
      }
      return None, tally;
    }

    /** One copy call into the subfolder (in move mode, the original is
        removed after it). It fails, changing nothing, when the source path
        no longer holds a regular file. */
    method TransferFile(mode: Mode, t: Transfer) returns (ok: bool)
      requires src.Directory? && dest.Directory?
      modifies this
      ensures src.Directory? && dest.Directory?
      ensures Step(mode, old(src).entries, old(dest).entries, t)
        == Run(src.entries, dest.entries, if ok then None else Some(t))
    {
      if !(t.file in src.entries && src.entries[t.file].File?) {
        return false;
      }
      var data := src.entries[t.file].data;
      if t.folder in dest.entries && dest.entries[t.folder].Folder? {
        var files := dest.entries[t.folder].files;
        dest := Directory(dest.entries[t.folder := Folder(files[t.file := data])]);
      }
      if mode == Move {
        src := Directory(src.entries - {t.file});
      }
      return true;
    }
  }
}
