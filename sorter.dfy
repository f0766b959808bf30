/** The stand-alone script: one move pass from the fixed folder `in` into
    the subfolders of `out`, logged with its own wording. */
module Sorter {

  import opened FileSystem
  import opened Classify
  import opened Mover

  /** The operation word of the script's log lines. */
  const MovedLabel: string := "перемещено"

  /** The script's pass. Both folders exist by the time it runs, since the
      script creates them first; it behaves as the application's move pass
      and differs only in the word its log lines use. */
  method SortInbox(folders: FileMover, inOrder: seq<string>, outOrder: seq<string>)
    returns (outcome: Outcome)
    requires folders.src.Directory? && folders.dest.Directory?
    requires IsListing(inOrder, folders.src.entries) && IsListing(outOrder, folders.dest.entries)
    modifies folders
    ensures folders.src.Directory? && folders.dest.Directory?
    ensures MoveOutcome(inOrder, old(folders.src).entries, outOrder, old(folders.dest).entries, MovedLabel,
                        folders.src.entries, folders.dest.entries, outcome)
  {
    var src0, dest0 := folders.src.entries, folders.dest.entries;
    MovePassCompletes(inOrder, src0, outOrder, dest0);
    MovePassFrame(inOrder, src0, outOrder, dest0);
    MovePassEffect(inOrder, src0, outOrder, dest0);
    MovePassAbort(inOrder, src0, outOrder, dest0);
    outcome := folders.Pass(Move, MovedLabel, inOrder, outOrder);
  }
}
