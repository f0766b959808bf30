/** Reference definition of one classification pass, as pure functions:
    the ordered list of (file, subfolder) matches computed from the state
    at the start, and the replay of those transfers against the
    directories, in copy or in move mode. */
module Classify {

  import opened Sequences
  import opened Wrappers
  import opened FileSystem
  import opened Keywords

  datatype Mode = Copy | Move

  /** Put the file `file` of the source directory into subfolder `folder`. */
  datatype Transfer = Transfer(file: string, folder: string)

  /** Regular file `x` of `src` goes into subfolder `f` of `dest`. */
  ghost predicate Matched(src: map<string, Entry>, dest: map<string, Entry>, x: string, f: string)
  {
    IsRegularFile(src, x) && IsSubfolder(dest, f) && Contains(x, Keyword(f))
  }

  /** The inner loop for one file, over the first `j` names of the
      destination listing: the subfolders, in listing order, whose keyword
      the name `x` contains. */
  function MatchesUpTo(x: string, destOrder: seq<string>, dest: map<string, Entry>, j: nat): seq<Transfer>
    requires j <= |destOrder|
  {
    if j == 0 then []
    else
      var f := destOrder[j - 1];
      MatchesUpTo(x, destOrder, dest, j - 1)
        + (if IsSubfolder(dest, f) && Contains(x, Keyword(f)) then [Transfer(x, f)] else [])
  }

  /** Extending the subfolder prefix by one adds that subfolder's match, if any. */
  lemma MatchesStep(before: seq<Transfer>, x: string, destOrder: seq<string>, dest: map<string, Entry>, j: nat)
    requires j < |destOrder|
    ensures var f := destOrder[j];
      before + MatchesUpTo(x, destOrder, dest, j + 1)
        == before + MatchesUpTo(x, destOrder, dest, j)
           + (if IsSubfolder(dest, f) && Contains(x, Keyword(f)) then [Transfer(x, f)] else [])
  {
    var f := destOrder[j];
    var m := MatchesUpTo(x, destOrder, dest, j);
    var e := if IsSubfolder(dest, f) && Contains(x, Keyword(f)) then [Transfer(x, f)] else [];
    assert before + (m + e) == before + m + e;
  }

  function Matches(x: string, destOrder: seq<string>, dest: map<string, Entry>): seq<Transfer>
  {
    MatchesUpTo(x, destOrder, dest, |destOrder|)
  }

  /** The matches of `x` are exactly the subfolders whose keyword it
      contains, each once. */
  lemma {:induction false} MatchesSpec(x: string, destOrder: seq<string>, dest: map<string, Entry>, j: nat)
    requires j <= |destOrder|
    ensures forall t :: t in MatchesUpTo(x, destOrder, dest, j) ==> t.file == x
    ensures forall f :: Transfer(x, f) in MatchesUpTo(x, destOrder, dest, j) <==>
      f in destOrder[..j] && IsSubfolder(dest, f) && Contains(x, Keyword(f))
    ensures Distinct(destOrder) ==> Distinct(MatchesUpTo(x, destOrder, dest, j))
  {
    if j > 0 {
      assert destOrder[..j] == destOrder[..j - 1] + [destOrder[j - 1]];
      MatchesSpec(x, destOrder, dest, j - 1);
    }
  }

  lemma {:induction false} MatchesPrefix(x: string, destOrder: seq<string>, dest: map<string, Entry>, j: nat, k: nat)
    requires j <= k <= |destOrder|
    ensures MatchesUpTo(x, destOrder, dest, j) <= MatchesUpTo(x, destOrder, dest, k)
    decreases k - j
  {
    if j < k {
      MatchesPrefix(x, destOrder, dest, j, k - 1);
    }
  }

  /** Both loops, over the first `i` names of the source listing: for each
      regular file in listing order, its matches in destination listing
      order. */
  function TransfersUpTo(srcOrder: seq<string>, src: map<string, Entry>,
                         destOrder: seq<string>, dest: map<string, Entry>, i: nat): seq<Transfer>
    requires i <= |srcOrder|
  {
    if i == 0 then []
    else
      var x := srcOrder[i - 1];
      TransfersUpTo(srcOrder, src, destOrder, dest, i - 1)
        + (if IsRegularFile(src, x) then Matches(x, destOrder, dest) else [])
  }

  function Transfers(srcOrder: seq<string>, src: map<string, Entry>,
                     destOrder: seq<string>, dest: map<string, Entry>): seq<Transfer>
  {
    TransfersUpTo(srcOrder, src, destOrder, dest, |srcOrder|)
  }

  /** A pass transfers exactly the (regular file, subfolder) pairs whose
      keyword the file name contains, each pair once. */
  lemma {:induction false} TransfersSpec(srcOrder: seq<string>, src: map<string, Entry>,
                                         destOrder: seq<string>, dest: map<string, Entry>, i: nat)
    requires i <= |srcOrder|
    ensures forall x, f :: Transfer(x, f) in TransfersUpTo(srcOrder, src, destOrder, dest, i) <==>
      x in srcOrder[..i] && f in destOrder && Matched(src, dest, x, f)
    ensures forall t :: t in TransfersUpTo(srcOrder, src, destOrder, dest, i) ==> t.file in srcOrder[..i]
    ensures Distinct(srcOrder) && Distinct(destOrder) ==> Distinct(TransfersUpTo(srcOrder, src, destOrder, dest, i))
  {
    if i > 0 {
      var x := srcOrder[i - 1];
      assert srcOrder[..i] == srcOrder[..i - 1] + [x];
      assert destOrder[..|destOrder|] == destOrder;
      TransfersSpec(srcOrder, src, destOrder, dest, i - 1);
      MatchesSpec(x, destOrder, dest, |destOrder|);
    }
  }

  lemma {:induction false} TransfersPrefix(srcOrder: seq<string>, src: map<string, Entry>,
                                           destOrder: seq<string>, dest: map<string, Entry>, i: nat, k: nat)
    requires i <= k <= |srcOrder|
    ensures TransfersUpTo(srcOrder, src, destOrder, dest, i) <= TransfersUpTo(srcOrder, src, destOrder, dest, k)
    decreases k - i
  {
    if i < k {
      TransfersPrefix(srcOrder, src, destOrder, dest, i, k - 1);
    }
  }

  /** `t` is visited before `u` by the two loops: its file comes earlier
      in the source listing, or it is the same file and its subfolder comes
      earlier in the destination listing. */
  ghost predicate VisitedBefore(srcOrder: seq<string>, destOrder: seq<string>, t: Transfer, u: Transfer)
  {
    && t.file in srcOrder && u.file in srcOrder && t.folder in destOrder && u.folder in destOrder
    && (|| Position(srcOrder, t.file) < Position(srcOrder, u.file)
        || (t.file == u.file && Position(destOrder, t.folder) < Position(destOrder, u.folder)))
  }

  /** The subfolders of `m` come in destination listing order. */
  ghost predicate InDestOrder(destOrder: seq<string>, m: seq<Transfer>)
  {
    forall a, b :: 0 <= a < b < |m| && m[a].folder in destOrder && m[b].folder in destOrder ==>
      Position(destOrder, m[a].folder) < Position(destOrder, m[b].folder)
  }

  /** The matches of one file come in destination listing order. */
  lemma {:induction false} MatchesOrder(x: string, destOrder: seq<string>, dest: map<string, Entry>, j: nat)
    requires j <= |destOrder| && Distinct(destOrder)
    ensures forall t :: t in MatchesUpTo(x, destOrder, dest, j) ==>
      t.file == x && t.folder in destOrder && Position(destOrder, t.folder) < j
    ensures InDestOrder(destOrder, MatchesUpTo(x, destOrder, dest, j))
  {
    if j > 0 {
      var l := MatchesUpTo(x, destOrder, dest, j - 1);
      var m := MatchesUpTo(x, destOrder, dest, j);
      MatchesOrder(x, destOrder, dest, j - 1);
      PositionDistinct(destOrder, j - 1);
      if |m| > |l| {
        var t := Transfer(x, destOrder[j - 1]);
        assert m == l + [t];
        InDestOrderSnoc(destOrder, l, t, j - 1);
      } else {
        assert m == l;
      }
    }
  }

  /** Every transfer of `ts` has a listed subfolder and a file among the
      first `i` names of the source listing. */
  ghost predicate ListedBefore(srcOrder: seq<string>, destOrder: seq<string>, ts: seq<Transfer>, i: nat)
  {
    forall t :: t in ts ==> t.file in srcOrder && Position(srcOrder, t.file) < i && t.folder in destOrder
  }

  /** `ts` lists its transfers in the order the two loops visit them. */
  ghost predicate InVisitOrder(srcOrder: seq<string>, destOrder: seq<string>, ts: seq<Transfer>)
  {
    forall a, b :: 0 <= a < b < |ts| ==> VisitedBefore(srcOrder, destOrder, ts[a], ts[b])
  }

  /** Appending a transfer to a later subfolder keeps destination order. */
  lemma InDestOrderSnoc(destOrder: seq<string>, l: seq<Transfer>, t: Transfer, j: nat)
    requires InDestOrder(destOrder, l)
    requires forall u :: u in l ==> u.folder in destOrder && Position(destOrder, u.folder) < j
    requires t.folder in destOrder && Position(destOrder, t.folder) == j
    ensures InDestOrder(destOrder, l + [t])
  {
    var m := l + [t];
    forall a, b | 0 <= a < b < |m| && m[a].folder in destOrder && m[b].folder in destOrder
      ensures Position(destOrder, m[a].folder) < Position(destOrder, m[b].folder)
    {
      assert m[a] == l[a] && l[a] in l;
      if b < |l| {
        assert m[b] == l[b];
      }
    }
  }

  /** The transfers come in the order the two loops visit them. */
  lemma {:induction false} TransfersOrder(srcOrder: seq<string>, src: map<string, Entry>,
                                          destOrder: seq<string>, dest: map<string, Entry>, i: nat)
    requires i <= |srcOrder| && Distinct(srcOrder) && Distinct(destOrder)
    ensures ListedBefore(srcOrder, destOrder, TransfersUpTo(srcOrder, src, destOrder, dest, i), i)
    ensures InVisitOrder(srcOrder, destOrder, TransfersUpTo(srcOrder, src, destOrder, dest, i))
  {
    if i > 0 {
      var x := srcOrder[i - 1];
      var l := TransfersUpTo(srcOrder, src, destOrder, dest, i - 1);
      var m := if IsRegularFile(src, x) then MatchesUpTo(x, destOrder, dest, |destOrder|) else [];
      var ts := TransfersUpTo(srcOrder, src, destOrder, dest, i);
      assert ts == l + m;
      TransfersOrder(srcOrder, src, destOrder, dest, i - 1);
      MatchesOrder(x, destOrder, dest, |destOrder|);
      PositionDistinct(srcOrder, i - 1);
      forall t | t in ts ensures t.file in srcOrder && Position(srcOrder, t.file) < i && t.folder in destOrder {
        assert t in l || t in m;
      }
      VisitOrderAppend(srcOrder, destOrder, l, m, x, i - 1);
    }
  }

  /** Appending the matches of the next listed file keeps the visit order. */
  lemma VisitOrderAppend(srcOrder: seq<string>, destOrder: seq<string>, l: seq<Transfer>, m: seq<Transfer>,
                         x: string, i: nat)
    requires x in srcOrder && Position(srcOrder, x) == i
    requires ListedBefore(srcOrder, destOrder, l, i) && InVisitOrder(srcOrder, destOrder, l)
    requires forall t :: t in m ==> t.file == x && t.folder in destOrder
    requires InDestOrder(destOrder, m)
    ensures InVisitOrder(srcOrder, destOrder, l + m)
  {
    var ts := l + m;
    forall a, b | 0 <= a < b < |ts| ensures VisitedBefore(srcOrder, destOrder, ts[a], ts[b]) {
      if b < |l| {
        assert ts[a] == l[a] && ts[b] == l[b];
      } else if a >= |l| {
        assert ts[a] == m[a - |l|] && m[a - |l|] in m;
        assert ts[b] == m[b - |l|] && m[b - |l|] in m;
      } else {
        assert ts[a] == l[a] && l[a] in l;
        assert ts[b] == m[b - |l|] && m[b - |l|] in m;
      }
    }
  }

  /** The keyword of each transfer, in order: the keys the tally counts. */
  function KeywordsOf(ts: seq<Transfer>): seq<string>
    decreases |ts|
  {
    if ts == [] then [] else KeywordsOf(Init(ts)) + [Keyword(Last(ts).folder)]
  }

  /** State of the two directories after some transfers, and the transfer
      whose copy call failed, if one did. */
  datatype Run = Run(src: map<string, Entry>, dest: map<string, Entry>, failed: Option<Transfer>)

  /** Writing `data` under the file's name in the subfolder, overwriting. */
  function Deliver(dest: map<string, Entry>, t: Transfer, data: Bytes): map<string, Entry>
  {
    if IsSubfolder(dest, t.folder) then dest[t.folder := Folder(dest[t.folder].files[t.file := data])]
    else dest
  }

  /** One copy call (and, in move mode, the removal of the original). The
      copy fails when the source file is no longer there. */
  function Step(mode: Mode, src: map<string, Entry>, dest: map<string, Entry>, t: Transfer): (r: Run)
    ensures r.failed.None? <==> IsRegularFile(src, t.file)
    ensures r.failed.Some? ==> r == Run(src, dest, Some(t))
    ensures r.failed.None? ==> (t.file in r.src <==> mode == Copy)
    ensures r.failed.None? && IsSubfolder(dest, t.folder) ==>
      IsSubfolder(r.dest, t.folder) && r.dest[t.folder].files == dest[t.folder].files[t.file := src[t.file].data]
    ensures r.failed.None? && !IsSubfolder(dest, t.folder) ==> r.dest == dest
  {
    if IsRegularFile(src, t.file) then
      Run(if mode == Move then src - {t.file} else src, Deliver(dest, t, src[t.file].data), None)
    else Run(src, dest, Some(t))
  }

  /** The transfers performed in order; the first failure stops the pass. */
  function Replay(mode: Mode, src: map<string, Entry>, dest: map<string, Entry>, ts: seq<Transfer>): Run
    decreases |ts|
  {
    if ts == [] then Run(src, dest, None)
    else
      var r := Replay(mode, src, dest, Init(ts));
      if r.failed.Some? then r else Step(mode, r.src, r.dest, Last(ts))
  }

  ghost function Files(ts: seq<Transfer>): set<string>
  {
    set t | t in ts :: t.file
  }

  /** No file is transferred twice. */
  ghost predicate NoRepeat(ts: seq<Transfer>)
  {
    forall i, j :: 0 <= i < j < |ts| ==> ts[i].file != ts[j].file
  }

  ghost predicate FromSource(src: map<string, Entry>, ts: seq<Transfer>)
  {
    forall t :: t in ts ==> IsRegularFile(src, t.file)
  }

  /** The destination keeps its entries and their kinds; only the files
      inside subfolders change. */
  ghost predicate SameShape(dest0: map<string, Entry>, dest: map<string, Entry>)
  {
    && (forall f :: f in dest <==> f in dest0)
    && (forall f :: f in dest0 ==> (dest[f].Folder? <==> dest0[f].Folder?))
    && (forall f :: f in dest0 && !dest0[f].Folder? ==> dest[f] == dest0[f])
  }

  /** Every transfer of `ts` has put the source file's content into its
      subfolder, and nothing else in the subfolders changed. */
  ghost predicate Delivered(src0: map<string, Entry>, dest0: map<string, Entry>,
                            ts: seq<Transfer>, dest: map<string, Entry>)
    requires SameShape(dest0, dest)
  {
    forall f, x :: IsSubfolder(dest0, f) ==>
      && (x in dest[f].files <==> x in dest0[f].files || Transfer(x, f) in ts)
      && (Transfer(x, f) in ts ==> IsRegularFile(src0, x) && dest[f].files[x] == src0[x].data)
      && (Transfer(x, f) !in ts && x in dest0[f].files ==> dest[f].files[x] == dest0[f].files[x])
  }

  lemma ReplaySnoc(mode: Mode, src0: map<string, Entry>, dest0: map<string, Entry>, pre: seq<Transfer>, t: Transfer)
    ensures var r := Replay(mode, src0, dest0, pre);
      Replay(mode, src0, dest0, pre + [t]) == if r.failed.Some? then r else Step(mode, r.src, r.dest, t)
  {
    assert Init(pre + [t]) == pre;
  }

  lemma NoRepeatSnoc(pre: seq<Transfer>, t: Transfer)
    ensures NoRepeat(pre + [t]) <==> NoRepeat(pre) && t.file !in Files(pre)
  {
    var ts := pre + [t];
    if t.file in Files(pre) {
      var u :| u in pre && u.file == t.file;
      var i :| 0 <= i < |pre| && pre[i] == u;
      assert ts[i].file == ts[|pre|].file;
    }
    if !NoRepeat(pre) {
      var i, j :| 0 <= i < j < |pre| && pre[i].file == pre[j].file;
      assert ts[i].file == ts[j].file;
    }
    if NoRepeat(pre) && t.file !in Files(pre) {
      forall i, j | 0 <= i < j < |ts| ensures ts[i].file != ts[j].file {
        if j == |pre| {
          assert ts[i] in pre;
        }
      }
    }
  }

  lemma SameShapeTrans(a: map<string, Entry>, b: map<string, Entry>, c: map<string, Entry>)
    requires SameShape(a, b) && SameShape(b, c)
    ensures SameShape(a, c)
  {
  }

  /** One step only removes the transferred file (in move mode) and only
      changes files inside a subfolder. */
  lemma StepFrame(mode: Mode, src: map<string, Entry>, dest: map<string, Entry>, t: Transfer)
    ensures var r := Step(mode, src, dest, t);
      && (forall n :: n in r.src ==> n in src && r.src[n] == src[n])
      && (forall n :: n in src && (mode == Copy || n != t.file) ==> n in r.src)
      && SameShape(dest, r.dest)
  {
  }

  /** What holds whether or not the pass stopped: the source only loses
      transferred files, and the destination keeps its shape. */
  lemma {:induction false} ReplayFrame(mode: Mode, src0: map<string, Entry>, dest0: map<string, Entry>, ts: seq<Transfer>)
    ensures var r := Replay(mode, src0, dest0, ts);
      && (forall n :: n in r.src ==> n in src0 && r.src[n] == src0[n])
      && (forall n :: n in src0 && (mode == Copy || n !in Files(ts)) ==> n in r.src)
      && SameShape(dest0, r.dest)
    decreases |ts|
  {
    if ts != [] {
      var pre, t := Init(ts), Last(ts);
      assert ts == pre + [t];
      assert Files(ts) == Files(pre) + {t.file};
      ReplayFrame(mode, src0, dest0, pre);
      ReplaySnoc(mode, src0, dest0, pre, t);
      var r0 := Replay(mode, src0, dest0, pre);
      if r0.failed.None? {
        StepFrame(mode, r0.src, r0.dest, t);
        SameShapeTrans(dest0, r0.dest, Step(mode, r0.src, r0.dest, t).dest);
      }
    }
  }

  /** Delivering one more transfer keeps the destination in the state that
      `Delivered` describes. */
  lemma DeliverStep(src0: map<string, Entry>, dest0: map<string, Entry>, pre: seq<Transfer>,
                    dest: map<string, Entry>, t: Transfer)
    requires SameShape(dest0, dest) && Delivered(src0, dest0, pre, dest)
    requires IsRegularFile(src0, t.file)
    ensures SameShape(dest0, Deliver(dest, t, src0[t.file].data))
    ensures Delivered(src0, dest0, pre + [t], Deliver(dest, t, src0[t.file].data))
  {
    var ts := pre + [t];
    var d := Deliver(dest, t, src0[t.file].data);
    forall f, x | IsSubfolder(dest0, f)
      ensures && (x in d[f].files <==> x in dest0[f].files || Transfer(x, f) in ts)
              && (Transfer(x, f) in ts ==> IsRegularFile(src0, x) && d[f].files[x] == src0[x].data)
              && (Transfer(x, f) !in ts && x in dest0[f].files ==> d[f].files[x] == dest0[f].files[x])
    {
      assert Transfer(x, f) in ts <==> Transfer(x, f) in pre || Transfer(x, f) == t;
      if f == t.folder {
        assert d[f].files == dest[f].files[t.file := src0[t.file].data];
      } else {
        assert d[f] == dest[f];
      }
    }
  }

  /** A pass that did not stop has carried out every transfer. */
  lemma {:induction false} ReplayDelivers(mode: Mode, src0: map<string, Entry>, dest0: map<string, Entry>, ts: seq<Transfer>)
    ensures var r := Replay(mode, src0, dest0, ts);
      r.failed.None? ==> SameShape(dest0, r.dest) && Delivered(src0, dest0, ts, r.dest)
    decreases |ts|
  {
    if ts != [] {
      var pre, t := Init(ts), Last(ts);
      assert ts == pre + [t];
      var r0 := Replay(mode, src0, dest0, pre);
      ReplayDelivers(mode, src0, dest0, pre);
      ReplayFrame(mode, src0, dest0, pre);
      ReplaySnoc(mode, src0, dest0, pre, t);
      if r0.failed.None? && IsRegularFile(r0.src, t.file) {
        DeliverStep(src0, dest0, pre, r0.dest, t);
      }
    }
  }

  /** In copy mode the source is never touched, so no copy call fails. */
  lemma {:induction false} CopyReplay(src0: map<string, Entry>, dest0: map<string, Entry>, ts: seq<Transfer>)
    requires FromSource(src0, ts)
    ensures Replay(Copy, src0, dest0, ts).failed.None?
    ensures Replay(Copy, src0, dest0, ts).src == src0
    decreases |ts|
  {
    if ts != [] {
      var pre, t := Init(ts), Last(ts);
      assert ts == pre + [t];
      assert t in ts;
      ReplaySnoc(Copy, src0, dest0, pre, t);
      CopyReplay(src0, dest0, pre);
    }
  }

  /** In move mode the pass completes exactly when no file is transferred
      twice, and then the source has lost exactly the transferred files. */
  lemma {:induction false} MoveReplay(src0: map<string, Entry>, dest0: map<string, Entry>, ts: seq<Transfer>)
    requires FromSource(src0, ts)
    ensures Replay(Move, src0, dest0, ts).failed.None? <==> NoRepeat(ts)
    ensures NoRepeat(ts) ==> Replay(Move, src0, dest0, ts).src == src0 - Files(ts)
    decreases |ts|
  {
    if ts != [] {
      var pre, t := Init(ts), Last(ts);
      assert ts == pre + [t];
      assert t in ts;
      MoveReplay(src0, dest0, pre);
      ReplaySnoc(Move, src0, dest0, pre, t);
      NoRepeatSnoc(pre, t);
      assert Files(ts) == Files(pre) + {t.file};
    }
  }

  /** Once a copy call has failed, later transfers are never attempted. */
  lemma {:induction false} ReplayStops(mode: Mode, src0: map<string, Entry>, dest0: map<string, Entry>,
                                       pre: seq<Transfer>, ts: seq<Transfer>)
    requires pre <= ts
    requires Replay(mode, src0, dest0, pre).failed.Some?
    ensures Replay(mode, src0, dest0, ts) == Replay(mode, src0, dest0, pre)
    decreases |ts|
  {
    if |ts| > |pre| {
      assert pre <= Init(ts);
      ReplayStops(mode, src0, dest0, pre, Init(ts));
    } else {
      assert pre == ts;
    }
  }

  /** A failure among the first `j` matches of a file ends its inner loop. */
  lemma MatchesStop(mode: Mode, src0: map<string, Entry>, dest0: map<string, Entry>, before: seq<Transfer>,
                    x: string, destOrder: seq<string>, dest: map<string, Entry>, j: nat)
    requires j <= |destOrder|
    requires Replay(mode, src0, dest0, before + MatchesUpTo(x, destOrder, dest, j)).failed.Some?
    ensures Replay(mode, src0, dest0, before + Matches(x, destOrder, dest))
      == Replay(mode, src0, dest0, before + MatchesUpTo(x, destOrder, dest, j))
  {
    MatchesPrefix(x, destOrder, dest, j, |destOrder|);
    PrefixAppend(before, MatchesUpTo(x, destOrder, dest, j), Matches(x, destOrder, dest));
    ReplayStops(mode, src0, dest0, before + MatchesUpTo(x, destOrder, dest, j), before + Matches(x, destOrder, dest));
  }

  /** The transfers before position `k` all succeeded, the one at `k`
      found no source file, and nothing after it happened. */
  ghost predicate FailsAt(mode: Mode, src0: map<string, Entry>, dest0: map<string, Entry>, ts: seq<Transfer>, k: nat)
    requires k < |ts|
  {
    var r0 := Replay(mode, src0, dest0, ts[..k]);
    && r0.failed.None? && !IsRegularFile(r0.src, ts[k].file)
    && Replay(mode, src0, dest0, ts) == Run(r0.src, r0.dest, Some(ts[k]))
  }

  lemma {:induction false} ReplayFailureAt(mode: Mode, src0: map<string, Entry>, dest0: map<string, Entry>, ts: seq<Transfer>)
    requires Replay(mode, src0, dest0, ts).failed.Some?
    ensures exists k: nat :: k < |ts| && FailsAt(mode, src0, dest0, ts, k)
    decreases |ts|
  {
    var pre, t := Init(ts), Last(ts);
    assert ts == pre + [t];
    ReplaySnoc(mode, src0, dest0, pre, t);
    if Replay(mode, src0, dest0, pre).failed.Some? {
      ReplayFailureAt(mode, src0, dest0, pre);
      var k: nat :| k < |pre| && FailsAt(mode, src0, dest0, pre, k);
      assert ts[..k] == pre[..k] && ts[k] == pre[k];
      assert FailsAt(mode, src0, dest0, ts, k);
    } else {
      assert ts[..|pre|] == pre;
      assert FailsAt(mode, src0, dest0, ts, |pre|);
    }
  }

  /** State of a move pass stopped at position `k`: the transfers before `k`
      moved distinct files and were all delivered, and the failing transfer
      is the first whose file an earlier one had already moved. */
  ghost predicate AbortedAt(src0: map<string, Entry>, dest0: map<string, Entry>, ts: seq<Transfer>, k: nat, r: Run)
    requires k < |ts|
  {
    && r.failed == Some(ts[k])
    && NoRepeat(ts[..k]) && ts[k].file in Files(ts[..k])
    && r.src == src0 - Files(ts[..k])
    && SameShape(dest0, r.dest) && Delivered(src0, dest0, ts[..k], r.dest)
  }

  lemma MoveAbortState(src0: map<string, Entry>, dest0: map<string, Entry>, ts: seq<Transfer>)
    requires FromSource(src0, ts)
    ensures var r := Replay(Move, src0, dest0, ts);
      r.failed.Some? ==> exists k: nat :: k < |ts| && AbortedAt(src0, dest0, ts, k, r)
  {
    var r := Replay(Move, src0, dest0, ts);
    if r.failed.Some? {
      ReplayFailureAt(Move, src0, dest0, ts);
      var k: nat :| k < |ts| && FailsAt(Move, src0, dest0, ts, k);
      var pre := ts[..k];
      assert FromSource(src0, pre) by {
        forall u | u in pre ensures IsRegularFile(src0, u.file) {
          assert u in ts;
        }
      }
      MoveReplay(src0, dest0, pre);
      ReplayDelivers(Move, src0, dest0, pre);
      assert ts[k] in ts;
      assert AbortedAt(src0, dest0, ts, k, r);
    }
  }

  /** In move mode a copy call fails only on a file that an earlier
      transfer has already moved away. */
  lemma {:induction false} MoveFailure(src0: map<string, Entry>, dest0: map<string, Entry>, ts: seq<Transfer>)
    requires FromSource(src0, ts) && Distinct(ts)
    ensures var r := Replay(Move, src0, dest0, ts);
      r.failed.Some? ==> var t := r.failed.value;
        t in ts && t.file !in r.src && exists u :: u in ts && u != t && u.file == t.file
    decreases |ts|
  {
    if ts != [] {
      var pre, t := Init(ts), Last(ts);
      assert ts == pre + [t];
      assert FromSource(src0, pre) by {
        forall u | u in pre ensures IsRegularFile(src0, u.file) {
          assert u in ts;
        }
      }
      assert Distinct(pre);
      ReplaySnoc(Move, src0, dest0, pre, t);
      MoveFailure(src0, dest0, pre);
      var r0 := Replay(Move, src0, dest0, pre);
      if r0.failed.Some? {
        var v := r0.failed.value;
        var u :| u in pre && u != v && u.file == v.file;
        assert u in ts && v in ts;
      } else if !IsRegularFile(r0.src, t.file) {
        ReplayFrame(Move, src0, dest0, pre);
        assert t in ts;
        var u :| u in pre && u.file == t.file;
        var i :| 0 <= i < |pre| && pre[i] == u;
        assert ts[i] == u && ts[|pre|] == t;
      }
    }
  }

  /** Each subfolder has received exactly the regular files of the source
      whose names contain its keyword, with their content; its other files
      are unchanged. */
  ghost predicate Received(src: map<string, Entry>, dest0: map<string, Entry>, dest: map<string, Entry>)
    requires SameShape(dest0, dest)
  {
    forall f, x :: IsSubfolder(dest0, f) ==>
      && (x in dest[f].files <==> x in dest0[f].files || Matched(src, dest0, x, f))
      && (Matched(src, dest0, x, f) ==> dest[f].files[x] == src[x].data)
      && (!Matched(src, dest0, x, f) && x in dest0[f].files ==> dest[f].files[x] == dest0[f].files[x])
  }

  lemma DeliveredIsReceived(srcOrder: seq<string>, src: map<string, Entry>,
                            destOrder: seq<string>, dest: map<string, Entry>, d: map<string, Entry>)
    requires IsListing(srcOrder, src) && IsListing(destOrder, dest)
    requires SameShape(dest, d) && Delivered(src, dest, Transfers(srcOrder, src, destOrder, dest), d)
    ensures Received(src, dest, d)
  {
    var ts := Transfers(srcOrder, src, destOrder, dest);
    TransfersSpec(srcOrder, src, destOrder, dest, |srcOrder|);
    assert srcOrder[..|srcOrder|] == srcOrder;
    assert forall x, f :: Transfer(x, f) in ts <==> Matched(src, dest, x, f);
  }

  /** Copy mode: every regular file of the source is still there, unchanged,
      and each subfolder has received a copy of exactly the files whose name
      contains its keyword, one per matching subfolder; nothing else in the
      destination changes. */
  lemma CopyPassEffect(srcOrder: seq<string>, src: map<string, Entry>,
                       destOrder: seq<string>, dest: map<string, Entry>)
    requires IsListing(srcOrder, src) && IsListing(destOrder, dest)
    ensures var r := Replay(Copy, src, dest, Transfers(srcOrder, src, destOrder, dest));
      && r.failed.None? && r.src == src && SameShape(dest, r.dest)
      && Received(src, dest, r.dest)
  {
    var ts := Transfers(srcOrder, src, destOrder, dest);
    TransfersSpec(srcOrder, src, destOrder, dest, |srcOrder|);
    assert srcOrder[..|srcOrder|] == srcOrder;
    TransfersFromSource(srcOrder, src, destOrder, dest);
    CopyReplay(src, dest, ts);
    ReplayDelivers(Copy, src, dest, ts);
    DeliveredIsReceived(srcOrder, src, destOrder, dest, Replay(Copy, src, dest, ts).dest);
  }

  lemma TransfersFromSource(srcOrder: seq<string>, src: map<string, Entry>,
                             destOrder: seq<string>, dest: map<string, Entry>)
    ensures FromSource(src, Transfers(srcOrder, src, destOrder, dest))
  {
    var ts := Transfers(srcOrder, src, destOrder, dest);
    TransfersSpec(srcOrder, src, destOrder, dest, |srcOrder|);
    assert srcOrder[..|srcOrder|] == srcOrder;
    forall t | t in ts ensures IsRegularFile(src, t.file) {
      assert Transfer(t.file, t.folder) == t;
    }
  }

  /** Without duplicate transfers, a file transferred twice is a file
      transferred into two different subfolders. */
  lemma NoRepeatIffOneFolder(ts: seq<Transfer>)
    requires Distinct(ts)
    ensures NoRepeat(ts) <==> !exists x, f, g :: f != g && Transfer(x, f) in ts && Transfer(x, g) in ts
  {
    if !NoRepeat(ts) {
      var i, j :| 0 <= i < j < |ts| && ts[i].file == ts[j].file;
      assert ts[i] != ts[j];
      assert Transfer(ts[i].file, ts[i].folder) == ts[i] && Transfer(ts[j].file, ts[j].folder) == ts[j];
    }
    if exists x, f, g :: f != g && Transfer(x, f) in ts && Transfer(x, g) in ts {
      var x, f, g :| f != g && Transfer(x, f) in ts && Transfer(x, g) in ts;
      var i :| 0 <= i < |ts| && ts[i] == Transfer(x, f);
      var j :| 0 <= j < |ts| && ts[j] == Transfer(x, g);
      if i < j { assert !NoRepeat(ts); } else { assert !NoRepeat(ts); }
    }
  }

  /** Move mode: the pass runs to completion exactly when no regular file
      of the source matches two subfolders. */
  lemma MovePassCompletes(srcOrder: seq<string>, src: map<string, Entry>,
                          destOrder: seq<string>, dest: map<string, Entry>)
    requires IsListing(srcOrder, src) && IsListing(destOrder, dest)
    ensures Replay(Move, src, dest, Transfers(srcOrder, src, destOrder, dest)).failed.None?
      <==> !exists x, f, g :: f != g && Matched(src, dest, x, f) && Matched(src, dest, x, g)
  {
    var ts := Transfers(srcOrder, src, destOrder, dest);
    TransfersSpec(srcOrder, src, destOrder, dest, |srcOrder|);
    assert srcOrder[..|srcOrder|] == srcOrder;
    TransfersFromSource(srcOrder, src, destOrder, dest);
    MoveReplay(src, dest, ts);
    NoRepeatIffOneFolder(ts);
    assert forall x, f :: Transfer(x, f) in ts <==> Matched(src, dest, x, f);
  }

  /** Move mode, whether or not the pass completes: entries of the source
      that are not regular files are untouched, and whatever is still in the
      source is unchanged. */
  lemma MovePassFrame(srcOrder: seq<string>, src: map<string, Entry>,
                      destOrder: seq<string>, dest: map<string, Entry>)
    ensures var r := Replay(Move, src, dest, Transfers(srcOrder, src, destOrder, dest));
      && (forall n :: n in src && !IsRegularFile(src, n) ==> n in r.src && r.src[n] == src[n])
      && (forall x :: x in r.src ==> x in src && r.src[x] == src[x])
      && SameShape(dest, r.dest)
  {
    var ts := Transfers(srcOrder, src, destOrder, dest);
    TransfersSpec(srcOrder, src, destOrder, dest, |srcOrder|);
    assert srcOrder[..|srcOrder|] == srcOrder;
    TransfersFromSource(srcOrder, src, destOrder, dest);
    ReplayFrame(Move, src, dest, ts);
  }

  /** Move mode, completed pass: each regular file that matches a subfolder
      is in it and gone from the source; each that matches none is still in
      the source. */
  lemma MovePassEffect(srcOrder: seq<string>, src: map<string, Entry>,
                       destOrder: seq<string>, dest: map<string, Entry>)
    requires IsListing(srcOrder, src) && IsListing(destOrder, dest)
    ensures var r := Replay(Move, src, dest, Transfers(srcOrder, src, destOrder, dest));
      r.failed.None? ==>
        && (forall x :: IsRegularFile(src, x) ==>
              (x in r.src <==> !exists f :: Matched(src, dest, x, f)))
        && SameShape(dest, r.dest)
        && Received(src, dest, r.dest)
  {
    var ts := Transfers(srcOrder, src, destOrder, dest);
    TransfersSpec(srcOrder, src, destOrder, dest, |srcOrder|);
    assert srcOrder[..|srcOrder|] == srcOrder;
    var r := Replay(Move, src, dest, ts);
    TransfersFromSource(srcOrder, src, destOrder, dest);
    MoveReplay(src, dest, ts);
    ReplayDelivers(Move, src, dest, ts);
    if r.failed.None? {
      DeliveredIsReceived(srcOrder, src, destOrder, dest, r.dest);
      forall x | IsRegularFile(src, x)
        ensures x in r.src <==> !exists f :: Matched(src, dest, x, f)
      {
        if exists f :: Matched(src, dest, x, f) {
          var f :| Matched(src, dest, x, f);
          assert Transfer(x, f) in ts;
        }
      }
    }
  }

  /** Move mode, stopped pass: the copy call that failed was the second
      match of a file that an earlier match had already moved into another
      subfolder. */
  lemma MovePassAbort(srcOrder: seq<string>, src: map<string, Entry>,
                      destOrder: seq<string>, dest: map<string, Entry>)
    requires IsListing(srcOrder, src) && IsListing(destOrder, dest)
    ensures var r := Replay(Move, src, dest, Transfers(srcOrder, src, destOrder, dest));
      r.failed.Some? ==> var t := r.failed.value;
        && Matched(src, dest, t.file, t.folder)
        && t.file !in r.src
        && exists g :: g != t.folder && Matched(src, dest, t.file, g)
    ensures var ts := Transfers(srcOrder, src, destOrder, dest);
      var r := Replay(Move, src, dest, ts);
      r.failed.Some? ==> exists k: nat :: k < |ts| && AbortedAt(src, dest, ts, k, r)
  {
    var ts := Transfers(srcOrder, src, destOrder, dest);
    TransfersSpec(srcOrder, src, destOrder, dest, |srcOrder|);
    assert srcOrder[..|srcOrder|] == srcOrder;
    TransfersFromSource(srcOrder, src, destOrder, dest);
    MoveFailure(src, dest, ts);
    MoveAbortState(src, dest, ts);
    var r := Replay(Move, src, dest, ts);
    if r.failed.Some? {
      var t := r.failed.value;
      var u :| u in ts && u != t && u.file == t.file;
      assert Transfer(u.file, u.folder) in ts && Transfer(t.file, t.folder) in ts;
    }
  }

  /** The transfers up to and including subfolder `j` of file `i` are a
      prefix of all transfers of the pass. */
  lemma InnerPrefix(srcOrder: seq<string>, src: map<string, Entry>,
                    destOrder: seq<string>, dest: map<string, Entry>, i: nat, j: nat)
    requires i < |srcOrder| && j <= |destOrder| && IsRegularFile(src, srcOrder[i])
    ensures TransfersUpTo(srcOrder, src, destOrder, dest, i) + MatchesUpTo(srcOrder[i], destOrder, dest, j)
      <= Transfers(srcOrder, src, destOrder, dest)
  {
    MatchesPrefix(srcOrder[i], destOrder, dest, j, |destOrder|);
    PrefixAppend(TransfersUpTo(srcOrder, src, destOrder, dest, i),
                 MatchesUpTo(srcOrder[i], destOrder, dest, j), Matches(srcOrder[i], destOrder, dest));
    TransfersPrefix(srcOrder, src, destOrder, dest, i + 1, |srcOrder|);
  }

  /** A file not yet transferred is as it was at the start of the pass. */
  lemma NotYetTransferred(mode: Mode, srcOrder: seq<string>, src: map<string, Entry>,
                          destOrder: seq<string>, dest: map<string, Entry>, i: nat, done: seq<Transfer>)
    requires i < |srcOrder| && Distinct(srcOrder)
    requires forall t :: t in done ==> t.file in srcOrder[..i]
    ensures var r := Replay(mode, src, dest, done);
      IsRegularFile(r.src, srcOrder[i]) <==> IsRegularFile(src, srcOrder[i])
  {
    ReplayFrame(mode, src, dest, done);
  }

  /** The tallied keys are the transfers' subfolder keywords, one per
      transfer, in transfer order. */
  lemma {:induction false} KeywordsOfSpec(ts: seq<Transfer>)
    ensures |KeywordsOf(ts)| == |ts|
    ensures forall i :: 0 <= i < |ts| ==> KeywordsOf(ts)[i] == Keyword(ts[i].folder)
    decreases |ts|
  {
    if ts != [] {
      KeywordsOfSpec(Init(ts));
    }
  }

  lemma KeywordsOfSnoc(ts: seq<Transfer>, t: Transfer)
    ensures KeywordsOf(ts + [t]) == KeywordsOf(ts) + [Keyword(t.folder)]
  {
    assert Init(ts + [t]) == ts;
  }
}
