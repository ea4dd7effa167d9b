/** Undamaged source files among any other data files (par2repairer.cpp, VerifyDataFile): such a file is found as a
    whole even if some of its blocks have been found elsewhere before, and what comes later does not take its place. */
module AnyDataFiles {
  import opened Bytes
  import opened Crc
  import opened Md5
  import opened VerificationTables
  import opened FileCheckSummers
  import opened Scans
  import opened ScanCoverage
  import opened ScanRepair
  import opened SourceFiles
  import opened IntactFiles
  import Windows

  /** The entry behind an entry is for the same source file. */
  ghost predicate Linked(nodes: seq<VerificationHashEntry>) {
    forall i :: 0 <= i < |nodes| ==> LinkedAt(nodes, i)
  }

  ghost predicate LinkedAt(nodes: seq<VerificationHashEntry>, i: nat)
    requires i < |nodes|
  {
    var next := nodes[i].next;
    next == -1 || (0 <= next < |nodes| && nodes[next].block.sourcefile == nodes[i].block.sourcefile)
  }

  /** Loading the entries of a source file into the table keeps them linked. */
  method LoadLinked(table: VerificationHashTable, s: nat, entries: seq<VerificationEntry>)
    requires table.Valid() && Linked(table.nodes)
    modifies table
    ensures table.Valid() && Linked(table.nodes) && |table.nodes| == |old(table.nodes)| + |entries|
  {
    hide VerificationHashTable.Valid;
    ghost var nodes := table.nodes;
    table.Load(s, entries);
    forall i | 0 <= i < |table.nodes|
      ensures LinkedAt(table.nodes, i)
    {
      assert i < |nodes| ==> LinkedAt(nodes, i);
    }
  }

  /** No entry has the same crc and hash as one of source file s. */
  ghost predicate OwnBlocks(nodes: seq<VerificationHashEntry>, s: nat) {
    forall i :: 0 <= i < |nodes| && nodes[i].block.sourcefile == s ==> OnlyEntry(nodes, i)
  }

  // ----- A complete source file -----

  /** No match is of source file s, and none is expected. */
  ghost predicate NoneOf(nodes: seq<VerificationHashEntry>, p: Progress, s: nat) {
    && (forall k :: 0 <= k < |p.matches| ==> NotOf(nodes, p.matches[k].entry, s))
    && NotOf(nodes, p.nextentry, s)
  }

  predicate NotOf(nodes: seq<VerificationHashEntry>, i: int, s: nat) {
    0 <= i < |nodes| ==> nodes[i].block.sourcefile != s
  }

  /** Once a source file is complete its blocks are not found again. */
  lemma {:induction false} NotAgain<S>(h: Compression<S>, file: seq<byte>, blocksize: nat, table: VerificationHashTable,
                                       diskfile: int, recording: bool, start: Progress, end: Progress, moves: seq<nat>,
                                       s: nat)
    requires 0 < blocksize && Turns(h, file, blocksize, table, diskfile, recording, start, end, moves)
    requires OwnBlocks(table.nodes, s) && Linked(table.nodes) && s in start.status.complete
    requires NoneOf(table.nodes, start, s)
    ensures NoneOf(table.nodes, end, s) && end.status.complete == start.status.complete
    decreases |moves|
  {
    hide LookedOn, NoneOf;
    if |moves| > 0 {
      var n := |moves| - 1;
      var p, w, entry, duplicate :|
        && Turns(h, file, blocksize, table, diskfile, recording, start, p, moves[..n])
        && LookedOn(h, file, blocksize, table, diskfile, recording, p, moves[..n], w, entry, duplicate, end, moves[n]);
      NotAgain(h, file, blocksize, table, diskfile, recording, start, p, moves[..n], s);
      hide Turns;
      TurnNotOf(h, file, blocksize, table, diskfile, recording, p, moves[..n], w, entry, duplicate, end, moves[n], s);
    }
  }

  lemma {:induction false} TurnNotOf<S>(h: Compression<S>, file: seq<byte>, blocksize: nat,
                                        table: VerificationHashTable, diskfile: int, recording: bool, p: Progress,
                                        moves: seq<nat>, w: Window, entry: int, duplicate: bool, q: Progress,
                                        distance: nat, s: nat)
    requires 0 < blocksize && OwnBlocks(table.nodes, s) && Linked(table.nodes) && s in p.status.complete
    requires LookedOn(h, file, blocksize, table, diskfile, recording, p, moves, w, entry, duplicate, q, distance)
    requires NoneOf(table.nodes, p, s)
    ensures NoneOf(table.nodes, q, s) && q.status.complete == p.status.complete
  {
    hide Shown, VerificationHashTable.Answer, Windows.Window, Windows.Inside, Windows.Total, OnlyEntry, OwnBlocks;
    if entry >= 0 {
      AnswerNotOf(table, p, w, entry, duplicate, s);
      assert LinkedAt(table.nodes, entry);
    }
  }

  lemma {:induction false} AnswerNotOf(table: VerificationHashTable, p: Progress, w: Window, entry: int,
                                       duplicate: bool, s: nat)
    requires -1 <= p.nextentry < |table.nodes| == |p.status.found| == |p.status.diskfile| && 0 <= entry < |table.nodes|
    requires table.Answer(p.nextentry, p.sourcefile, p.status, w, entry, duplicate)
    requires OwnBlocks(table.nodes, s) && s in p.status.complete && NotOf(table.nodes, p.nextentry, s)
    ensures table.nodes[entry].block.sourcefile != s
  {
    if table.nodes[entry].block.sourcefile == s {
      table.AnswerFits(p.nextentry, p.sourcefile, p.status, w, entry, duplicate);
      OnlyMatches(table, entry, w);
    }
  }

  lemma {:induction false} OnlyMatches(table: VerificationHashTable, i: nat, w: Window)
    requires i < |table.nodes| && OnlyEntry(table.nodes, i) && table.Matches(i, w.checksum, w.hash)
    ensures table.OnlyMatch(i, w)
  {
    forall j | 0 <= j < |table.nodes| && j != i
      ensures !table.Matches(j, w.checksum, w.hash)
    {
      assert !SameBlock(table.nodes, j, i);
    }
  }

  // ----- An undamaged source file -----

  /** The file is this source file: its entries, which no other entry is the same as, and its description. */
  ghost predicate IsFile<S>(h: Compression<S>, file: seq<byte>, blocksize: nat, nodes: seq<VerificationHashEntry>,
                            files: seq<Description>, source: Source)
    requires 0 < blocksize
  {
    && 0 < |file| && Agrees(h, file, blocksize, files, source.file) && OwnBlocks(nodes, source.file)
    && forall k :: 0 <= k < SourceFiles.BlockCount(|file|, blocksize) ==>
         EntryOf(h, file, blocksize, nodes, source.file, source.first, k)
  }

  /** Whatever the scans before have found in other data files, its scan finds all of it, unless it is complete. */
  lemma {:induction false} StillFound<S>(h: Compression<S>, file: seq<byte>, blocksize: nat,
                                         nodes: seq<VerificationHashEntry>, target: int, files: seq<Description>,
                                         source: Source, scans: seq<Scan>, status: Status)
    requires 0 < blocksize && IsFile(h, file, blocksize, nodes, files, source)
    requires KnownBy(|nodes|, scans, status) && source.file !in status.complete
    ensures Intact(h, file, blocksize, nodes, status, |scans|, target, source.file, source.first)
  {
    hide EntryOf, SourceFiles.BlockCount, SourceFiles.Start, Agrees, OnlyEntry, Matched, CompletedBy;
    SourceFiles.StartNext(blocksize, 0);
    SourceFiles.BlockStarts(|file|, blocksize, 0);
    forall k | 0 <= k < SourceFiles.BlockCount(|file|, blocksize)
      ensures EntryOf(h, file, blocksize, nodes, source.file, source.first, k)
      ensures source.first + k < |nodes| && Available(nodes, status, |scans|, source.first, k)
    {
      var i := source.first + k;
      EntryFile(h, file, blocksize, nodes, source, k);
      assert FoundBy(scans, i, status.found[i], status.diskfile[i]);
    }
    assert EntryOf(h, file, blocksize, nodes, source.file, source.first, 0);
    EntryFile(h, file, blocksize, nodes, source, 0);
    NoOther(nodes, source.first);
  }

  lemma {:induction false} NoOther(nodes: seq<VerificationHashEntry>, i: nat)
    requires i < |nodes| && OnlyEntry(nodes, i)
    ensures forall j :: 0 <= j < |nodes| && j != i ==> !SameBlock(nodes, j, i)
  {
  }

  /** Where a data file first occurs. */
  lemma {:induction false} FirstOf(diskfiles: seq<seq<byte>>, file: seq<byte>) returns (d: nat)
    requires file in diskfiles
    ensures d < |diskfiles| && diskfiles[d] == file && file !in diskfiles[..d]
    decreases |diskfiles|
  {
    var n := |diskfiles| - 1;
    if file in diskfiles[..n] {
      d := FirstOf(diskfiles[..n], file);
      assert diskfiles[..n][..d] == diskfiles[..d];
    } else {
      d := n;
    }
  }

  /** No other data file has the size and the hashes of source file s. */
  ghost predicate NoOtherFits<S>(h: Compression<S>, diskfiles: seq<seq<byte>>, file: seq<byte>,
                                 files: seq<Description>, s: nat) {
    s < |files| && forall e :: 0 <= e < |diskfiles| && ScanRepair.Fits(h, diskfiles[e], files[s]) ==>
      diskfiles[e] == file
  }

  /** A full match is one with a data file that has the size and the hashes. */
  lemma {:induction false} FullFits<S>(h: Compression<S>, diskfiles: seq<seq<byte>>, blocksize: nat,
                                       table: VerificationHashTable, targets: seq<int>, files: seq<Description>,
                                       scans: seq<Scan>, d: nat, file: seq<byte>, s: nat)
    requires 0 < blocksize && AllScanned(h, diskfiles, blocksize, table, targets, files, scans)
    requires NoOtherFits(h, diskfiles, file, files, s) && d <= |scans| && CompletedBy(scans[..d], s)
    ensures file in diskfiles[..d]
  {
    hide Turns, Windows.Total, ScanRepair.Fits;
    var e :| 0 <= e < |scans[..d]| && scans[..d][e].full && scans[..d][e].last.sourcefile == s;
    assert ScannedAs(h, diskfiles[e], blocksize, table, e, targets[e], files, scans[e]);
    assert diskfiles[..d][e] == file;
  }

  /** The scan of the first data file that is this source file finds all of it. */
  lemma {:induction false} FirstFindsAll<S>(h: Compression<S>, diskfiles: seq<seq<byte>>, blocksize: nat,
                                            table: VerificationHashTable, targets: seq<int>, files: seq<Description>,
                                            scans: seq<Scan>, d: nat, source: Source)
    requires 0 < blocksize && AllScanned(h, diskfiles, blocksize, table, targets, files, scans)
    requires AllKnown(|table.nodes|, scans) && d < |scans| && diskfiles[d] !in diskfiles[..d]
    requires IsFile(h, diskfiles[d], blocksize, table.nodes, files, source)
    requires NoOtherFits(h, diskfiles, diskfiles[d], files, source.file)
    ensures FoundWhole(scans[d], blocksize, |diskfiles[d]|, source)
  {
    assert Agrees(h, diskfiles[d], blocksize, files, source.file);
    hide IsFile, NoOtherFits, ScannedAs, FoundWhole, Intact, Agrees;
    var before := scans[d].before;
    assert KnownBy(|table.nodes|, scans[..d], before);
    if source.file in before.complete {
      FullFits(h, diskfiles, blocksize, table, targets, files, scans, d, diskfiles[d], source.file);
    }
    StillFound(h, diskfiles[d], blocksize, table.nodes, targets[d], files, source, scans[..d], before);
    IntactScan(h, diskfiles[d], blocksize, table, d, targets[d], files, scans[d], source);
  }

  /** After that no scan finds any of it again. */
  lemma {:induction false} LaterFindsNone<S>(h: Compression<S>, diskfiles: seq<seq<byte>>, blocksize: nat,
                                             table: VerificationHashTable, targets: seq<int>, files: seq<Description>,
                                             scans: seq<Scan>, d: nat, e: nat, source: Source, i: nat)
    requires 0 < blocksize && AllScanned(h, diskfiles, blocksize, table, targets, files, scans)
    requires AllKnown(|table.nodes|, scans) && d < e < |scans| && scans[d].full
    requires scans[d].last.sourcefile == source.file
    requires OwnBlocks(table.nodes, source.file) && Linked(table.nodes)
    requires i < |table.nodes| && table.nodes[i].block.sourcefile == source.file
    ensures !Matched(scans[e].last.matches, i)
  {
    hide OwnBlocks, Linked, Turns, ScanRepair.Fits, Windows.Total, FoundBy;
    var x := scans[e];
    assert KnownBy(|table.nodes|, scans[..e], x.before);
    assert scans[..e][d] == scans[d];
    assert CompletedBy(scans[..e], source.file);
    assert ScannedAs(h, diskfiles[e], blocksize, table, e, targets[e], files, x);
    NotAgain(h, diskfiles[e], blocksize, table, e, true, Progress(FullMatch, targets[e], -1, [], x.before), x.last,
             x.moves, source.file);
  }

  /** The entry is for the source file. */
  lemma {:induction false} EntryIn<S>(h: Compression<S>, file: seq<byte>, blocksize: nat,
                                      nodes: seq<VerificationHashEntry>, files: seq<Description>, source: Source,
                                      k: nat)
    requires 0 < blocksize && IsFile(h, file, blocksize, nodes, files, source)
    requires k < SourceFiles.BlockCount(|file|, blocksize)
    ensures source.first + k < |nodes| && nodes[source.first + k].block.sourcefile == source.file
  {
    hide SourceFiles.BlockCount, OwnBlocks, Agrees, EntryOf;
    assert EntryOf(h, file, blocksize, nodes, source.file, source.first, k);
    EntryFile(h, file, blocksize, nodes, source, k);
  }

  /** All blocks of the source file are located where they start in data file d. */
  ghost predicate LocatedIn(blocksize: nat, filesize: nat, source: Source, located: seq<Location>, d: nat)
    requires 0 < blocksize
  {
    forall k :: 0 <= k < SourceFiles.BlockCount(filesize, blocksize) ==>
      LocatedAt(located, source, d, k, SourceFiles.Start(blocksize, k))
  }

  predicate LocatedAt(located: seq<Location>, source: Source, d: nat, k: nat, offset: nat) {
    source.first + k < |located| && located[source.first + k] == Somewhere(d, offset)
  }

  lemma {:induction false} LocatedThere(scans: seq<Scan>, blocksize: nat, filesize: nat, source: Source, d: nat, k: nat,
                                        location: Location)
    requires 0 < blocksize && d < |scans| && FoundWhole(scans[d], blocksize, filesize, source)
    requires k < SourceFiles.BlockCount(filesize, blocksize) && LocatedBy(scans, source.first + k, location)
    requires NotBehind(scans, source.first + k, d + 1)
    ensures location == Somewhere(d, SourceFiles.Start(blocksize, k))
  {
    hide SourceFiles.BlockCount, SourceFiles.Start, LastMatchOf, Matched;
    RowMatched(scans[d], blocksize, filesize, source, k);
    hide FoundWhole;
    assert location.Somewhere?;
    LastIsMatch(scans[location.file].last.matches, source.first + k, location.offset);
    assert location.file == d;
    LastInRow(scans[d], blocksize, filesize, source, k, location.offset);
  }

  lemma {:induction false} RowMatched(x: Scan, blocksize: nat, filesize: nat, source: Source, k: nat)
    requires 0 < blocksize && FoundWhole(x, blocksize, filesize, source)
    requires k < SourceFiles.BlockCount(filesize, blocksize)
    ensures Matched(x.last.matches, source.first + k)
  {
    hide SourceFiles.Start, SourceFiles.BlockCount;
    assert x.last.matches[k].entry == source.first + k;
  }

  /** A source file, no block of which is the same as any other, that is undamaged somewhere among the data files:
      whatever the others are, it is complete, and all its blocks are located where they start in such a data file. */
  lemma {:induction false} FileInPlace<S>(h: Compression<S>, diskfiles: seq<seq<byte>>, blocksize: nat,
                                          table: VerificationHashTable, targets: seq<int>, files: seq<Description>,
                                          scans: seq<Scan>, located: seq<Location>, complete: set<nat>, file: seq<byte>,
                                          source: Source)
    returns (d: nat)
    requires 0 < blocksize && AllScanned(h, diskfiles, blocksize, table, targets, files, scans)
    requires |scans| == |diskfiles| && AllKnown(|table.nodes|, scans) && Linked(table.nodes)
    requires |located| == |table.nodes| && AllLocated(scans, located)
    requires forall s :: s in complete <==> CompletedBy(scans, s)
    requires file in diskfiles && IsFile(h, file, blocksize, table.nodes, files, source)
    requires NoOtherFits(h, diskfiles, file, files, source.file)
    ensures d < |diskfiles| && diskfiles[d] == file && LocatedIn(blocksize, |file|, source, located, d)
    ensures source.file in complete
  {
    d := FirstOf(diskfiles, file);
    hide IsFile, NoOtherFits, FoundWhole, AllKnown, LocatedBy, Linked, SourceFiles.BlockCount, SourceFiles.Start;
    FirstFindsAll(h, diskfiles, blocksize, table, targets, files, scans, d, source);
    FileOf(scans[d], blocksize, |file|, source);
    forall k | 0 <= k < SourceFiles.BlockCount(|file|, blocksize)
      ensures LocatedAt(located, source, d, k, SourceFiles.Start(blocksize, k))
    {
      BlockInFile(h, diskfiles, blocksize, table, targets, files, scans, located, source, d, k);
    }
  }

  lemma {:induction false} BlockInFile<S>(h: Compression<S>, diskfiles: seq<seq<byte>>, blocksize: nat,
                                          table: VerificationHashTable, targets: seq<int>, files: seq<Description>,
                                          scans: seq<Scan>, located: seq<Location>, source: Source, d: nat, k: nat)
    requires 0 < blocksize && AllScanned(h, diskfiles, blocksize, table, targets, files, scans)
    requires d < |scans| == |diskfiles| && AllKnown(|table.nodes|, scans) && Linked(table.nodes)
    requires |located| == |table.nodes| && AllLocated(scans, located)
    requires IsFile(h, diskfiles[d], blocksize, table.nodes, files, source)
    requires FoundWhole(scans[d], blocksize, |diskfiles[d]|, source)
    requires k < SourceFiles.BlockCount(|diskfiles[d]|, blocksize)
    ensures LocatedAt(located, source, d, k, SourceFiles.Start(blocksize, k))
  {
    assert OwnBlocks(table.nodes, source.file);
    hide *;
    var i := source.first + k;
    FileOf(scans[d], blocksize, |diskfiles[d]|, source);
    EntryIn(h, diskfiles[d], blocksize, table.nodes, files, source, k);
    NeverAgain(h, diskfiles, blocksize, table, targets, files, scans, d, source, i);
    LocatedAs(scans, located, i);
    LocatedThere(scans, blocksize, |diskfiles[d]|, source, d, k, located[i]);
    ThereAt(located, source, d, k, SourceFiles.Start(blocksize, k));
  }

  lemma {:induction false} LocatedAs(scans: seq<Scan>, located: seq<Location>, i: nat)
    requires AllLocated(scans, located) && i < |located|
    ensures LocatedBy(scans, i, located[i])
  {
    hide LocatedBy;
  }

  lemma {:induction false} ThereAt(located: seq<Location>, source: Source, d: nat, k: nat, offset: nat)
    requires source.first + k < |located| && located[source.first + k] == Somewhere(d, offset)
    ensures LocatedAt(located, source, d, k, offset)
  {
  }

  lemma {:induction false} NeverAgain<S>(h: Compression<S>, diskfiles: seq<seq<byte>>, blocksize: nat,
                                         table: VerificationHashTable, targets: seq<int>, files: seq<Description>,
                                         scans: seq<Scan>, d: nat, source: Source, i: nat)
    requires 0 < blocksize && AllScanned(h, diskfiles, blocksize, table, targets, files, scans)
    requires AllKnown(|table.nodes|, scans) && d < |scans| && scans[d].full && scans[d].last.sourcefile == source.file
    requires OwnBlocks(table.nodes, source.file) && Linked(table.nodes)
    requires i < |table.nodes| && table.nodes[i].block.sourcefile == source.file
    ensures NotBehind(scans, i, d + 1)
  {
    hide AllScanned, AllKnown, OwnBlocks, Linked, Matched;
    forall e | d + 1 <= e < |scans|
      ensures !Matched(scans[e].last.matches, i)
    {
      LaterFindsNone(h, diskfiles, blocksize, table, targets, files, scans, d, e, source, i);
    }
  }

  /** The source files are undamaged somewhere among the data files. */
  ghost predicate AllThere<S>(h: Compression<S>, diskfiles: seq<seq<byte>>, blocksize: nat,
                              nodes: seq<VerificationHashEntry>, files: seq<Description>, contents: seq<seq<byte>>,
                              sources: seq<Source>)
    requires 0 < blocksize
  {
    && |contents| == |sources|
    && forall j :: 0 <= j < |sources| ==>
         && contents[j] in diskfiles && IsFile(h, contents[j], blocksize, nodes, files, sources[j])
         && NoOtherFits(h, diskfiles, contents[j], files, sources[j].file)
  }

  ghost predicate FoundThere(diskfiles: seq<seq<byte>>, blocksize: nat, file: seq<byte>, source: Source,
                             located: seq<Location>, complete: set<nat>)
    requires 0 < blocksize
  {
    && source.file in complete
    && exists d: nat :: d < |diskfiles| && diskfiles[d] == file && LocatedIn(blocksize, |file|, source, located, d)
  }

  /** Verify data files among which there are undamaged source files. */
  method VerifyAnyFiles<S>(h: Compression<S>, diskfiles: seq<seq<byte>>, blocksize: nat, windowtable: seq<nat>,
                           windowmask: nat, table: VerificationHashTable, targets: seq<int>, files: seq<Description>,
                           ghost contents: seq<seq<byte>>, ghost sources: seq<Source>)
    returns (located: seq<Location>, complete: set<nat>)
    requires 0 < blocksize && TablesFor(windowtable, windowmask, blocksize) && table.Valid()
    requires Lengths(table, blocksize) && Linked(table.nodes)
    requires forall i :: 0 <= i < |table.nodes| ==> table.nodes[i].block.sourcefile < |files|
    requires |targets| == |diskfiles| && forall d :: 0 <= d < |targets| ==> -1 <= targets[d]
    requires AllThere(h, diskfiles, blocksize, table.nodes, files, contents, sources)
    ensures forall j :: 0 <= j < |sources| ==>
              FoundThere(diskfiles, blocksize, contents[j], sources[j], located, complete)
  {
    hide *;
    ghost var scans;
    located, complete, scans :=
      VerifyDataFiles(h, diskfiles, blocksize, windowtable, windowmask, table, targets, files);
    AllFoundThere(h, diskfiles, blocksize, table, targets, files, scans, located, complete, contents, sources);
  }

  lemma {:induction false} AllFoundThere<S>(h: Compression<S>, diskfiles: seq<seq<byte>>, blocksize: nat,
                                            table: VerificationHashTable, targets: seq<int>, files: seq<Description>,
                                            scans: seq<Scan>, located: seq<Location>, complete: set<nat>,
                                            contents: seq<seq<byte>>, sources: seq<Source>)
    requires 0 < blocksize && AllScanned(h, diskfiles, blocksize, table, targets, files, scans)
    requires |scans| == |diskfiles| && AllKnown(|table.nodes|, scans) && Linked(table.nodes)
    requires |located| == |table.nodes| && AllLocated(scans, located)
    requires forall s :: s in complete <==> CompletedBy(scans, s)
    requires AllThere(h, diskfiles, blocksize, table.nodes, files, contents, sources)
    ensures |contents| == |sources|
    ensures forall j :: 0 <= j < |sources| ==>
              FoundThere(diskfiles, blocksize, contents[j], sources[j], located, complete)
  {
    hide AllScanned, AllKnown, AllLocated, Linked, CompletedBy, IsFile, NoOtherFits, LocatedIn;
    forall j | 0 <= j < |sources|
      ensures FoundThere(diskfiles, blocksize, contents[j], sources[j], located, complete)
    {
      var d := FileInPlace(h, diskfiles, blocksize, table, targets, files, scans, located, complete, contents[j],
                           sources[j]);
    }
  }
}
