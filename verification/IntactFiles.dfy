/** Data files that are undamaged source files (par2repairer.cpp, VerifySourceFiles): each is found to be complete, and
    every block is located where it starts in its file. */
module IntactFiles {
  import opened Arithmetic
  import opened Bytes
  import opened Md5
  import opened VerificationTables
  import opened FileCheckSummers
  import opened Scans
  import opened ScanRepair
  import opened SourceFiles
  import Windows

  /** After any turns of the loop over an undamaged file the scan is on track. */
  lemma {:induction false} TurnsOnTrack<S>(h: Compression<S>, file: seq<byte>, blocksize: nat,
                                           table: VerificationHashTable, diskfile: int, recording: bool, target: int,
                                           before: Status, end: Progress, moves: seq<nat>, s: nat, first: nat)
    requires 0 < blocksize && Intact(h, file, blocksize, table.nodes, before, diskfile, target, s, first)
    requires Turns(h, file, blocksize, table, diskfile, recording, Progress(FullMatch, target, -1, [], before), end,
                   moves)
    ensures OnTrack(file, blocksize, end, before, target, s, first, moves, Min(Windows.Total(moves), |file|),
                    |end.matches|)
    decreases |moves|
  {
    hide LookedOn, Intact, OnTrack;
    if |moves| == 0 {
      AtStart(h, file, blocksize, table.nodes, before, diskfile, target, s, first);
    } else {
      var n := |moves| - 1;
      var p, w, entry, duplicate :|
        && Turns(h, file, blocksize, table, diskfile, recording, Progress(FullMatch, target, -1, [], before), p,
                 moves[..n])
        && LookedOn(h, file, blocksize, table, diskfile, recording, p, moves[..n], w, entry, duplicate, end, moves[n]);
      TurnsOnTrack(h, file, blocksize, table, diskfile, recording, target, before, p, moves[..n], s, first);
      TurnOnTrack(h, file, blocksize, table, diskfile, recording, target, before, p, moves[..n], w, entry, duplicate,
                  end, moves[n], s, first);
      assert moves == moves[..n] + [moves[n]];
    }
  }

  lemma {:induction false} AtStart<S>(h: Compression<S>, file: seq<byte>, blocksize: nat,
                                      nodes: seq<VerificationHashEntry>, before: Status, diskfile: int, target: int,
                                      s: nat, first: nat)
    requires 0 < blocksize && Intact(h, file, blocksize, nodes, before, diskfile, target, s, first)
    ensures OnTrack(file, blocksize, Progress(FullMatch, target, -1, [], before), before, target, s, first, [],
                    Min(Windows.Total([]), |file|), 0)
  {
    hide EntryOf, SameBlock, SourceFiles.BlockCount;
    SourceFiles.StartNext(blocksize, 0);
  }

  lemma {:induction false} TurnOnTrack<S>(h: Compression<S>, file: seq<byte>, blocksize: nat,
                                          table: VerificationHashTable, diskfile: int, recording: bool, target: int,
                                          before: Status, p: Progress, moves: seq<nat>, w: Window, entry: int,
                                          duplicate: bool, q: Progress, distance: nat, s: nat, first: nat)
    requires 0 < blocksize && Intact(h, file, blocksize, table.nodes, before, diskfile, target, s, first)
    requires LookedOn(h, file, blocksize, table, diskfile, recording, p, moves, w, entry, duplicate, q, distance)
    requires OnTrack(file, blocksize, p, before, target, s, first, moves, Min(Windows.Total(moves), |file|),
                     |p.matches|)
    ensures OnTrack(file, blocksize, q, before, target, s, first, moves + [distance],
                    Min(Windows.Total(moves + [distance]), |file|), |q.matches|)
  {
    hide Looked, Intact, OnTrack, Advanced, Distance;
    assert (moves + [distance])[..|moves|] == moves;
    assert Windows.Total(moves) < |file|;
    StepOnTrack(h, file, blocksize, table, p, before, diskfile, recording, target, s, first, moves, w, entry,
                duplicate);
  }

  /** The source file that a data file is, and its first entry. */
  datatype Source = Source(file: nat, first: nat)

  /** The data file is that source file, whose entries are in the table, and its description agrees. */
  ghost predicate IsSource<S>(h: Compression<S>, file: seq<byte>, blocksize: nat, nodes: seq<VerificationHashEntry>,
                              target: int, files: seq<Description>, source: Source)
    requires 0 < blocksize
  {
    && Intact(h, file, blocksize, nodes, Unknown(|nodes|), -1, target, source.file, source.first)
    && Agrees(h, file, blocksize, files, source.file)
  }

  /** The description of source file s is that of the file. */
  ghost predicate Agrees<S>(h: Compression<S>, file: seq<byte>, blocksize: nat, files: seq<Description>, s: nat)
    requires 0 < blocksize
  {
    && s < |files| && files[s].blockcount == SourceFiles.BlockCount(|file|, blocksize)
    && ScanRepair.Fits(h, file, files[s])
  }

  lemma {:induction false} SourceAgrees<S>(h: Compression<S>, file: seq<byte>, blocksize: nat,
                                           nodes: seq<VerificationHashEntry>, target: int, files: seq<Description>,
                                           source: Source)
    requires 0 < blocksize && IsSource(h, file, blocksize, nodes, target, files, source)
    ensures Agrees(h, file, blocksize, files, source.file)
  {
    hide Intact, Agrees;
  }

  /** The first data files are undamaged source files, each another one. */
  ghost predicate AreSources<S>(h: Compression<S>, diskfiles: seq<seq<byte>>, blocksize: nat,
                                nodes: seq<VerificationHashEntry>, targets: seq<int>, files: seq<Description>,
                                sources: seq<Source>)
    requires 0 < blocksize
  {
    && |sources| <= |diskfiles| == |targets|
    && (forall d :: 0 <= d < |sources| ==>
          IsSource(h, diskfiles[d], blocksize, nodes, targets[d], files, sources[d]))
    && forall d, e :: 0 <= d < e < |sources| ==> sources[d].file != sources[e].file
  }

  /** The scan has found the whole source file. */
  predicate FoundWhole(x: Scan, blocksize: nat, filesize: nat, source: Source)
    requires 0 < blocksize
  {
    && x.full && x.last.sourcefile == source.file
    && x.last.matches == Row(blocksize, source.first, SourceFiles.BlockCount(filesize, blocksize))
  }

  /** If neither the source file is complete nor one of its entries found yet, its scan finds all of it. */
  lemma {:induction false} IntactScan<S>(h: Compression<S>, file: seq<byte>, blocksize: nat,
                                         table: VerificationHashTable, d: nat, target: int, files: seq<Description>,
                                         x: Scan, source: Source)
    requires 0 < blocksize && ScannedAs(h, file, blocksize, table, d, target, files, x)
    requires Agrees(h, file, blocksize, files, source.file)
    requires Intact(h, file, blocksize, table.nodes, x.before, d, target, source.file, source.first)
    ensures FoundWhole(x, blocksize, |file|, source)
  {
    hide Turns, Intact, OnTrack, SourceFiles.BlockCount, ScanRepair.Fits, Row, Windows.Total;
    TurnsOnTrack(h, file, blocksize, table, d, true, target, x.before, x.last, x.moves, source.file, source.first);
    assert Min(Windows.Total(x.moves), |file|) == |file|;
    AtEnd(h, file, blocksize, table.nodes, x.last, x.before, d, target, source.file, source.first, x.moves);
  }

  /** A match in the scan of an undamaged source file is one of its blocks. */
  lemma {:induction false} MatchOfSource<S>(h: Compression<S>, file: seq<byte>, blocksize: nat,
                                            nodes: seq<VerificationHashEntry>, target: int, files: seq<Description>,
                                            x: Scan, source: Source, i: nat)
    requires 0 < blocksize && IsSource(h, file, blocksize, nodes, target, files, source)
    requires FoundWhole(x, blocksize, |file|, source)
    ensures Matched(x.last.matches, i) <==>
            source.first <= i < source.first + SourceFiles.BlockCount(|file|, blocksize)
    ensures source.first <= i < source.first + SourceFiles.BlockCount(|file|, blocksize) ==>
              i < |nodes| && nodes[i].block.sourcefile == source.file
  {
    hide SourceFiles.BlockCount, SourceFiles.Start, SourceFiles.BlockOf, SourceFiles.PaddedBlock, Identified, SameBlock,
         ScanRepair.Fits;
    var n := SourceFiles.BlockCount(|file|, blocksize);
    if source.first <= i < source.first + n {
      assert EntryOf(h, file, blocksize, nodes, source.file, source.first, i - source.first);
      assert x.last.matches[i - source.first].entry == i;
    }
  }

  /** What is known before the scan of a source file says nothing about it. */
  lemma {:induction false} NotYetKnown<S>(h: Compression<S>, diskfiles: seq<seq<byte>>, blocksize: nat,
                                          nodes: seq<VerificationHashEntry>, targets: seq<int>, files: seq<Description>,
                                          sources: seq<Source>, scans: seq<Scan>, status: Status)
    requires 0 < blocksize && AreSources(h, diskfiles, blocksize, nodes, targets, files, sources)
    requires |scans| < |sources| && KnownBy(|nodes|, scans, status)
    requires forall e :: 0 <= e < |scans| ==> FoundWhole(scans[e], blocksize, |diskfiles[e]|, sources[e])
    ensures var source := sources[|scans|];
            Intact(h, diskfiles[|scans|], blocksize, nodes, status, |scans|, targets[|scans|], source.file,
                   source.first)
  {
    hide IsSource, FoundWhole, KnownBy, SourceFiles.BlockCount, EntryOf;
    var d := |scans|;
    var file, source := diskfiles[d], sources[d];
    assert IsSource(h, file, blocksize, nodes, targets[d], files, source);
    FileNotYetKnown(h, diskfiles, blocksize, nodes, targets, files, sources, scans, status);
    forall k | 0 <= k < SourceFiles.BlockCount(|file|, blocksize)
      ensures Available(nodes, status, d, source.first, k)
    {
      EntryNotYetKnown(h, diskfiles, blocksize, nodes, targets, files, sources, scans, status, k);
    }
    StillIntact(h, file, blocksize, nodes, d, targets[d], files, source, status);
  }

  lemma {:induction false} StillIntact<S>(h: Compression<S>, file: seq<byte>, blocksize: nat,
                                          nodes: seq<VerificationHashEntry>, d: nat, target: int,
                                          files: seq<Description>, source: Source, status: Status)
    requires 0 < blocksize && IsSource(h, file, blocksize, nodes, target, files, source)
    requires source.file !in status.complete && |status.found| == |status.diskfile| == |nodes|
    requires forall k :: 0 <= k < SourceFiles.BlockCount(|file|, blocksize) ==>
               Available(nodes, status, d, source.first, k)
    ensures Intact(h, file, blocksize, nodes, status, d, target, source.file, source.first)
  {
    hide EntryOf, SameBlock, SourceFiles.BlockCount, ScanRepair.Fits, Available;
  }

  lemma {:induction false} EntryNotYetKnown<S>(h: Compression<S>, diskfiles: seq<seq<byte>>, blocksize: nat,
                                               nodes: seq<VerificationHashEntry>, targets: seq<int>,
                                               files: seq<Description>, sources: seq<Source>, scans: seq<Scan>,
                                               status: Status, k: nat)
    requires 0 < blocksize && AreSources(h, diskfiles, blocksize, nodes, targets, files, sources)
    requires |scans| < |sources| && KnownBy(|nodes|, scans, status)
    requires forall e :: 0 <= e < |scans| ==> FoundWhole(scans[e], blocksize, |diskfiles[e]|, sources[e])
    requires k < SourceFiles.BlockCount(|diskfiles[|scans|]|, blocksize)
    ensures var i := sources[|scans|].first + k;
            |status.found| == |status.diskfile| == |nodes| && i < |nodes| && !status.found[i]
  {
    hide IsSource, FoundWhole, Matched, SourceFiles.BlockCount;
    var d := |scans|;
    var i := sources[d].first + k;
    EntryThere(h, diskfiles[d], blocksize, nodes, targets[d], files, sources[d], k);
    assert FoundBy(scans, i, status.found[i], status.diskfile[i]);
    if status.found[i] {
      var e := status.diskfile[i];
      MatchOfSource(h, diskfiles[e], blocksize, nodes, targets[e], files, scans[e], sources[e], i);
      assert false;
    }
  }

  lemma {:induction false} FileNotYetKnown<S>(h: Compression<S>, diskfiles: seq<seq<byte>>, blocksize: nat,
                                              nodes: seq<VerificationHashEntry>, targets: seq<int>,
                                              files: seq<Description>, sources: seq<Source>, scans: seq<Scan>,
                                              status: Status)
    requires 0 < blocksize && AreSources(h, diskfiles, blocksize, nodes, targets, files, sources)
    requires |scans| < |sources| && KnownBy(|nodes|, scans, status)
    requires forall e :: 0 <= e < |scans| ==> FoundWhole(scans[e], blocksize, |diskfiles[e]|, sources[e])
    ensures sources[|scans|].file !in status.complete && |status.found| == |status.diskfile| == |nodes|
  {
    hide IsSource, FoundWhole, FoundBy;
    var s := sources[|scans|].file;
    if CompletedBy(scans, s) {
      var e :| 0 <= e < |scans| && scans[e].full && scans[e].last.sourcefile == s;
      FileOf(scans[e], blocksize, |diskfiles[e]|, sources[e]);
      assert false;
    }
  }

  lemma {:induction false} FileOf(x: Scan, blocksize: nat, filesize: nat, source: Source)
    requires 0 < blocksize && FoundWhole(x, blocksize, filesize, source)
    ensures x.full && x.last.sourcefile == source.file
  {
  }

  lemma {:induction false} EntryFile<S>(h: Compression<S>, file: seq<byte>, blocksize: nat,
                                        nodes: seq<VerificationHashEntry>, source: Source, k: nat)
    requires 0 < blocksize && EntryOf(h, file, blocksize, nodes, source.file, source.first, k)
    ensures source.first + k < |nodes| && nodes[source.first + k].block.sourcefile == source.file
  {
    hide Identified, SourceFiles.BlockOf, SourceFiles.BlockCount, SourceFiles.Start;
  }

  /** Every one of these source files is found as a whole. */
  lemma {:induction false} SourcesFound<S>(h: Compression<S>, diskfiles: seq<seq<byte>>, blocksize: nat,
                                           table: VerificationHashTable, targets: seq<int>, files: seq<Description>,
                                           sources: seq<Source>, scans: seq<Scan>, d: nat)
    requires 0 < blocksize && AllScanned(h, diskfiles, blocksize, table, targets, files, scans)
    requires AllKnown(|table.nodes|, scans) && d <= |sources| <= |scans|
    requires AreSources(h, diskfiles, blocksize, table.nodes, targets, files, sources)
    ensures forall e :: 0 <= e < d ==> FoundWhole(scans[e], blocksize, |diskfiles[e]|, sources[e])
    decreases d
  {
    hide KnownBy, ScannedAs, IsSource, FoundWhole, Intact, Agrees;
    if d > 0 {
      var e := d - 1;
      SourcesFound(h, diskfiles, blocksize, table, targets, files, sources, scans, e);
      assert KnownBy(|table.nodes|, scans[..e], scans[e].before);
      NotYetKnown(h, diskfiles, blocksize, table.nodes, targets, files, sources, scans[..e], scans[e].before);
      SourceAgrees(h, diskfiles[e], blocksize, table.nodes, targets[e], files, sources[e]);
      IntactScan(h, diskfiles[e], blocksize, table, e, targets[e], files, scans[e], sources[e]);
    }
  }

  /** All blocks of these source files are located; and without further data files they are located where they
      start in their own. */
  ghost predicate InPlace(diskfiles: seq<seq<byte>>, blocksize: nat, sources: seq<Source>, located: seq<Location>)
    requires 0 < blocksize && |sources| <= |diskfiles|
  {
    forall d, k :: 0 <= d < |sources| && 0 <= k < SourceFiles.BlockCount(|diskfiles[d]|, blocksize) ==>
      BlockThere(blocksize, sources, located, d, k, |diskfiles|)
  }

  predicate BlockThere(blocksize: nat, sources: seq<Source>, located: seq<Location>, d: nat, k: nat, disks: nat)
    requires d < |sources|
  {
    var i := sources[d].first + k;
    && i < |located| && located[i].Somewhere?
    && (|sources| == disks ==> located[i] == Somewhere(d, SourceFiles.Start(blocksize, k)))
  }

  lemma {:induction false} BlockInPlace<S>(h: Compression<S>, diskfiles: seq<seq<byte>>, blocksize: nat,
                                           nodes: seq<VerificationHashEntry>, targets: seq<int>,
                                           files: seq<Description>, sources: seq<Source>, scans: seq<Scan>,
                                           location: Location, d: nat, k: nat)
    requires 0 < blocksize && AreSources(h, diskfiles, blocksize, nodes, targets, files, sources)
    requires |scans| == |diskfiles| && d < |sources| && k < SourceFiles.BlockCount(|diskfiles[d]|, blocksize)
    requires forall e :: 0 <= e < |sources| ==> FoundWhole(scans[e], blocksize, |diskfiles[e]|, sources[e])
    requires LocatedBy(scans, sources[d].first + k, location)
    ensures sources[d].first + k < |nodes| && location.Somewhere?
    ensures |sources| == |diskfiles| ==> location == Somewhere(d, SourceFiles.Start(blocksize, k))
  {
    hide IsSource, FoundWhole, SourceFiles.BlockCount, Matched, LastMatchOf;
    var i := sources[d].first + k;
    MatchOfSource(h, diskfiles[d], blocksize, nodes, targets[d], files, scans[d], sources[d], i);
    assert location.Somewhere?;
    var e := location.file;
    if |sources| == |diskfiles| {
      LastIsMatch(scans[e].last.matches, i, location.offset);
      MatchOfSource(h, diskfiles[e], blocksize, nodes, targets[e], files, scans[e], sources[e], i);
      assert e == d;
      LastInRow(scans[d], blocksize, |diskfiles[d]|, sources[d], k, location.offset);
    }
  }

  lemma {:induction false} LastIsMatch(matches: seq<Match>, i: nat, offset: nat)
    requires LastMatchOf(matches, i, offset)
    ensures Matched(matches, i)
  {
  }

  lemma {:induction false} LastInRow(x: Scan, blocksize: nat, filesize: nat, source: Source, k: nat, offset: nat)
    requires 0 < blocksize && FoundWhole(x, blocksize, filesize, source)
    requires LastMatchOf(x.last.matches, source.first + k, offset)
    ensures offset == SourceFiles.Start(blocksize, k)
  {
    hide SourceFiles.Start, SourceFiles.BlockCount, Matched;
  }

  /** Data files of which the first ones are undamaged source files, each another one: these are found to be complete,
      and all their blocks are located, in their own files if there are no others. */
  lemma {:induction false} SourcesInPlace<S>(h: Compression<S>, diskfiles: seq<seq<byte>>, blocksize: nat,
                                             table: VerificationHashTable, targets: seq<int>, files: seq<Description>,
                                             sources: seq<Source>, scans: seq<Scan>, located: seq<Location>,
                                             complete: set<nat>)
    requires 0 < blocksize && AllScanned(h, diskfiles, blocksize, table, targets, files, scans)
    requires |scans| == |diskfiles| && AllKnown(|table.nodes|, scans)
    requires |located| == |table.nodes| && AllLocated(scans, located)
    requires forall s :: s in complete <==> CompletedBy(scans, s)
    requires AreSources(h, diskfiles, blocksize, table.nodes, targets, files, sources)
    ensures InPlace(diskfiles, blocksize, sources, located)
    ensures forall d :: 0 <= d < |sources| ==> sources[d].file in complete
    ensures |sources| == |diskfiles| ==>
              forall s :: s in complete ==> exists d :: 0 <= d < |sources| && sources[d].file == s
  {
    hide ScannedAs, IsSource, FoundWhole, LocatedBy, SourceFiles.BlockCount, KnownBy;
    SourcesFound(h, diskfiles, blocksize, table, targets, files, sources, scans, |sources|);
    forall d, k | 0 <= d < |sources| && 0 <= k < SourceFiles.BlockCount(|diskfiles[d]|, blocksize)
      ensures BlockThere(blocksize, sources, located, d, k, |diskfiles|)
    {
      EntryThere(h, diskfiles[d], blocksize, table.nodes, targets[d], files, sources[d], k);
      assert LocatedBy(scans, sources[d].first + k, located[sources[d].first + k]);
      BlockInPlace(h, diskfiles, blocksize, table.nodes, targets, files, sources, scans,
                   located[sources[d].first + k], d, k);
    }
    forall d | 0 <= d < |sources|
      ensures scans[d].full && scans[d].last.sourcefile == sources[d].file
    {
      FileOf(scans[d], blocksize, |diskfiles[d]|, sources[d]);
    }
  }

  lemma {:induction false} EntryThere<S>(h: Compression<S>, file: seq<byte>, blocksize: nat,
                                         nodes: seq<VerificationHashEntry>, target: int, files: seq<Description>,
                                         source: Source, k: nat)
    requires 0 < blocksize && IsSource(h, file, blocksize, nodes, target, files, source)
    requires k < SourceFiles.BlockCount(|file|, blocksize)
    ensures source.first + k < |nodes| && nodes[source.first + k].block.sourcefile == source.file
  {
    hide SourceFiles.BlockCount, SameBlock, ScanRepair.Fits, EntryOf;
    assert EntryOf(h, file, blocksize, nodes, source.file, source.first, k);
    EntryFile(h, file, blocksize, nodes, source, k);
  }

  /** The block of an undamaged file can be read where it starts. */
  lemma {:induction false} BlockReadable<S>(h: Compression<S>, diskfiles: seq<seq<byte>>, blocksize: nat,
                                            nodes: seq<VerificationHashEntry>, target: int, files: seq<Description>,
                                            source: Source, d: nat, k: nat)
    requires 0 < blocksize && d < |diskfiles| && IsSource(h, diskfiles[d], blocksize, nodes, target, files, source)
    requires k < SourceFiles.BlockCount(|diskfiles[d]|, blocksize)
    ensures source.first + k < |nodes|
    ensures Readable(diskfiles, nodes[source.first + k].block.length, Somewhere(d, SourceFiles.Start(blocksize, k)))
  {
    hide SourceFiles.BlockCount, SourceFiles.Start, SameBlock, Identified, SourceFiles.PaddedBlock, ScanRepair.Fits;
    assert EntryOf(h, diskfiles[d], blocksize, nodes, source.file, source.first, k);
  }

  /** Verify data files of which the first ones are undamaged source files. */
  method VerifySources<S>(h: Compression<S>, diskfiles: seq<seq<byte>>, blocksize: nat, windowtable: seq<nat>,
                          windowmask: nat, table: VerificationHashTable, targets: seq<int>, files: seq<Description>,
                          ghost sources: seq<Source>)
    returns (located: seq<Location>, complete: set<nat>)
    requires 0 < blocksize && TablesFor(windowtable, windowmask, blocksize) && table.Valid()
    requires Lengths(table, blocksize)
    requires forall i :: 0 <= i < |table.nodes| ==> table.nodes[i].block.sourcefile < |files|
    requires |targets| == |diskfiles| && forall d :: 0 <= d < |targets| ==> -1 <= targets[d]
    requires AreSources(h, diskfiles, blocksize, table.nodes, targets, files, sources)
    ensures InPlace(diskfiles, blocksize, sources, located)
    ensures forall d :: 0 <= d < |sources| ==> sources[d].file in complete
    ensures |sources| == |diskfiles| ==>
              forall s :: s in complete ==> exists d :: 0 <= d < |sources| && sources[d].file == s
  {
    hide *;
    ghost var scans;
    located, complete, scans :=
      VerifyDataFiles(h, diskfiles, blocksize, windowtable, windowmask, table, targets, files);
    SourcesInPlace(h, diskfiles, blocksize, table, targets, files, sources, scans, located, complete);
  }
}
