/** From data files to repaired files (par2repairer.cpp, VerifyDataFile and ComputeRSmatrix): every data file is
    scanned, the locations of the blocks are recorded, and what was found there is what the repair reads. */
module ScanRepair {
  import opened Arithmetic
  import opened Bytes
  import opened Md5
  import opened VerificationTables
  import opened FileCheckSummers
  import opened Scans
  import Windows
  import opened ScanResults
  import opened Codes
  import opened Vandermonde
  import opened GaloisFields
  import opened LongMultiply
  import opened SourceFiles
  import opened Chunks
  import opened FileRepair
  import Polynomials

  /** The scan of one data file: what was known before it, the last values of its variables, its moves, and whether it
      was a full match. */
  datatype Scan = Scan(before: Status, last: Progress, moves: seq<nat>, full: bool)

  /** Where a block has been found, if anywhere: in which data file, and at which offset. */
  datatype Location = Nowhere | Somewhere(file: nat, offset: nat)

  /** The locations after recording the matches in data file d: the last match counts. */
  function Placed(located: seq<Location>, matches: seq<Match>, d: nat): (r: seq<Location>)
    ensures |r| == |located|
    decreases |matches|
  {
    if |matches| == 0 then located
    else
      var n := |matches| - 1;
      var before := Placed(located, matches[..n], d);
      if matches[n].entry < |before| then before[matches[n].entry := Somewhere(d, matches[n].offset)] else before
  }

  /** The last match of entry i is at the offset. */
  ghost predicate LastMatchOf(matches: seq<Match>, i: nat, offset: nat) {
    exists k: nat :: k < |matches| && matches[k] == Match(i, offset) && !Matched(matches[k + 1..], i)
  }

  /** If entry i is matched, its location is that of the last match, otherwise it is as before. */
  lemma {:induction false} PlacedFrom(located: seq<Location>, matches: seq<Match>, d: nat, i: nat)
    requires i < |located|
    ensures !Matched(matches, i) ==> Placed(located, matches, d)[i] == located[i]
    ensures Matched(matches, i) ==>
              var location := Placed(located, matches, d)[i];
              location.Somewhere? && location.file == d && LastMatchOf(matches, i, location.offset)
    decreases |matches|
  {
    hide Matched, LastMatchOf;
    if |matches| > 0 {
      var n := |matches| - 1;
      LastMatchNext(matches[..n], matches[n], i);
      assert matches == matches[..n] + [matches[n]];
      PlacedFrom(located, matches[..n], d, i);
    } else {
      NoneMatched(i);
    }
  }

  lemma {:induction false} NoneMatched(i: nat)
    ensures !Matched([], i)
  {
  }

  lemma {:induction false} LastMatchNext(matches: seq<Match>, m: Match, i: nat)
    ensures Matched(matches + [m], i) <==> Matched(matches, i) || m.entry == i
    ensures m.entry == i ==> LastMatchOf(matches + [m], i, m.offset)
    ensures m.entry != i ==>
              forall offset :: LastMatchOf(matches, i, offset) ==> LastMatchOf(matches + [m], i, offset)
  {
    MatchedNext(matches, m, i);
    hide LastMatchOf, Matched;
    if m.entry == i {
      LastIsLast(matches, m);
    } else {
      forall offset | LastMatchOf(matches, i, offset)
        ensures LastMatchOf(matches + [m], i, offset)
      {
        LastStillLast(matches, m, i, offset);
      }
    }
  }

  lemma {:induction false} MatchedNext(matches: seq<Match>, m: Match, i: nat)
    ensures Matched(matches + [m], i) <==> Matched(matches, i) || m.entry == i
  {
    var r := matches + [m];
    assert r[|matches|] == m;
    if Matched(matches, i) {
      var k :| 0 <= k < |matches| && matches[k].entry == i;
      assert r[k] == matches[k];
    }
  }

  lemma {:induction false} LastIsLast(matches: seq<Match>, m: Match)
    ensures LastMatchOf(matches + [m], m.entry, m.offset)
  {
    var r := matches + [m];
    assert r[|matches|] == m && r[|matches| + 1..] == [];
  }

  lemma {:induction false} LastStillLast(matches: seq<Match>, m: Match, i: nat, offset: nat)
    requires m.entry != i && LastMatchOf(matches, i, offset)
    ensures LastMatchOf(matches + [m], i, offset)
  {
    hide Matched;
    var r := matches + [m];
    var k: nat :| k < |matches| && matches[k] == Match(i, offset) && !Matched(matches[k + 1..], i);
    MatchedNext(matches[k + 1..], m, i);
    assert r[k] == matches[k] && r[k + 1..] == matches[k + 1..] + [m];
  }

  /** Nowhere: no scan has a match of entry i.  Somewhere: the last scan that has one is that of this data file, and
      its last match is at this offset. */
  ghost predicate LocatedBy(scans: seq<Scan>, i: nat, location: Location) {
    match location
    case Nowhere => NotBehind(scans, i, 0)
    case Somewhere(d, offset) =>
      d < |scans| && LastMatchOf(scans[d].last.matches, i, offset) && NotBehind(scans, i, d + 1)
  }

  /** No scan from d on has a match of entry i. */
  ghost predicate NotBehind(scans: seq<Scan>, i: nat, d: nat) {
    forall e :: d <= e < |scans| ==> !Matched(scans[e].last.matches, i)
  }

  ghost predicate AllLocated(scans: seq<Scan>, located: seq<Location>) {
    forall i :: 0 <= i < |located| ==> LocatedBy(scans, i, located[i])
  }

  lemma {:induction false} LocatedNext(scans: seq<Scan>, located: seq<Location>, x: Scan)
    requires AllLocated(scans, located)
    ensures AllLocated(scans + [x], Placed(located, x.last.matches, |scans|))
  {
    hide Placed, Matched, LastMatchOf;
    forall i | 0 <= i < |located|
      ensures LocatedBy(scans + [x], i, Placed(located, x.last.matches, |scans|)[i])
    {
      PlacedFrom(located, x.last.matches, |scans|, i);
      assert LocatedBy(scans, i, located[i]);
    }
  }

  /** The scan of that data file, with these moves, has seen the block at its location. */
  ghost predicate SeenAt<S>(h: Compression<S>, diskfiles: seq<seq<byte>>, blocksize: nat, block: Block,
                            scans: seq<Scan>, location: Location) {
    location.Somewhere? ==>
      && location.file < |diskfiles| && location.file < |scans|
      && Seen(h, diskfiles[location.file], blocksize, block, scans[location.file].moves, location.offset)
  }

  ghost predicate AllSeen<S>(h: Compression<S>, diskfiles: seq<seq<byte>>, blocksize: nat,
                             nodes: seq<VerificationHashEntry>, scans: seq<Scan>, located: seq<Location>) {
    && |located| == |nodes|
    && forall i :: 0 <= i < |located| ==> SeenAt(h, diskfiles, blocksize, nodes[i].block, scans, located[i])
  }

  lemma {:induction false} SeenStillAt<S>(h: Compression<S>, diskfiles: seq<seq<byte>>, blocksize: nat, block: Block,
                                          scans: seq<Scan>, location: Location, x: Scan)
    requires SeenAt(h, diskfiles, blocksize, block, scans, location)
    ensures SeenAt(h, diskfiles, blocksize, block, scans + [x], location)
  {
    hide Seen;
  }

  lemma {:induction false} AllSeenNext<S>(h: Compression<S>, diskfiles: seq<seq<byte>>, blocksize: nat,
                                          nodes: seq<VerificationHashEntry>, scans: seq<Scan>,
                                          located: seq<Location>, x: Scan)
    requires AllSeen(h, diskfiles, blocksize, nodes, scans, located) && |scans| < |diskfiles|
    requires var file := diskfiles[|scans|];
             AllGenuine(h, file, blocksize, nodes, x.last.matches, x.moves, |file|)
    ensures AllSeen(h, diskfiles, blocksize, nodes, scans + [x], Placed(located, x.last.matches, |scans|))
  {
    hide Seen, Expected, End, Placed, Matched;
    var d := |scans|;
    forall i | 0 <= i < |located|
      ensures SeenAt(h, diskfiles, blocksize, nodes[i].block, scans + [x], Placed(located, x.last.matches, d)[i])
    {
      PlacedFrom(located, x.last.matches, d, i);
      if !Matched(x.last.matches, i) {
        SeenStillAt(h, diskfiles, blocksize, nodes[i].block, scans, located[i], x);
      } else {
        var offset := Placed(located, x.last.matches, d)[i].offset;
        var k: nat :| k < |x.last.matches| && x.last.matches[k] == Match(i, offset);
        assert Genuine(h, diskfiles[d], blocksize, nodes, x.last.matches, x.moves, k);
      }
    }
  }

  /** A data file has the size and the hashes of source file s. */
  ghost predicate CompleteIn<S>(h: Compression<S>, diskfiles: seq<seq<byte>>, files: seq<Description>, s: nat) {
    s < |files| && exists d :: 0 <= d < |diskfiles| && Fits(h, diskfiles[d], files[s])
  }

  ghost predicate Fits<S>(h: Compression<S>, file: seq<byte>, description: Description) {
    && |file| == description.filesize && Md5.Hash(h, file) == description.hashfull
    && Md5.Hash(h, file[..Min(|file|, FIRST)]) == description.hash16k
  }

  /** What is known after the scan: the blocks recorded, and after a full match that the source file is complete. */
  function Known(x: Scan): Status {
    var status := x.last.status;
    if x.full && x.last.sourcefile >= 0 then
      Status(status.found, status.diskfile, status.complete + {x.last.sourcefile})
    else status
  }

  function Unknown(n: nat): Status {
    Status(seq(n, i => false), seq(n, i => 0), {})
  }

  /** The turns of the loop over data file d, and the rule for full matches. */
  ghost predicate ScannedAs<S>(h: Compression<S>, file: seq<byte>, blocksize: nat, table: VerificationHashTable, d: nat,
                               target: int, files: seq<Description>, x: Scan)
    requires 0 < blocksize
    reads table
  {
    && Turns(h, file, blocksize, table, d, true, Progress(FullMatch, target, -1, [], x.before), x.last, x.moves)
    && Windows.Total(x.moves) >= |file|
    && (x.full <==>
        && x.last.matchtype == FullMatch && 0 < |x.last.matches| && 0 <= x.last.sourcefile < |files|
        && Fits(h, file, files[x.last.sourcefile]) && |x.last.matches| == files[x.last.sourcefile].blockcount)
  }

  /** One scan after the other, each knowing what the ones before have found. */
  ghost predicate AllScanned<S>(h: Compression<S>, diskfiles: seq<seq<byte>>, blocksize: nat,
                                table: VerificationHashTable, targets: seq<int>, files: seq<Description>,
                                scans: seq<Scan>)
    requires 0 < blocksize
    reads table
  {
    && |scans| <= |diskfiles| == |targets|
    && forall d :: 0 <= d < |scans| ==>
         && ScannedAs(h, diskfiles[d], blocksize, table, d, targets[d], files, scans[d])
         && scans[d].before == KnownBefore(|table.nodes|, scans, d)
  }

  function KnownBefore(n: nat, scans: seq<Scan>, d: nat): Status
    requires d <= |scans|
  {
    if d == 0 then Unknown(n) else Known(scans[d - 1])
  }

  /** What is known after some scans: the entries matched in them count as found, in the last data file with a match,
      and the source files of full matches as complete. */
  ghost predicate KnownBy(n: nat, scans: seq<Scan>, status: Status) {
    && |status.found| == |status.diskfile| == n
    && (forall i :: 0 <= i < n ==> FoundBy(scans, i, status.found[i], status.diskfile[i]))
    && forall s :: s in status.complete <==> CompletedBy(scans, s)
  }

  ghost predicate FoundBy(scans: seq<Scan>, i: nat, found: bool, diskfile: int) {
    if found then
      0 <= diskfile < |scans| && Matched(scans[diskfile].last.matches, i) && NotBehind(scans, i, diskfile + 1)
    else NotBehind(scans, i, 0)
  }

  ghost predicate CompletedBy(scans: seq<Scan>, s: nat) {
    exists d :: 0 <= d < |scans| && scans[d].full && scans[d].last.sourcefile == s
  }

  lemma {:induction false} KnownNext(n: nat, scans: seq<Scan>, x: Scan)
    requires KnownBy(n, scans, x.before) && x.last.status == Recorded(x.before, x.last.matches, |scans|, true)
    ensures KnownBy(n, scans + [x], Known(x))
  {
    hide Matched, Recorded;
    var r := scans + [x];
    RecordedSizes(x.before, x.last.matches, |scans|, true);
    forall i | 0 <= i < n
      ensures FoundBy(r, i, Known(x).found[i], Known(x).diskfile[i])
    {
      RecordedIs(x.before, x.last.matches, |scans|, true, i);
      assert FoundBy(scans, i, x.before.found[i], x.before.diskfile[i]);
    }
    forall s
      ensures s in Known(x).complete <==> CompletedBy(r, s)
    {
      CompletedNext(scans, x, s);
    }
  }

  lemma {:induction false} CompletedNext(scans: seq<Scan>, x: Scan, s: nat)
    ensures CompletedBy(scans + [x], s) <==> CompletedBy(scans, s) || (x.full && x.last.sourcefile == s)
  {
    var r := scans + [x];
    assert r[|scans|] == x;
    if CompletedBy(scans, s) {
      var d :| 0 <= d < |scans| && scans[d].full && scans[d].last.sourcefile == s;
      assert r[d] == scans[d];
    }
  }

  /** Every scan has known this. */
  ghost predicate AllKnown(n: nat, scans: seq<Scan>) {
    forall d :: 0 <= d < |scans| ==> KnownBy(n, scans[..d], scans[d].before)
  }

  lemma {:induction false} AllKnownNext(n: nat, scans: seq<Scan>, x: Scan)
    requires AllKnown(n, scans) && KnownBy(n, scans, x.before)
    ensures AllKnown(n, scans + [x])
  {
    hide KnownBy;
    var r := scans + [x];
    forall d | 0 <= d < |r|
      ensures KnownBy(n, r[..d], r[d].before)
    {
      assert r[..d] == scans[..d] && (d == |scans| ==> scans[..d] == scans);
    }
  }

  lemma {:induction false} NextScanned<S>(h: Compression<S>, diskfiles: seq<seq<byte>>, blocksize: nat,
                                          table: VerificationHashTable, targets: seq<int>, files: seq<Description>,
                                          scans: seq<Scan>, x: Scan)
    requires 0 < blocksize && AllScanned(h, diskfiles, blocksize, table, targets, files, scans)
    requires |scans| < |diskfiles| && x.before == KnownBefore(|table.nodes|, scans, |scans|)
    requires ScannedAs(h, diskfiles[|scans|], blocksize, table, |scans|, targets[|scans|], files, x)
    ensures AllScanned(h, diskfiles, blocksize, table, targets, files, scans + [x])
    ensures KnownBefore(|table.nodes|, scans + [x], |scans| + 1) == Known(x)
  {
    hide ScannedAs;
    var r := scans + [x];
    forall d | 0 <= d < |r|
      ensures ScannedAs(h, diskfiles[d], blocksize, table, d, targets[d], files, r[d])
      ensures r[d].before == KnownBefore(|table.nodes|, r, d)
    {
      if d < |scans| {
        assert r[d] == scans[d];
        assert ScannedAs(h, diskfiles[d], blocksize, table, d, targets[d], files, scans[d]);
      }
    }
  }

  /** Scan the data files, each for the source file it is the target of, if any.  A block is located where the last
      match of it was; and a source file is complete only if a data file has its size and hashes. */
  method VerifyDataFiles<S>(h: Compression<S>, diskfiles: seq<seq<byte>>, blocksize: nat, windowtable: seq<nat>,
                            windowmask: nat, table: VerificationHashTable, targets: seq<int>, files: seq<Description>)
    returns (located: seq<Location>, complete: set<nat>, ghost scans: seq<Scan>)
    requires 0 < blocksize && TablesFor(windowtable, windowmask, blocksize) && table.Valid()
    requires Lengths(table, blocksize)
    requires forall i :: 0 <= i < |table.nodes| ==> table.nodes[i].block.sourcefile < |files|
    requires |targets| == |diskfiles| && forall d :: 0 <= d < |targets| ==> -1 <= targets[d]
    ensures |scans| == |diskfiles| && AllScanned(h, diskfiles, blocksize, table, targets, files, scans)
    ensures |located| == |table.nodes| && AllLocated(scans, located)
    ensures AllKnown(|table.nodes|, scans) && forall s :: s in complete <==> CompletedBy(scans, s)
    ensures AllSeen(h, diskfiles, blocksize, table.nodes, scans, located)
    ensures forall s :: s in complete ==> CompleteIn(h, diskfiles, files, s)
  {
    hide *;
    ghost var nodes := table.nodes;
    located := seq(|table.nodes|, i => Nowhere);
    var status := Unknown(|table.nodes|);
    scans := [];
    NothingSeen(h, diskfiles, blocksize, table, targets, files, located);
    for d := 0 to |diskfiles|
      invariant |scans| == d && AllSeen(h, diskfiles, blocksize, nodes, scans, located)
      invariant AllScanned(h, diskfiles, blocksize, table, targets, files, scans)
      invariant |located| == |nodes| && AllLocated(scans, located)
      invariant status == KnownBefore(|nodes|, scans, d) && KnownBy(|nodes|, scans, status) && AllKnown(|nodes|, scans)
      invariant |status.found| == |status.diskfile| == |nodes|
      invariant forall s :: s in status.complete ==> CompleteIn(h, diskfiles, files, s)
    {
      var matchtype, sourcefile, hashfull, hash16k, matches, after;
      ghost var moves, last;
      matchtype, sourcefile, hashfull, hash16k, matches, after, moves, last :=
        ScanDataFile(h, diskfiles[d], blocksize, windowtable, windowmask, table, status, d, true, targets[d], files);
      ghost var x := Scan(status, last, moves, matchtype == FullMatch);
      IsScanned(h, diskfiles[d], blocksize, table, d, targets[d], files, x, hashfull, hash16k);
      AllSeenNext(h, diskfiles, blocksize, nodes, scans, located, x);
      LocatedNext(scans, located, x);
      KnownNext(|nodes|, scans, x);
      AllKnownNext(|nodes|, scans, x);
      NextScanned(h, diskfiles, blocksize, table, targets, files, scans, x);
      RecordedSizes(status, matches, d, true);
      KnownIs(h, diskfiles, files, x, d);
      located := Placed(located, matches, d);
      scans := scans + [x];
      status := after;
      if matchtype == FullMatch {
        status := Status(after.found, after.diskfile, after.complete + {sourcefile});
      }
    }
    CompleteIs(|nodes|, scans, status);
    complete := status.complete;
  }

  lemma {:induction false} CompleteIs(n: nat, scans: seq<Scan>, status: Status)
    requires KnownBy(n, scans, status)
    ensures forall s :: s in status.complete <==> CompletedBy(scans, s)
  {
  }

  lemma {:induction false} IsScanned<S>(h: Compression<S>, file: seq<byte>, blocksize: nat,
                                        table: VerificationHashTable, d: nat, target: int, files: seq<Description>,
                                        x: Scan, hashfull: seq<byte>, hash16k: seq<byte>)
    requires 0 < blocksize
    requires Turns(h, file, blocksize, table, d, true, Progress(FullMatch, target, -1, [], x.before), x.last, x.moves)
    requires Windows.Total(x.moves) >= |file|
    requires |file| > 0 ==> hashfull == Md5.Hash(h, file) && hash16k == Md5.Hash(h, file[..Min(|file|, FIRST)])
    requires |file| == 0 ==> |x.last.matches| == 0
    requires x.full <==>
               && x.last.matchtype == FullMatch && 0 < |x.last.matches| && 0 <= x.last.sourcefile < |files|
               && files[x.last.sourcefile] == Description(|x.last.matches|, |file|, hashfull, hash16k)
    ensures ScannedAs(h, file, blocksize, table, d, target, files, x)
    ensures x.full ==> 0 <= x.last.sourcefile < |files| && Fits(h, file, files[x.last.sourcefile])
  {
    hide Turns, Md5.Hash, Windows.Total;
  }

  lemma {:induction false} KnownIs<S>(h: Compression<S>, diskfiles: seq<seq<byte>>, files: seq<Description>, x: Scan,
                                      d: nat)
    requires d < |diskfiles| && (x.full ==> 0 <= x.last.sourcefile < |files|)
    requires x.full ==> Fits(h, diskfiles[d], files[x.last.sourcefile])
    ensures Known(x).found == x.last.status.found && Known(x).diskfile == x.last.status.diskfile
    ensures Known(x).complete ==
            if x.full then x.last.status.complete + {x.last.sourcefile} else x.last.status.complete
    ensures x.full ==> CompleteIn(h, diskfiles, files, x.last.sourcefile)
  {
    hide Fits;
  }

  lemma {:induction false} NothingSeen<S>(h: Compression<S>, diskfiles: seq<seq<byte>>, blocksize: nat,
                                          table: VerificationHashTable, targets: seq<int>, files: seq<Description>,
                                          located: seq<Location>)
    requires 0 < blocksize && |targets| == |diskfiles| && located == seq(|table.nodes|, i => Nowhere)
    ensures AllSeen(h, diskfiles, blocksize, table.nodes, [], located)
    ensures AllScanned(h, diskfiles, blocksize, table, targets, files, []) && AllLocated([], located)
    ensures var status := Unknown(|table.nodes|);
            && status == KnownBefore(|table.nodes|, [], 0) && status.complete == {}
            && |status.found| == |status.diskfile| == |table.nodes|
            && KnownBy(|table.nodes|, [], status) && AllKnown(|table.nodes|, [])
  {
    hide Seen;
  }

  // ----- The repair -----

  function Present(located: seq<Location>): (r: seq<bool>)
    ensures |r| == |located| && forall i :: 0 <= i < |r| ==> (r[i] <==> located[i].Somewhere?)
  {
    seq(|located|, i requires 0 <= i < |located| => located[i].Somewhere?)
  }

  /** The data file reaches to the end of the block. */
  ghost predicate Readable(diskfiles: seq<seq<byte>>, length: nat, location: Location) {
    location.Somewhere? ==>
      location.file < |diskfiles| && location.offset + length <= |diskfiles[location.file]|
  }

  ghost predicate AllReadable(diskfiles: seq<seq<byte>>, nodes: seq<VerificationHashEntry>, located: seq<Location>)
    requires |located| == |nodes|
  {
    forall i :: 0 <= i < |located| ==> Readable(diskfiles, nodes[i].block.length, located[i])
  }

  /** The data describes the block, and where the scan has seen it there is no collision. */
  ghost predicate Trusted<S>(h: Compression<S>, diskfiles: seq<seq<byte>>, blocksize: nat, block: Block,
                             scans: seq<Scan>, location: Location, data: seq<byte>) {
    location.Somewhere? ==>
      && location.file < |diskfiles| && location.file < |scans| && Describes(h, blocksize, block, data)
      && NoCollisionAt(h, diskfiles[location.file], blocksize, block, data, scans[location.file].moves, location.offset)
  }

  /** What is read at a location is the data. */
  lemma {:induction false} ReadsData<S>(h: Compression<S>, diskfiles: seq<seq<byte>>, blocksize: nat, block: Block,
                                        scans: seq<Scan>, location: Location, data: seq<byte>)
    requires location.Somewhere? && SeenAt(h, diskfiles, blocksize, block, scans, location)
    requires Trusted(h, diskfiles, blocksize, block, scans, location, data)
    requires Readable(diskfiles, block.length, location)
    ensures location.file < |diskfiles|
    ensures var input := InputBlock(diskfiles[location.file], DataBlock(location.offset, block.length));
            input.Valid(blocksize) && input.Content() == data
  {
    hide Identified, Scans.Holds, NoCollisionHere, Windows.Inside, Windows.Total, Windows.Window, InFile;
    var file, moves := diskfiles[location.file], scans[location.file].moves;
    var i: nat :| i <= |moves| && SeenAfter(h, file, blocksize, block, moves[..i], location.offset);
    assert LedTo(file, blocksize, moves[..i], location.offset);
    SeenMatch(h, file, blocksize, block, moves[..i], location.offset, data);
  }

  /** The blocks that the repair reads, if all of them can be read. */
  method LocatedBlocks(diskfiles: seq<seq<byte>>, nodes: seq<VerificationHashEntry>, located: seq<Location>)
    returns (ok: bool, found: seq<InputBlock>)
    requires |located| == |nodes|
    ensures ok <==> AllReadable(diskfiles, nodes, located)
    ensures ok ==> ReadFrom(diskfiles, nodes, located, found, Indices(Present(located), |located|, true))
  {
    found := [];
    for i := 0 to |located|
      invariant forall j :: 0 <= j < i ==> Readable(diskfiles, nodes[j].block.length, located[j])
      invariant ReadFrom(diskfiles, nodes, located, found, Indices(Present(located), i, true))
    {
      if located[i].Somewhere? {
        var d, offset, length := located[i].file, located[i].offset, nodes[i].block.length;
        if d >= |diskfiles| || |diskfiles[d]| < offset + length {
          assert !Readable(diskfiles, nodes[i].block.length, located[i]);
          return false, found;
        }
        found := found + [InputBlock(diskfiles[d], DataBlock(offset, length))];
      }
    }
    ok := true;
  }

  ghost predicate ReadFrom(diskfiles: seq<seq<byte>>, nodes: seq<VerificationHashEntry>, located: seq<Location>,
                           found: seq<InputBlock>, idx: seq<nat>)
    requires |located| == |nodes|
  {
    && |found| == |idx|
    && forall k :: 0 <= k < |found| ==>
         && idx[k] < |located| && located[idx[k]].Somewhere? && located[idx[k]].file < |diskfiles|
         && found[k] == InputBlock(diskfiles[located[idx[k]].file],
                                   DataBlock(located[idx[k]].offset, nodes[idx[k]].block.length))
  }

  lemma {:induction false} FoundLocated<S>(h: Compression<S>, diskfiles: seq<seq<byte>>, blocksize: nat,
                                           nodes: seq<VerificationHashEntry>, scans: seq<Scan>,
                                           located: seq<Location>, data: seq<seq<byte>>, found: seq<InputBlock>,
                                           idx: seq<nat>)
    requires AllSeen(h, diskfiles, blocksize, nodes, scans, located) && |data| == |nodes|
    requires forall i :: 0 <= i < |located| ==>
               Trusted(h, diskfiles, blocksize, nodes[i].block, scans, located[i], data[i])
    requires AllReadable(diskfiles, nodes, located) && ReadFrom(diskfiles, nodes, located, found, idx)
    ensures FileRepair.Found(found, data, idx, blocksize)
  {
    hide SeenAt, Trusted;
    forall k | 0 <= k < |found|
      ensures found[k].Valid(blocksize) && found[k].Content() == data[idx[k]]
    {
      var i := idx[k];
      assert Readable(diskfiles, nodes[i].block.length, located[i]);
      ReadsData(h, diskfiles, blocksize, nodes[i].block, scans, located[i], data[i]);
    }
  }

  /** Repair from what the scans have located, and recovery packets: the targets end up with the data of all blocks,
      exactly if every location can be read and the matrix can be solved. */
  method RepairLocated<S>(h: Compression<S>, t: GaloisLongMultiplyTable, bases: seq<Element16>,
                          diskfiles: seq<seq<byte>>, nodes: seq<VerificationHashEntry>, located: seq<Location>,
                          packets: seq<Packet>, copies: seq<Target>, outputs: seq<Target>, blocksize: nat,
                          memorylimit: nat, ghost scans: seq<Scan>, ghost data: seq<seq<byte>>) returns (ok: bool)
    requires AllSeen(h, diskfiles, blocksize, nodes, scans, located) && |data| == |nodes| == |bases|
    requires forall i :: 0 <= i < |located| ==>
               Trusted(h, diskfiles, blocksize, nodes[i].block, scans, located[i], data[i])
    requires t.Valid() && t.bytes == 2 && t.g == Polynomials.GALOIS16 && Clear(t, copies + outputs)
    requires |Indices(Present(located), |located|, false)| <= |packets| && PacketsHold(packets, bases, data, blocksize)
    requires TargetsFit(copies, data, Indices(Present(located), |located|, true))
    requires TargetsFit(outputs, data, Indices(Present(located), |located|, false))
    requires IsBlockSize(blocksize) && Separate(copies + outputs, blocksize) && Times(4, |outputs|) <= memorylimit
    modifies Files(copies + outputs)
    ensures ok <==> AllReadable(diskfiles, nodes, located) &&
                    Solvable(FIELD16, RepairProblem(bases, Present(located), packets))
    ensures ok ==> AllRestored(copies, data, Indices(Present(located), |located|, true))
    ensures ok ==> AllRestored(outputs, data, Indices(Present(located), |located|, false))
    ensures Untouched(copies + outputs)
  {
    hide SeenAt, Trusted, GaloisLongMultiplyTable.Valid, Clear, Separate, Outside, PacketsHold, Indices, Solvable,
         Restored, ReadFrom, FileRepair.Found, AllReadable, TargetsFit;
    var found;
    ok, found := LocatedBlocks(diskfiles, nodes, located);
    if !ok {
      return;
    }
    FoundLocated(h, diskfiles, blocksize, nodes, scans, located, data, found,
                 Indices(Present(located), |located|, true));
    ok := RepairFiles(t, bases, Present(located), found, packets, copies, outputs, blocksize, memorylimit, data);
  }
}
