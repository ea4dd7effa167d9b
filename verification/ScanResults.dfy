/** What the scan of a data file gives to the repair (par2repairer.cpp): which matches lie in the file and are the
    blocks, an undamaged file from its description to a full match, and a truncated file for which a match is
    reported that does not lie in it. */
module ScanResults {
  import opened Arithmetic
  import opened Bytes
  import opened Crc
  import opened Md5
  import opened VerificationTables
  import opened FileCheckSummers
  import opened ShortWindows
  import opened Scans
  import Windows
  import SourceFiles
  import Chunks
  import FileRepair

  // ----- Matches in the file -----

  /** Where the scan looked at that offset, it did not take other data for the block by a collision of both crc and
      hash. */
  ghost predicate NoCollisionAt<S>(h: Compression<S>, file: seq<byte>, blocksize: nat, block: Block, data: seq<byte>,
                                   moves: seq<nat>, offset: nat)
    requires |data| == block.length <= blocksize
  {
    forall i: nat :: i <= |moves| && LedTo(file, blocksize, moves[..i], offset) ==>
                       NoCollisionHere(h, file, blocksize, block, data, moves[..i])
  }

  predicate LedTo(file: seq<byte>, blocksize: nat, moves: seq<nat>, offset: nat) {
    0 < blocksize && Windows.Inside(|file|, blocksize, moves) && Windows.Total(moves) == offset
  }

  /** Neither the window after the moves, nor as much of it as the block is long and zeros, collides with the data. */
  ghost predicate NoCollisionHere<S>(h: Compression<S>, file: seq<byte>, blocksize: nat, block: Block, data: seq<byte>,
                                     moves: seq<nat>)
    requires 0 < blocksize && Windows.Inside(|file|, blocksize, moves) && |data| == block.length <= blocksize
  {
    var window := Windows.Window(file, blocksize, moves);
    && NoCollision(h, blocksize, block, data, window)
    && NoCollision(h, blocksize, block, data, PaddedTo(window[..block.length], blocksize))
  }

  /** Match k of a whole block is the block in the file exactly if the file reaches that far, as it does
      unless the match was expected. */
  lemma {:induction false} WholeMatch<S>(h: Compression<S>, file: seq<byte>, blocksize: nat,
                                         nodes: seq<VerificationHashEntry>, matches: seq<Match>, moves: seq<nat>,
                                         k: nat)
    requires AllGenuine(h, file, blocksize, nodes, matches, moves, |file|) && k < |matches|
    ensures var m := matches[k];
            && m.entry < |nodes|
            && (nodes[m.entry].block.length == blocksize ==>
                  && (InFile(h, file, blocksize, nodes[m.entry].block, m.offset) <==>
                      m.offset + nodes[m.entry].block.length <= |file|)
                  && (!Expected(nodes, matches, k) ==> InFile(h, file, blocksize, nodes[m.entry].block, m.offset)))
  {
    hide Seen, InFile, Expected, End;
    assert Genuine(h, file, blocksize, nodes, matches, moves, k);
    var m := matches[k];
    if nodes[m.entry].block.length == blocksize {
      Scans.WholeBlock(h, file, blocksize, nodes[m.entry].block, moves, m.offset);
    }
  }

  /** A match of a block of any length, if it is not a collision, is the block in the file exactly if the file
      reaches that far, and then the bytes there are the data. */
  lemma {:induction false} MatchInFile<S>(h: Compression<S>, file: seq<byte>, blocksize: nat,
                                          nodes: seq<VerificationHashEntry>, matches: seq<Match>, moves: seq<nat>,
                                          k: nat, data: seq<byte>)
    requires AllGenuine(h, file, blocksize, nodes, matches, moves, |file|) && k < |matches|
    requires matches[k].entry < |nodes| && Describes(h, blocksize, nodes[matches[k].entry].block, data)
    requires NoCollisionAt(h, file, blocksize, nodes[matches[k].entry].block, data, moves, matches[k].offset)
    ensures var m := matches[k]; var block := nodes[m.entry].block;
            && (InFile(h, file, blocksize, block, m.offset) <==> m.offset + block.length <= |file|)
            && (m.offset + block.length <= |file| ==> file[m.offset..m.offset + block.length] == data)
            && (!Expected(nodes, matches, k) ==> InFile(h, file, blocksize, block, m.offset))
  {
    hide Holds, InFile, Expected, End, Identified, NoCollisionHere, Windows.Inside, Windows.Total, Windows.Window;
    assert Genuine(h, file, blocksize, nodes, matches, moves, k);
    var m := matches[k];
    var block := nodes[m.entry].block;
    var i: nat :| i <= |moves| && SeenAfter(h, file, blocksize, block, moves[..i], m.offset);
    assert LedTo(file, blocksize, moves[..i], m.offset);
    SeenMatch(h, file, blocksize, block, moves[..i], m.offset, data);
  }

  lemma {:induction false} SeenMatch<S>(h: Compression<S>, file: seq<byte>, blocksize: nat, block: Block,
                                        moves: seq<nat>, offset: nat, data: seq<byte>)
    requires 0 < blocksize && SeenAfter(h, file, blocksize, block, moves, offset)
    requires Describes(h, blocksize, block, data) && NoCollisionHere(h, file, blocksize, block, data, moves)
    ensures InFile(h, file, blocksize, block, offset) <==> offset + block.length <= |file|
    ensures offset + block.length <= |file| ==> file[offset..offset + block.length] == data
  {
    hide InFile, NoCollision, Identified, Windows.Window, Windows.Inside, Windows.Total, Holds, Behind;
    MatchIsData(h, file, blocksize, block, moves, data);
  }

  /** So what the scan has found can be read by the repair, as the blocks of the data, unless the bytes found are
      themselves a collision. */
  lemma {:induction false} FoundByScan<S>(h: Compression<S>, blocksize: nat, nodes: seq<VerificationHashEntry>,
                                          data: seq<seq<byte>>, found: seq<Chunks.InputBlock>, idx: seq<nat>)
    requires |data| == |nodes| && |found| == |idx|
    requires forall k :: 0 <= k < |idx| ==>
               idx[k] < |nodes| && FoundAs(h, blocksize, nodes[idx[k]].block, found[k], data[idx[k]])
    ensures FileRepair.Found(found, data, idx, blocksize)
  {
    hide FoundAs;
    forall k | 0 <= k < |found|
      ensures found[k].Valid(blocksize) && found[k].Content() == data[idx[k]]
    {
      FoundContent(h, blocksize, nodes[idx[k]].block, found[k], data[idx[k]]);
    }
  }

  /** The location that is recorded for a block that was found. */
  ghost predicate FoundAt<S>(h: Compression<S>, blocksize: nat, block: Block, input: Chunks.InputBlock) {
    input.block.length == block.length && InFile(h, input.file, blocksize, block, input.block.offset)
  }

  /** The bytes at that location are not taken for the data by a collision of both crc and hash. */
  ghost predicate FoundAs<S>(h: Compression<S>, blocksize: nat, block: Block, input: Chunks.InputBlock,
                             data: seq<byte>) {
    && FoundAt(h, blocksize, block, input) && Describes(h, blocksize, block, data)
    && NoCollision(h, blocksize, block, data, PaddedTo(input.Content(), blocksize))
  }

  lemma {:induction false} FoundContent<S>(h: Compression<S>, blocksize: nat, block: Block, input: Chunks.InputBlock,
                                           data: seq<byte>)
    requires FoundAs(h, blocksize, block, input, data)
    ensures input.Valid(blocksize) && input.Content() == data
  {
    hide Identified;
    var content := input.Content();
    assert PaddedTo(content, blocksize)[..block.length] == content;
    assert PaddedTo(data, blocksize)[..block.length] == data;
  }

  // ----- Which matches reach past the end -----

  /** Before the scan looks: an entry that is found fits what is left of the file, unless it is the one expected,
      as the last one of its file, and that has been suggested although it is longer. */
  lemma {:induction false} FitsExactly<S>(h: Compression<S>, file: seq<byte>, blocksize: nat,
                                          table: VerificationHashTable, p: Progress, diskfile: int, moves: seq<nat>,
                                          w: Window, entry: int, duplicate: bool)
    requires 0 < blocksize && Windows.Inside(|file|, blocksize, moves) && Lengths(table, blocksize)
    requires -1 <= p.nextentry < |table.nodes| == |p.status.found| == |p.status.diskfile|
    requires Looked(h, file, blocksize, table, p, diskfile, moves, w, entry, duplicate) && 0 <= entry < |table.nodes|
    ensures Windows.Total(moves) + table.nodes[entry].block.length <= |file| <==>
            !(table.Suggests(p.nextentry, p.status, w) &&
              Windows.Total(moves) + table.nodes[p.nextentry].block.length > |file|)
  {
    hide Checksum, Md5.Hash, HashNumber, Windows.Window, Windows.Inside, Windows.Total;
    if !table.Suggests(p.nextentry, p.status, w) {
      table.AnswerFits(p.nextentry, p.sourcefile, p.status, w, entry, duplicate);
    }
    hide VerificationHashTable.OtherAnswer;
  }

  /** The expected last block of a source file, where it is longer than what is left of the data file: barring a
      collision at this window, it is reported exactly if the rest of the file is the start of its data and what
      the moves have left behind the end of the file is the rest. */
  lemma {:induction false} PastTheEndExactly<S>(h: Compression<S>, file: seq<byte>, blocksize: nat,
                                                table: VerificationHashTable, p: Progress, diskfile: int,
                                                moves: seq<nat>, w: Window, entry: int, duplicate: bool,
                                                data: seq<byte>)
    requires 0 < blocksize && Windows.Inside(|file|, blocksize, moves)
    requires 0 <= p.nextentry < |table.nodes| == |p.status.found| == |p.status.diskfile|
    requires Looked(h, file, blocksize, table, p, diskfile, moves, w, entry, duplicate)
    requires var e := table.nodes[p.nextentry];
             && e.next == -1 && Describes(h, blocksize, e.block, data) && Windows.Total(moves) + |data| > |file|
             && NoCollision(h, blocksize, e.block, data,
                            PaddedTo(Windows.Window(file, blocksize, moves)[..|data|], blocksize))
    ensures var left := |file| - Windows.Total(moves);
            && left < |data| <= left + |Behind(file, blocksize, moves)|
            && (entry == p.nextentry <==>
                data == file[Windows.Total(moves)..] + Behind(file, blocksize, moves)[..|data| - left])
  {
    hide Checksum, Md5.Hash, HashNumber, Windows.Window, Windows.Inside, Windows.Total, Behind;
    WindowIs(file, blocksize, moves);
    var offset, window := Windows.Total(moves), Windows.Window(file, blocksize, moves);
    var behind, block := Behind(file, blocksize, moves), table.nodes[p.nextentry].block;
    FrontIs(file[offset..], behind, |data|);
    assert Wanted(file, blocksize, offset) == file[offset..];
    assert PaddedTo(data, blocksize)[..|data|] == data;
    assert PaddedTo(window[..|data|], blocksize)[..|data|] == window[..|data|];
    assert table.Suggests(p.nextentry, p.status, w) <==> Identified(h, block, PaddedTo(window[..|data|], blocksize));
    if !table.Suggests(p.nextentry, p.status, w) && entry == p.nextentry {
      table.AnswerFits(p.nextentry, p.sourcefile, p.status, w, entry, duplicate);
    }
    hide VerificationHashTable.OtherAnswer;
  }

  lemma {:induction false} FrontIs(s: seq<byte>, t: seq<byte>, n: nat)
    requires |s| <= n <= |s| + |t|
    ensures (s + t)[..n] == s + t[..n - |s|]
  {
  }

  // ----- From the description to the full match -----

  /** The entries of the verification packet describe the file. */
  ghost predicate Describe<S>(h: Compression<S>, file: seq<byte>, blocksize: nat, entries: seq<VerificationEntry>)
    requires 0 < blocksize
  {
    && |entries| == SourceFiles.BlockCount(|file|, blocksize)
    && forall k :: 0 <= k < |entries| ==>
         && SourceFiles.Start(blocksize, k) < |file|
         && entries[k].length == SourceFiles.BlockOf(|file|, blocksize, k).length
         && var e := SourceFiles.EntryFor(h, file, blocksize, k);
            entries[k].crc == e.crc && entries[k].hash == HashNumber(e.hash)
  }

  /** Describe a file, load the description into the table, and scan the unchanged file as its own target: it is
      a full match, and all its blocks are found where they are. */
  method DescribeThenScan<S>(h: Compression<S>, file: seq<byte>, blocksize: nat, windowtable: seq<nat>, windowmask: nat,
                             table: VerificationHashTable, s: nat, entries: seq<VerificationEntry>, status: Status,
                             diskfile: int, recording: bool, files: seq<Description>)
    returns (matchtype: MatchType, sourcefile: int, matches: seq<Match>)
    requires 0 < blocksize && TablesFor(windowtable, windowmask, blocksize) && 0 < |file|
    requires table.Valid() && Lengths(table, blocksize) && Describe(h, file, blocksize, entries) && s < |files|
    requires files[s] == Description(|entries|, |file|, Md5.Hash(h, file), Md5.Hash(h, file[..Min(|file|, FIRST)]))
    requires forall i :: 0 <= i < |table.nodes| ==> table.nodes[i].block.sourcefile < |files| &&
                                                    table.nodes[i].block.sourcefile != s
    requires |status.found| == |status.diskfile| == |table.nodes| + |entries| && s !in status.complete
    requires forall k :: |table.nodes| <= k < |status.found| ==> !status.found[k]
    modifies table
    ensures matchtype == FullMatch && sourcefile == s
    ensures matches == Row(blocksize, |old(table.nodes)|, |entries|)
  {
    hide *;
    ghost var first := |table.nodes|;
    LengthsOf(table, blocksize);
    table.Load(s, entries);
    LoadedIntact(h, file, blocksize, table, status, diskfile, s, first, entries);
    var hashfull, hash16k, after;
    ghost var moves, last;
    matchtype, sourcefile, hashfull, hash16k, matches, after, moves, last :=
      ScanDataFile(h, file, blocksize, windowtable, windowmask, table, status, diskfile, recording, s, files);
    ReportedFor(h, file, blocksize, table.nodes, status, diskfile, s, files, matchtype, sourcefile,
                (hashfull, hash16k), matches, first);
  }

  lemma {:induction false} LengthsOf(table: VerificationHashTable, blocksize: nat)
    requires Lengths(table, blocksize)
    ensures forall i :: 0 <= i < |table.nodes| ==> 0 < table.nodes[i].block.length <= blocksize
  {
  }

  lemma {:induction false} LoadedIntact<S>(h: Compression<S>, file: seq<byte>, blocksize: nat,
                                           table: VerificationHashTable, status: Status, diskfile: int, s: nat,
                                           first: nat, entries: seq<VerificationEntry>)
    requires 0 < blocksize && 0 < |file| && Describe(h, file, blocksize, entries) && |table.nodes| == first + |entries|
    requires forall i :: 0 <= i < first ==>
               0 < table.nodes[i].block.length <= blocksize && table.nodes[i].block.sourcefile != s
    requires forall k :: first <= k < |table.nodes| ==>
               && table.nodes[k].block == BlockFor(s, entries, k - first)
               && table.nodes[k].next == if k + 1 < |table.nodes| then k + 1 else -1
    requires |status.found| == |status.diskfile| == |table.nodes| && s !in status.complete
    requires forall k :: first <= k < |status.found| ==> !status.found[k]
    ensures Intact(h, file, blocksize, table.nodes, status, diskfile, s, s, first) && Lengths(table, blocksize)
    ensures |entries| == SourceFiles.BlockCount(|file|, blocksize)
    ensures forall k :: first <= k < |table.nodes| ==> table.nodes[k].block.sourcefile == s
  {
    hide EntryOf, SameBlock, SourceFiles.Start, SourceFiles.BlockCount, SourceFiles.BlockOf, SourceFiles.EntryFor;
    SourceFiles.StartNext(blocksize, 0);
    SourceFiles.BlockStarts(|file|, blocksize, 0);
    forall k | 0 <= k < |entries|
      ensures EntryOf(h, file, blocksize, table.nodes, s, first, k)
      ensures Available(table.nodes, status, diskfile, first, k)
    {
      LoadedEntry(h, file, blocksize, table.nodes, s, first, entries, k);
    }
    forall i | first <= i < |table.nodes|
      ensures 0 < table.nodes[i].block.length <= blocksize
    {
      LoadedEntry(h, file, blocksize, table.nodes, s, first, entries, i - first);
    }
  }

  lemma {:induction false} LoadedEntry<S>(h: Compression<S>, file: seq<byte>, blocksize: nat,
                                          nodes: seq<VerificationHashEntry>, s: nat, first: nat,
                                          entries: seq<VerificationEntry>, k: nat)
    requires 0 < blocksize && Describe(h, file, blocksize, entries) && k < |entries| && first + k < |nodes|
    requires nodes[first + k].block == BlockFor(s, entries, k)
    requires nodes[first + k].next == if k + 1 < |entries| then first + k + 1 else -1
    ensures EntryOf(h, file, blocksize, nodes, s, first, k) && 0 < nodes[first + k].block.length <= blocksize
  {
    hide Describe, Identified, SourceFiles.Start, SourceFiles.BlockCount, SourceFiles.BlockOf, SourceFiles.PaddedBlock;
    EntryDescribes(h, file, blocksize, entries, k, BlockFor(s, entries, k));
  }

  lemma {:induction false} EntryDescribes<S>(h: Compression<S>, file: seq<byte>, blocksize: nat,
                                             entries: seq<VerificationEntry>, k: nat, block: Block)
    requires 0 < blocksize && Describe(h, file, blocksize, entries) && k < |entries|
    requires block.crc == entries[k].crc && block.hash == entries[k].hash
    ensures SourceFiles.Start(blocksize, k) < |file| && 0 < entries[k].length <= blocksize
    ensures entries[k].length == SourceFiles.BlockOf(|file|, blocksize, k).length
    ensures |entries| == SourceFiles.BlockCount(|file|, blocksize)
    ensures Identified(h, block, SourceFiles.PaddedBlock(file, blocksize, k))
  {
    hide SourceFiles.Start, SourceFiles.BlockCount, Md5.Hash, Checksum, HashNumber;
  }

  lemma {:induction false} ReportedFor<S>(h: Compression<S>, file: seq<byte>, blocksize: nat,
                                          nodes: seq<VerificationHashEntry>, status: Status, diskfile: int, s: nat,
                                          files: seq<Description>, matchtype: MatchType, sourcefile: int,
                                          hashes: (seq<byte>, seq<byte>), matches: seq<Match>, first: nat)
    requires 0 < blocksize && Intact(h, file, blocksize, nodes, status, diskfile, s, s, first) && s < |files|
    requires Reported(h, file, blocksize, nodes, status, diskfile, s, files, matchtype, sourcefile, hashes, matches)
    requires files[s] == Description(SourceFiles.BlockCount(|file|, blocksize), |file|, hashes.0, hashes.1)
    ensures matchtype == FullMatch && sourcefile == s
    ensures matches == Row(blocksize, first, SourceFiles.BlockCount(|file|, blocksize))
  {
    hide Intact, SourceFiles.BlockCount;
  }

  /** The blocks of an undamaged file lie in it. */
  lemma {:induction false} IntactInFile<S>(h: Compression<S>, file: seq<byte>, blocksize: nat,
                                           nodes: seq<VerificationHashEntry>, status: Status, diskfile: int,
                                           sourcefile: int, s: nat, first: nat, k: nat)
    requires 0 < blocksize && Intact(h, file, blocksize, nodes, status, diskfile, sourcefile, s, first)
    requires k < SourceFiles.BlockCount(|file|, blocksize)
    ensures first + k < |nodes| && InFile(h, file, blocksize, nodes[first + k].block, SourceFiles.Start(blocksize, k))
  {
    hide Identified, SourceFiles.BlockCount, SourceFiles.Start;
    assert EntryOf(h, file, blocksize, nodes, s, first, k);
  }

  // ----- A match that does not lie in the file -----

  /** The block that the table has twice, as the first and as the last block of a source file. */
  ghost predicate Twice<S>(h: Compression<S>, nodes: seq<VerificationHashEntry>, d: seq<byte>) {
    && |nodes| == 2 && nodes[0].next == 1 && nodes[1].next == -1
    && forall i :: 0 <= i < 2 ==> nodes[i].block.sourcefile == 0 && nodes[i].block.length == |d| &&
                                  (nodes[i].block.firstblock <==> i == 0) && Identified(h, nodes[i].block, d)
  }

  /** The source file, cut off in its second block. */
  function Truncated(d: seq<byte>, m: nat): seq<byte>
    requires m <= |d|
  {
    d + d[..m]
  }

  /** After any turns of the loop over the truncated file. */
  ghost predicate Turned(n: nat, p: Progress, start: Progress, moves: seq<nat>) {
    || (moves == [] && p == start)
    || (moves == [n] && p.matches == [Match(0, 0)] && p.nextentry == 1 && |p.status.found| == |p.status.diskfile| == 2)
    || (moves == [n, n] && p.matches == [Match(0, 0), Match(1, n)])
  }

  lemma {:induction false} Totals(n: nat)
    ensures Windows.Total([]) == 0 && Windows.Total([n]) == n && Windows.Total([n, n]) == 2 * n
  {
    assert [n][..0] == [] && [n, n][..1] == [n];
  }

  lemma {:induction false} StaleBytesComplete(d: seq<byte>, m: nat)
    requires 1 < |d| && 0 < m <= |d|
    ensures Windows.Inside(|Truncated(d, m)|, |d|, [|d|]) && Windows.Total([|d|]) == |d|
    ensures Windows.Window(Truncated(d, m), |d|, [|d|]) == d
  {
    var file := Truncated(d, m);
    TimesNext(0, |d|);
    LastBlockHolds(file, |d|, 1, |d|);
    assert Blocks(|d|, 1) == [|d|];
    hide Windows.Window, Windows.Inside, Windows.Total;
    assert file[|d|..] + file[m..|d|] == d;
  }

  /** The first turn finds the first block, and the second one finds the last block behind it. */
  lemma {:induction false} FirstTurn<S>(h: Compression<S>, d: seq<byte>, m: nat, table: VerificationHashTable,
                                        p: Progress, diskfile: int, recording: bool, w: Window, entry: int,
                                        duplicate: bool, q: Progress, distance: nat)
    requires 1 < |d| && 0 < m <= |d|
    requires Twice(h, table.nodes, d) && p.nextentry == -1 && p.sourcefile == -1 && p.matches == []
    requires p.status.found == [false, false]
    requires LookedOn(h, Truncated(d, m), |d|, table, diskfile, recording, p, [], w, entry, duplicate, q, distance)
    ensures distance == |d| && q.matches == [Match(0, 0)] && q.nextentry == 1
    ensures |q.status.found| == |q.status.diskfile| == 2
  {
    hide Checksum, Md5.Hash, HashNumber, Windows.Window, Windows.Inside;
    FirstWindow(Truncated(d, m), |d|);
    BlockInWindow(Truncated(d, m), |d|, [], 0);
    assert SourceFiles.PaddedBlock(Truncated(d, m), |d|, 0) == d;
    assert table.Matches(0, w.checksum, w.hash) && table.Matches(1, w.checksum, w.hash);
    assert table.Several(w) && table.Usable(0, p.status, w, -1);
  }

  lemma {:induction false} SecondTurn<S>(h: Compression<S>, d: seq<byte>, m: nat, table: VerificationHashTable,
                                         p: Progress, diskfile: int, recording: bool, w: Window, entry: int,
                                         duplicate: bool, q: Progress, distance: nat)
    requires 1 < |d| && 0 < m <= |d|
    requires Twice(h, table.nodes, d) && p.nextentry == 1 && p.matches == [Match(0, 0)]
    requires LookedOn(h, Truncated(d, m), |d|, table, diskfile, recording, p, [|d|], w, entry, duplicate, q, distance)
    ensures distance == |d| && q.matches == [Match(0, 0), Match(1, |d|)]
  {
    hide Checksum, Md5.Hash, HashNumber, Windows.Window, Windows.Inside, Windows.Total;
    StaleBytesComplete(d, m);
    assert PaddedTo(d[..|d|], |d|) == d;
    assert table.Suggests(1, p.status, w);
  }

  lemma {:induction false} TruncatedTurns<S>(h: Compression<S>, d: seq<byte>, m: nat, table: VerificationHashTable,
                                             diskfile: int, recording: bool, start: Progress, p: Progress,
                                             moves: seq<nat>)
    requires 1 < |d| && 0 < m <= |d|
    requires Twice(h, table.nodes, d) && start.nextentry == -1 && start.sourcefile == -1 && start.matches == []
    requires start.status.found == [false, false]
    requires Turns(h, Truncated(d, m), |d|, table, diskfile, recording, start, p, moves)
    ensures Turned(|d|, p, start, moves)
    decreases |moves|
  {
    hide LookedOn, Twice;
    var file := Truncated(d, m);
    if |moves| > 0 {
      var n := |moves| - 1;
      var before, w, entry, duplicate :|
        && Turns(h, file, |d|, table, diskfile, recording, start, before, moves[..n])
        && LookedOn(h, file, |d|, table, diskfile, recording, before, moves[..n], w, entry, duplicate, p, moves[n]);
      TruncatedTurns(h, d, m, table, diskfile, recording, start, before, moves[..n]);
      InFrontOf(h, file, |d|, table, diskfile, recording, before, moves[..n], w, entry, duplicate, p, moves[n]);
      assert moves == moves[..n] + [moves[n]];
      if moves[..n] == [] {
        FirstTurn(h, d, m, table, before, diskfile, recording, w, entry, duplicate, p, moves[n]);
      } else {
        SecondTurn(h, d, m, table, before, diskfile, recording, w, entry, duplicate, p, moves[n]);
      }
    }
  }

  /** A turn is taken only inside the file. */
  lemma {:induction false} InFrontOf<S>(h: Compression<S>, file: seq<byte>, n: nat, table: VerificationHashTable,
                                        diskfile: int, recording: bool, p: Progress, moves: seq<nat>, w: Window,
                                        entry: int, duplicate: bool, q: Progress, distance: nat)
    requires 0 < n && |file| <= 2 * n
    requires LookedOn(h, file, n, table, diskfile, recording, p, moves, w, entry, duplicate, q, distance)
    ensures moves != [n, n]
  {
    hide Looked;
    Totals(n);
  }

  /** A source file of two equal blocks, of any size, cut off anywhere in its second block: the scan reports both
      blocks, the second one reaching past the end of the file. */
  method TruncatedFile<S>(h: Compression<S>, d: seq<byte>, m: nat, windowtable: seq<nat>, windowmask: nat,
                          crc: VerificationTables.Crc, hash: VerificationTables.Md5Hash, diskfile: int, recording: bool,
                          description: Description) returns (matches: seq<Match>)
    requires 1 < |d| && 0 < m < |d| && TablesFor(windowtable, windowmask, |d|)
    requires crc == Checksum(d) && hash == HashNumber(Md5.Hash(h, d))
    ensures matches == [Match(0, 0), Match(1, |d|)]
    ensures !InFile(h, Truncated(d, m), |d|, Block(0, |d|, false, crc, hash), |d|)
  {
    hide *;
    var table := new VerificationHashTable.SetLimit(2);
    var entry := VerificationEntry(|d|, crc, hash);
    table.Load(0, [entry, entry]);
    LoadedTwice(h, table, d, entry);
    var status := Status([false, false], [0, 0], {});
    var matchtype, sourcefile, hashfull, hash16k, after;
    ghost var moves, last;
    var file := Truncated(d, m);
    matchtype, sourcefile, hashfull, hash16k, matches, after, moves, last :=
      ScanDataFile(h, file, |d|, windowtable, windowmask, table, status, diskfile, recording, -1, [description]);
    TruncatedTurns(h, d, m, table, diskfile, recording, Progress(FullMatch, -1, -1, [], status), last, moves);
    TurnsTaken(d, m, last, Progress(FullMatch, -1, -1, [], status), moves);
    PastTheEnd(h, d, m, Block(0, |d|, false, crc, hash));
  }

  lemma {:induction false} TurnsTaken(d: seq<byte>, m: nat, p: Progress, start: Progress, moves: seq<nat>)
    requires 0 < m <= |d| && Turned(|d|, p, start, moves) && Windows.Total(moves) >= |Truncated(d, m)|
    ensures p.matches == [Match(0, 0), Match(1, |d|)]
  {
    Totals(|d|);
  }

  lemma {:induction false} PastTheEnd<S>(h: Compression<S>, d: seq<byte>, m: nat, block: Block)
    requires m < |d| == block.length
    ensures !InFile(h, Truncated(d, m), |d|, block, |d|)
  {
    hide Identified;
  }

  lemma {:induction false} LoadedTwice<S>(h: Compression<S>, table: VerificationHashTable, d: seq<byte>,
                                          entry: VerificationEntry)
    requires 0 < |d| && |table.nodes| == 2 && entry.length == |d|
    requires forall k :: 0 <= k < 2 ==> table.nodes[k].block == BlockFor(0, [entry, entry], k) &&
                                        table.nodes[k].next == if k + 1 < 2 then k + 1 else -1
    requires entry.crc == Checksum(d) && entry.hash == HashNumber(Md5.Hash(h, d))
    ensures Twice(h, table.nodes, d) && Lengths(table, |d|)
    ensures forall i :: 0 <= i < 2 ==> table.nodes[i].block.sourcefile == 0
  {
    hide Checksum, Md5.Hash, HashNumber;
  }
}
