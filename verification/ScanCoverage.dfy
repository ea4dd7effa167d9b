/** Which offsets of a damaged file a scan looks at (par2repairer.cpp, ScanDataFile): all of them, except those that
    it jumps over behind a match or a duplicate; so it finds the blocks again behind any damage. */
module ScanCoverage {
  import opened Bytes
  import opened Crc
  import opened Md5
  import opened VerificationTables
  import opened Scans
  import Windows

  /** The turn of the loop that passes offset p: its window is at p, or else it found a match or a duplicate before p
      and jumped over p; and what it found is reported at the end. */
  lemma {:induction false} Covered<S>(h: Compression<S>, file: seq<byte>, blocksize: nat, table: VerificationHashTable,
                                      diskfile: int, recording: bool, start: Progress, end: Progress, moves: seq<nat>,
                                      p: nat)
    returns (i: nat, before: Progress, w: Window, entry: int, duplicate: bool, after: Progress)
    requires 0 < blocksize && Turns(h, file, blocksize, table, diskfile, recording, start, end, moves)
    requires p < Windows.Total(moves)
    ensures i < |moves| && Turns(h, file, blocksize, table, diskfile, recording, start, before, moves[..i])
    ensures LookedOn(h, file, blocksize, table, diskfile, recording, before, moves[..i], w, entry, duplicate, after,
                     moves[i])
    ensures Windows.Total(moves[..i]) <= p < Windows.Total(moves[..i]) + moves[i]
    ensures p == Windows.Total(moves[..i]) || entry >= 0 || duplicate
    ensures entry < |table.nodes|
    ensures moves[i] == (if entry >= 0 then table.nodes[entry].block.length else if duplicate then blocksize else 1)
    ensures before.matches <= after.matches <= end.matches
    ensures entry >= 0 ==> after.matches == before.matches + [Match(entry, Windows.Total(moves[..i]))]
    decreases |moves|
  {
    var n := |moves| - 1;
    hide LookedOn;
    before, w, entry, duplicate :|
      && Turns(h, file, blocksize, table, diskfile, recording, start, before, moves[..n])
      && LookedOn(h, file, blocksize, table, diskfile, recording, before, moves[..n], w, entry, duplicate, end,
                  moves[n]);
    OneTurn(h, file, blocksize, table, diskfile, recording, before, moves[..n], w, entry, duplicate, end, moves[n]);
    i, after := n, end;
    if p < Windows.Total(moves[..n]) {
      var last := before;
      i, before, w, entry, duplicate, after :=
        Covered(h, file, blocksize, table, diskfile, recording, start, last, moves[..n], p);
      assert moves[..n][..i] == moves[..i];
    }
  }

  /** What one turn does to the matches, and to what has been found. */
  lemma {:induction false} OneTurn<S>(h: Compression<S>, file: seq<byte>, blocksize: nat, table: VerificationHashTable,
                                      diskfile: int, recording: bool, p: Progress, moves: seq<nat>, w: Window,
                                      entry: int, duplicate: bool, q: Progress, distance: nat)
    requires 0 < blocksize
    requires LookedOn(h, file, blocksize, table, diskfile, recording, p, moves, w, entry, duplicate, q, distance)
    ensures -1 <= entry < |table.nodes| == |p.status.found| == |q.status.found|
    ensures distance == (if entry >= 0 then table.nodes[entry].block.length else if duplicate then blocksize else 1)
    ensures q.matches == if entry >= 0 then p.matches + [Match(entry, Windows.Total(moves))] else p.matches
    ensures q.status.complete == p.status.complete
    ensures forall e :: 0 <= e < |table.nodes| && q.status.found[e] ==> p.status.found[e] || e == entry
  {
    hide Shown, VerificationHashTable.Answer, Windows.Window, Windows.Inside, Windows.Total;
  }

  /** An entry that counts as found had been found before the scan, or is among the matches. */
  lemma {:induction false} FoundIsMatched<S>(h: Compression<S>, file: seq<byte>, blocksize: nat,
                                             table: VerificationHashTable, diskfile: int, recording: bool,
                                             start: Progress, end: Progress, moves: seq<nat>, e: nat)
    requires 0 < blocksize && Turns(h, file, blocksize, table, diskfile, recording, start, end, moves)
    requires e < |table.nodes| == |start.status.found|
    ensures |end.status.found| == |table.nodes| && end.status.complete == start.status.complete
    ensures end.status.found[e] ==> start.status.found[e] || Matched(end.matches, e)
    decreases |moves|
  {
    hide LookedOn;
    if |moves| > 0 {
      var n := |moves| - 1;
      var p, w, entry, duplicate :|
        && Turns(h, file, blocksize, table, diskfile, recording, start, p, moves[..n])
        && LookedOn(h, file, blocksize, table, diskfile, recording, p, moves[..n], w, entry, duplicate, end, moves[n]);
      FoundIsMatched(h, file, blocksize, table, diskfile, recording, start, p, moves[..n], e);
      OneTurn(h, file, blocksize, table, diskfile, recording, p, moves[..n], w, entry, duplicate, end, moves[n]);
      if Matched(p.matches, e) {
        var k :| 0 <= k < |p.matches| && p.matches[k].entry == e;
        assert end.matches[k].entry == e;
      }
      if entry == e {
        assert end.matches[|p.matches|].entry == e;
      }
    }
  }

  /** There is a match at offset p. */
  ghost predicate MatchedAt(matches: seq<Match>, p: nat) {
    exists k :: 0 <= k < |matches| && matches[k].offset == p
  }

  /** Entry e is the only one for a whole block that lies in the file at p, and its source file is not complete. */
  ghost predicate OnlyBlockAt<S>(h: Compression<S>, file: seq<byte>, blocksize: nat,
                                 nodes: seq<VerificationHashEntry>, status: Status, e: nat, p: nat)
  {
    && e < |nodes| && p + blocksize <= |file| && nodes[e].block.length == blocksize
    && Identified(h, nodes[e].block, file[p..p + blocksize])
    && nodes[e].block.sourcefile !in status.complete
    && forall i :: 0 <= i < |nodes| && i != e ==> !SameBlock(nodes, i, e)
  }

  /** A window at such a block, when the block has not yet been found, is a match: of this entry, or of the one that was
      expected as the last one of its file. */
  lemma {:induction false} BlockSeen<S>(h: Compression<S>, file: seq<byte>, blocksize: nat,
                                        table: VerificationHashTable, p: Progress, diskfile: int, moves: seq<nat>,
                                        w: Window, entry: int, duplicate: bool, e: nat)
    requires 0 < blocksize && Windows.Inside(|file|, blocksize, moves)
    requires -1 <= p.nextentry < |table.nodes| == |p.status.found| == |p.status.diskfile|
    requires Looked(h, file, blocksize, table, p, diskfile, moves, w, entry, duplicate)
    requires OnlyBlockAt(h, file, blocksize, table.nodes, p.status, e, Windows.Total(moves)) && !p.status.found[e]
    ensures entry == e || (0 <= entry == p.nextentry && table.nodes[entry].next == -1)
  {
    hide Checksum, Md5.Hash, HashNumber, Windows.Window, Windows.Inside, Windows.Total;
    WholeWindow(file, blocksize, moves);
    assert table.Matches(e, w.checksum, w.hash);
    forall i | 0 <= i < |table.nodes| && i != e
      ensures !table.Matches(i, w.checksum, w.hash)
    {
      assert !SameBlock(table.nodes, i, e);
    }
    assert table.OnlyMatch(e, w);
  }

  lemma {:induction false} WholeWindow(file: seq<byte>, blocksize: nat, moves: seq<nat>)
    requires 0 < blocksize && Windows.Inside(|file|, blocksize, moves) && Windows.Total(moves) + blocksize <= |file|
    ensures Windows.Window(file, blocksize, moves) == file[Windows.Total(moves)..Windows.Total(moves) + blocksize]
  {
    hide Windows.Window, Windows.Inside, Windows.Total;
    Windows.WindowStarts(file, blocksize, moves);
    var window := Windows.Window(file, blocksize, moves);
    assert window[..blocksize] == window;
  }

  /** The turn that jumped over offset p, from a match that is reported or from a duplicate. */
  ghost predicate JumpedOver<S>(h: Compression<S>, file: seq<byte>, blocksize: nat, table: VerificationHashTable,
                                diskfile: int, recording: bool, start: Progress, matches: seq<Match>, moves: seq<nat>,
                                p: nat)
    requires 0 < blocksize
    reads table
  {
    exists i: nat, before, w, entry, duplicate, after ::
      && i < |moves| && Turns(h, file, blocksize, table, diskfile, recording, start, before, moves[..i])
      && LookedOn(h, file, blocksize, table, diskfile, recording, before, moves[..i], w, entry, duplicate, after,
                  moves[i])
      && Windows.Total(moves[..i]) < p < Windows.Total(moves[..i]) + moves[i]
      && (entry >= 0 || duplicate) && (entry >= 0 ==> MatchedAt(matches, Windows.Total(moves[..i])))
  }

  /** Whatever else is in the file: a block that had not been found, and that no other entry is the same as, is reported
      if it lies in the file; or the expected last block of a file is, at the same place; or the scan jumped over
      its start, behind a match that is reported or a duplicate. */
  lemma {:induction false} Resynchronises<S>(h: Compression<S>, file: seq<byte>, blocksize: nat,
                                             table: VerificationHashTable, diskfile: int, recording: bool,
                                             start: Progress, end: Progress, moves: seq<nat>, e: nat, p: nat)
    requires 0 < blocksize && Turns(h, file, blocksize, table, diskfile, recording, start, end, moves)
    requires |file| <= Windows.Total(moves) && |start.status.found| == |table.nodes|
    requires OnlyBlockAt(h, file, blocksize, table.nodes, start.status, e, p) && !start.status.found[e]
    ensures || Matched(end.matches, e) || MatchedAt(end.matches, p)
            || JumpedOver(h, file, blocksize, table, diskfile, recording, start, end.matches, moves, p)
  {
    hide Turns, LookedOn, OnlyBlockAt, JumpedOver, Matched, MatchedAt, Windows.Total, Windows.Inside;
    OnlyStill(h, file, blocksize, table.nodes, start.status, start.status, e, p);
    var i, before, w, entry, duplicate, after :=
      Covered(h, file, blocksize, table, diskfile, recording, start, end, moves, p);
    FoundIsMatched(h, file, blocksize, table, diskfile, recording, start, before, moves[..i], e);
    StillMatched(before.matches, after.matches, end.matches, e, entry, Windows.Total(moves[..i]));
    OnlyStill(h, file, blocksize, table.nodes, start.status, before.status, e, p);
    if !Matched(before.matches, e) {
      if p == Windows.Total(moves[..i]) {
        SeenThere(h, file, blocksize, table, diskfile, recording, before, moves[..i], w, entry, duplicate, after,
                  moves[i], e);
      } else {
        Jumped(h, file, blocksize, table, diskfile, recording, start, end.matches, moves, p, i, before, w, entry,
               duplicate, after);
      }
    }
  }

  lemma {:induction false} StillMatched(before: seq<Match>, after: seq<Match>, end: seq<Match>, e: nat, entry: int,
                                        offset: nat)
    requires before <= after <= end && (entry >= 0 ==> after == before + [Match(entry, offset)])
    ensures Matched(before, e) ==> Matched(end, e)
    ensures entry >= 0 ==> MatchedAt(end, offset)
  {
    if Matched(before, e) {
      var k :| 0 <= k < |before| && before[k].entry == e;
      assert end[k].entry == e;
    }
    if entry >= 0 {
      assert end[|before|] == Match(entry, offset);
    }
  }

  lemma {:induction false} OnlyStill<S>(h: Compression<S>, file: seq<byte>, blocksize: nat,
                                        nodes: seq<VerificationHashEntry>, status: Status, status': Status, e: nat,
                                        p: nat)
    requires OnlyBlockAt(h, file, blocksize, nodes, status, e, p) && status'.complete == status.complete
    ensures OnlyBlockAt(h, file, blocksize, nodes, status', e, p) && p + blocksize <= |file| && e < |nodes|
  {
    hide Identified;
  }

  lemma {:induction false} Jumped<S>(h: Compression<S>, file: seq<byte>, blocksize: nat, table: VerificationHashTable,
                                     diskfile: int, recording: bool, start: Progress, matches: seq<Match>,
                                     moves: seq<nat>, p: nat, i: nat, before: Progress, w: Window, entry: int,
                                     duplicate: bool, after: Progress)
    requires 0 < blocksize && i < |moves|
    requires Turns(h, file, blocksize, table, diskfile, recording, start, before, moves[..i])
    requires LookedOn(h, file, blocksize, table, diskfile, recording, before, moves[..i], w, entry, duplicate, after,
                      moves[i])
    requires Windows.Total(moves[..i]) < p < Windows.Total(moves[..i]) + moves[i] && (entry >= 0 || duplicate)
    requires entry >= 0 ==> MatchedAt(matches, Windows.Total(moves[..i]))
    ensures JumpedOver(h, file, blocksize, table, diskfile, recording, start, matches, moves, p)
  {
    hide Turns, LookedOn, MatchedAt, Windows.Total;
  }

  lemma {:induction false} SeenThere<S>(h: Compression<S>, file: seq<byte>, blocksize: nat,
                                        table: VerificationHashTable, diskfile: int, recording: bool, p: Progress,
                                        moves: seq<nat>, w: Window, entry: int, duplicate: bool, q: Progress,
                                        distance: nat, e: nat)
    requires 0 < blocksize
    requires LookedOn(h, file, blocksize, table, diskfile, recording, p, moves, w, entry, duplicate, q, distance)
    requires OnlyBlockAt(h, file, blocksize, table.nodes, p.status, e, Windows.Total(moves))
    requires e < |p.status.found| && !p.status.found[e]
    ensures entry >= 0
  {
    hide Looked, OnlyBlockAt, Windows.Total, Windows.Inside;
    BlockSeen(h, file, blocksize, table, p, diskfile, moves, w, entry, duplicate, e);
  }
}
