/** What a scan expects behind a match (par2repairer.cpp, ScanDataFile): the next block of the same source file, at
    once and whatever the file is like otherwise; and which scans count as full matches. */
module ScanSuccessors {
  import opened Arithmetic
  import opened Bytes
  import opened Crc
  import opened Md5
  import opened VerificationTables
  import opened Scans
  import opened ScanCoverage
  import Windows

  /** The matches lie one behind the other, up to where the scan is. */
  ghost predicate InOrder(nodes: seq<VerificationHashEntry>, matches: seq<Match>, total: nat) {
    forall k :: 0 <= k < |matches| ==> EndsBefore(nodes, matches, total, k)
  }

  ghost predicate EndsBefore(nodes: seq<VerificationHashEntry>, matches: seq<Match>, total: nat, k: nat)
    requires k < |matches|
  {
    && matches[k].entry < |nodes| && 0 < nodes[matches[k].entry].block.length
    && EndOf(nodes, matches[k]) <= total
    && (k + 1 < |matches| ==> EndOf(nodes, matches[k]) <= matches[k + 1].offset)
  }

  /** Where a match ends, in the file or not. */
  function EndOf(nodes: seq<VerificationHashEntry>, m: Match): nat
    requires m.entry < |nodes|
  {
    m.offset + nodes[m.entry].block.length
  }

  /** Right behind its last match the scan expects the successor of that entry. */
  ghost predicate Expects(nodes: seq<VerificationHashEntry>, p: Progress, total: nat) {
    && InOrder(nodes, p.matches, total)
    && (|p.matches| > 0 ==>
          var m := p.matches[|p.matches| - 1];
          m.entry < |nodes| && (EndOf(nodes, m) == total ==> p.nextentry == nodes[m.entry].next))
  }

  lemma {:induction false} TurnExpects<S>(h: Compression<S>, file: seq<byte>, blocksize: nat,
                                          table: VerificationHashTable, diskfile: int, recording: bool, p: Progress,
                                          moves: seq<nat>, w: Window, entry: int, duplicate: bool, q: Progress,
                                          distance: nat)
    requires 0 < blocksize && Lengths(table, blocksize) && Expects(table.nodes, p, Windows.Total(moves))
    requires LookedOn(h, file, blocksize, table, diskfile, recording, p, moves, w, entry, duplicate, q, distance)
    ensures Expects(table.nodes, q, Windows.Total(moves) + distance)
  {
    hide Looked, Windows.Inside, Windows.Total, Expects;
    OneTurn(h, file, blocksize, table, diskfile, recording, p, moves, w, entry, duplicate, q, distance);
    EntryLength(table, blocksize, entry);
    MatchesExpect(table.nodes, p, q, entry, Windows.Total(moves), Windows.Total(moves) + distance);
  }

  lemma {:induction false} EntryLength(table: VerificationHashTable, blocksize: nat, entry: int)
    requires Lengths(table, blocksize) && -1 <= entry < |table.nodes|
    ensures entry >= 0 ==> 0 < table.nodes[entry].block.length
  {
  }

  lemma {:induction false} MatchesExpect(nodes: seq<VerificationHashEntry>, p: Progress, q: Progress, entry: int,
                                         total: nat, total': nat)
    requires Expects(nodes, p, total) && -1 <= entry < |nodes| && total < total'
    requires if entry >= 0 then
               q.matches == p.matches + [Match(entry, total)] && q.nextentry == nodes[entry].next &&
               0 < nodes[entry].block.length == total' - total
             else q.matches == p.matches
    ensures Expects(nodes, q, total')
  {
    forall k | 0 <= k < |q.matches|
      ensures EndsBefore(nodes, q.matches, total', k)
    {
      if k < |p.matches| {
        assert EndsBefore(nodes, p.matches, total, k);
      }
    }
    if |p.matches| > 0 {
      assert EndsBefore(nodes, p.matches, total, |p.matches| - 1);
    }
  }

  /** Entry e, expected at the end of match k, is there: as the last block of its file, or not yet found, neither
      before the scan nor in one of the matches up to that one. */
  ghost predicate Due<S>(h: Compression<S>, file: seq<byte>, blocksize: nat, nodes: seq<VerificationHashEntry>,
                         found: seq<bool>, matches: seq<Match>, k: nat, e: nat)
    requires k < |matches| && |found| == |nodes|
  {
    && matches[k].entry < |nodes| && nodes[matches[k].entry].next == e < |nodes|
    && InFile(h, file, blocksize, nodes[e].block, EndOf(nodes, matches[k]))
    && (nodes[e].next != -1 ==>
          nodes[e].block.length == blocksize && !found[e] && !Matched(matches[..k + 1], e))
  }

  /** A window where the expected entry is due is a match of it. */
  lemma {:induction false} DueNow<S>(h: Compression<S>, file: seq<byte>, blocksize: nat, table: VerificationHashTable,
                                     diskfile: int, recording: bool, p: Progress, moves: seq<nat>, w: Window,
                                     entry: int, duplicate: bool, q: Progress, distance: nat, e: nat)
    requires 0 < blocksize
    requires LookedOn(h, file, blocksize, table, diskfile, recording, p, moves, w, entry, duplicate, q, distance)
    requires p.nextentry == e < |table.nodes| && InFile(h, file, blocksize, table.nodes[e].block, Windows.Total(moves))
    requires table.nodes[e].next != -1 ==>
               table.nodes[e].block.length == blocksize && e < |p.status.found| && !p.status.found[e]
    ensures entry == e
  {
    hide Checksum, Md5.Hash, HashNumber, Windows.Window, Windows.Inside, Windows.Total;
    var offset, length := Windows.Total(moves), table.nodes[e].block.length;
    FrontOfWindow(file, blocksize, moves, length);
    var window := Windows.Window(file, blocksize, moves);
    assert length == blocksize ==> PaddedTo(window[..length], blocksize) == window;
    assert table.Suggests(e, p.status, w);
  }

  lemma {:induction false} FrontOfWindow(file: seq<byte>, blocksize: nat, moves: seq<nat>, length: nat)
    requires 0 < blocksize && Windows.Inside(|file|, blocksize, moves)
    requires length <= blocksize && Windows.Total(moves) + length <= |file|
    ensures Windows.Window(file, blocksize, moves)[..length] ==
              file[Windows.Total(moves)..Windows.Total(moves) + length]
  {
    hide Windows.Window, Windows.Inside, Windows.Total;
    Windows.WindowStarts(file, blocksize, moves);
    var offset := Windows.Total(moves);
    var n := Min(blocksize, |file| - offset);
    SubSlice(Windows.Window(file, blocksize, moves), 0, n, 0, length);
    SubSlice(file, offset, offset + n, 0, length);
  }

  lemma {:induction false} AllExpect<S>(h: Compression<S>, file: seq<byte>, blocksize: nat,
                                        table: VerificationHashTable, diskfile: int, recording: bool, start: Progress,
                                        end: Progress, moves: seq<nat>)
    requires 0 < blocksize && Turns(h, file, blocksize, table, diskfile, recording, start, end, moves)
    requires Lengths(table, blocksize) && start.matches == []
    ensures Expects(table.nodes, end, Windows.Total(moves))
    decreases |moves|
  {
    hide LookedOn;
    if |moves| > 0 {
      var n := |moves| - 1;
      var p, w, entry, duplicate :|
        && Turns(h, file, blocksize, table, diskfile, recording, start, p, moves[..n])
        && LookedOn(h, file, blocksize, table, diskfile, recording, p, moves[..n], w, entry, duplicate, end, moves[n]);
      AllExpect(h, file, blocksize, table, diskfile, recording, start, p, moves[..n]);
      hide Expects;
      TurnExpects(h, file, blocksize, table, diskfile, recording, p, moves[..n], w, entry, duplicate, end, moves[n]);
    }
  }

  lemma {:induction false} EarlierMatch<S>(h: Compression<S>, file: seq<byte>, blocksize: nat,
                                           nodes: seq<VerificationHashEntry>, found: seq<bool>, p: Progress,
                                           after: seq<Match>, total: nat, entry: int, distance: nat, k: nat, e: nat)
    requires Expects(nodes, p, total) && |found| == |nodes| && -1 <= entry < |nodes|
    requires after == if entry >= 0 then p.matches + [Match(entry, total)] else p.matches
    requires entry >= 0 ==> distance == nodes[entry].block.length
    requires k < |after| && Due(h, file, blocksize, nodes, found, after, k, e)
    requires EndOf(nodes, after[k]) < total + distance
    ensures k < |p.matches| && after[k] == p.matches[k] && after[k].entry < |nodes| && e < |nodes|
    ensures EndOf(nodes, after[k]) <= total
    ensures Due(h, file, blocksize, nodes, found, p.matches, k, e)
  {
    hide InFile, Matched;
    assert k < |p.matches|;
    assert EndsBefore(nodes, p.matches, total, k);
    assert after[..k + 1] == p.matches[..k + 1];
  }

  lemma {:induction false} ExpectedNow<S>(h: Compression<S>, file: seq<byte>, blocksize: nat,
                                          nodes: seq<VerificationHashEntry>, found: seq<bool>, p: Progress, total: nat,
                                          k: nat, e: nat)
    requires Expects(nodes, p, total) && |found| == |nodes| && k < |p.matches|
    requires Due(h, file, blocksize, nodes, found, p.matches, k, e) && EndOf(nodes, p.matches[k]) == total
    ensures k == |p.matches| - 1 && p.nextentry == e < |nodes| && InFile(h, file, blocksize, nodes[e].block, total)
    ensures nodes[e].next != -1 ==> nodes[e].block.length == blocksize && !found[e] && !Matched(p.matches, e)
  {
    hide InFile, Matched;
    assert EndsBefore(nodes, p.matches, total, k);
    assert k + 1 < |p.matches| ==> EndsBefore(nodes, p.matches, total, k + 1);
    assert p.matches[..k + 1] == p.matches;
  }

  /** Match k + 1 is this one. */
  predicate NextIs(matches: seq<Match>, k: nat, m: Match) {
    k + 1 < |matches| && matches[k + 1] == m
  }

  /** If match k ends where the scan has been, and its successor is due there, then match k + 1 is that successor. */
  lemma {:induction false} SuccessorFound<S>(h: Compression<S>, file: seq<byte>, blocksize: nat,
                                             table: VerificationHashTable, diskfile: int, recording: bool,
                                             start: Progress, end: Progress, moves: seq<nat>, k: nat, e: nat)
    requires 0 < blocksize && Turns(h, file, blocksize, table, diskfile, recording, start, end, moves)
    requires Lengths(table, blocksize) && start.matches == [] && |start.status.found| == |table.nodes|
    requires k < |end.matches| && Due(h, file, blocksize, table.nodes, start.status.found, end.matches, k, e)
    requires EndOf(table.nodes, end.matches[k]) < Windows.Total(moves)
    ensures NextIs(end.matches, k, Match(e, EndOf(table.nodes, end.matches[k])))
    decreases |moves|
  {
    hide LookedOn, Expects, Due, InFile;
    var n := |moves| - 1;
    var p, w, entry, duplicate :|
      && Turns(h, file, blocksize, table, diskfile, recording, start, p, moves[..n])
      && LookedOn(h, file, blocksize, table, diskfile, recording, p, moves[..n], w, entry, duplicate, end, moves[n]);
    AllExpect(h, file, blocksize, table, diskfile, recording, start, p, moves[..n]);
    OneTurn(h, file, blocksize, table, diskfile, recording, p, moves[..n], w, entry, duplicate, end, moves[n]);
    var before, after, t := p.matches, end.matches, Windows.Total(moves[..n]);
    EarlierMatch(h, file, blocksize, table.nodes, start.status.found, p, after, t, entry, moves[n], k, e);
    if EndOf(table.nodes, after[k]) < t {
      SuccessorFound(h, file, blocksize, table, diskfile, recording, start, p, moves[..n], k, e);
    } else {
      FoundIsMatched(h, file, blocksize, table, diskfile, recording, start, p, moves[..n], e);
      ExpectedNow(h, file, blocksize, table.nodes, start.status.found, p, t, k, e);
      DueNow(h, file, blocksize, table, diskfile, recording, p, moves[..n], w, entry, duplicate, end, moves[n], e);
    }
  }

  // ----- Full matches -----

  /** Every turn was a match: first that of a first block at the start of the file, and then always that of the
      successor. */
  ghost predicate OnlyMatches(nodes: seq<VerificationHashEntry>, matches: seq<Match>, turns: nat) {
    && |matches| == turns
    && forall k :: 0 <= k < |matches| ==> InTurn(nodes, matches, k)
  }

  ghost predicate InTurn(nodes: seq<VerificationHashEntry>, matches: seq<Match>, k: nat)
    requires k < |matches|
  {
    if k == 0 then matches[0].entry < |nodes| && nodes[matches[0].entry].block.firstblock && matches[0].offset == 0
    else matches[k - 1].entry < |nodes| && nodes[matches[k - 1].entry].next == matches[k].entry
  }

  /** There is at most one match to a turn; and with one match to each, the last one ends where the scan is. */
  ghost predicate Counted(nodes: seq<VerificationHashEntry>, matches: seq<Match>, turns: nat, total: nat) {
    && |matches| <= turns
    && (|matches| == turns > 0 ==>
          var m := matches[|matches| - 1]; m.entry < |nodes| && EndOf(nodes, m) == total)
  }

  /** The source file that the first match has chosen. */
  function Chosen(nodes: seq<VerificationHashEntry>, matches: seq<Match>, sourcefile: int): int {
    if |matches| > 0 && matches[0].entry < |nodes| then nodes[matches[0].entry].block.sourcefile else sourcefile
  }

  ghost predicate Judged(nodes: seq<VerificationHashEntry>, p: Progress, sourcefile: int, turns: nat, total: nat) {
    && Counted(nodes, p.matches, turns, total)
    && (p.matchtype == FullMatch <==> OnlyMatches(nodes, p.matches, turns))
    && p.sourcefile == Chosen(nodes, p.matches, sourcefile)
  }

  lemma {:induction false} TurnJudged<S>(h: Compression<S>, file: seq<byte>, blocksize: nat,
                                         table: VerificationHashTable, diskfile: int, recording: bool, p: Progress,
                                         moves: seq<nat>, w: Window, entry: int, duplicate: bool, q: Progress,
                                         distance: nat, sourcefile: int)
    requires 0 < blocksize && Judged(table.nodes, p, sourcefile, |moves|, Windows.Total(moves))
    requires Expects(table.nodes, p, Windows.Total(moves)) && (|moves| == 0 ==> Windows.Total(moves) == 0)
    requires LookedOn(h, file, blocksize, table, diskfile, recording, p, moves, w, entry, duplicate, q, distance)
    ensures Judged(table.nodes, q, sourcefile, |moves| + 1, Windows.Total(moves) + distance)
  {
    hide Looked, Windows.Inside, Windows.Total, OnlyMatches, InOrder;
    OneTurn(h, file, blocksize, table, diskfile, recording, p, moves, w, entry, duplicate, q, distance);
    if entry >= 0 {
      MatchInTurn(table.nodes, p, Match(entry, Windows.Total(moves)), |moves|);
    } else {
      FewerMatches(table.nodes, p.matches, |moves|);
    }
  }

  lemma {:induction false} FewerMatches(nodes: seq<VerificationHashEntry>, matches: seq<Match>, turns: nat)
    requires |matches| <= turns
    ensures !OnlyMatches(nodes, matches, turns + 1)
  {
  }

  lemma {:induction false} MatchInTurn(nodes: seq<VerificationHashEntry>, p: Progress, m: Match, turns: nat)
    requires Counted(nodes, p.matches, turns, m.offset) && Expects(nodes, p, m.offset) && m.entry < |nodes|
    requires turns == 0 ==> m.offset == 0
    ensures OnlyMatches(nodes, p.matches + [m], turns + 1) <==>
            && OnlyMatches(nodes, p.matches, turns)
            && if |p.matches| == 0 then nodes[m.entry].block.firstblock && m.offset == 0 else m.entry == p.nextentry
  {
    hide InOrder;
    var r, n := p.matches + [m], |p.matches|;
    assert forall k :: 0 <= k < n ==> InTurn(nodes, r, k) == InTurn(nodes, p.matches, k);
    assert n == turns ==> (InTurn(nodes, r, n) <==>
              if n == 0 then nodes[m.entry].block.firstblock && m.offset == 0 else m.entry == p.nextentry);
  }

  /** A scan may be a full match exactly if every turn of it was the match expected, from a first block at the start
      of the file on; and the source file is that of the first match. */
  lemma {:induction false} FullExactly<S>(h: Compression<S>, file: seq<byte>, blocksize: nat,
                                          table: VerificationHashTable, diskfile: int, recording: bool,
                                          start: Progress, end: Progress, moves: seq<nat>)
    requires 0 < blocksize && Turns(h, file, blocksize, table, diskfile, recording, start, end, moves)
    requires Lengths(table, blocksize) && start.matches == [] && start.matchtype == FullMatch
    ensures end.matchtype == FullMatch <==> OnlyMatches(table.nodes, end.matches, |moves|)
    ensures end.sourcefile == Chosen(table.nodes, end.matches, start.sourcefile)
    ensures Judged(table.nodes, end, start.sourcefile, |moves|, Windows.Total(moves))
    decreases |moves|
  {
    hide LookedOn, OnlyMatches;
    if |moves| > 0 {
      var n := |moves| - 1;
      var p, w, entry, duplicate :|
        && Turns(h, file, blocksize, table, diskfile, recording, start, p, moves[..n])
        && LookedOn(h, file, blocksize, table, diskfile, recording, p, moves[..n], w, entry, duplicate, end, moves[n]);
      FullExactly(h, file, blocksize, table, diskfile, recording, start, p, moves[..n]);
      AllExpect(h, file, blocksize, table, diskfile, recording, start, p, moves[..n]);
      hide Turns, Expects;
      TurnJudged(h, file, blocksize, table, diskfile, recording, p, moves[..n], w, entry, duplicate, end, moves[n],
                 start.sourcefile);
    } else {
      NoTurnJudged(table.nodes);
    }
  }

  lemma {:induction false} NoTurnJudged(nodes: seq<VerificationHashEntry>)
    ensures OnlyMatches(nodes, [], 0)
  {
  }
}
