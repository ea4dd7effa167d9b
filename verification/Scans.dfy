/** Scanning a data file for blocks (par2repairer.cpp, ScanDataFile): the window slides over the file, and
    wherever the table of block hashes knows its checksum and hash a block has been found. */
module Scans {
  import opened Arithmetic
  import opened Bytes
  import opened Crc
  import opened Md5
  import Windows
  import opened FileCheckSummers
  import opened VerificationTables
  import opened ShortWindows
  import SourceFiles

  datatype MatchType = NoMatch | PartialMatch | FullMatch

  /** A block found: its entry, and where it starts in the file. */
  datatype Match = Match(entry: nat, offset: nat)

  /** What the description packet of a source file says. */
  datatype Description = Description(blockcount: nat, filesize: nat, hashfull: seq<byte>, hash16k: seq<byte>)

  /** The number that a hash stands for in the table. */
  function HashNumber(hash: seq<byte>): VerificationTables.Md5Hash {
    Number(hash) % HASHES
  }

  /** Hashes are 16 bytes, so their numbers identify them. */
  lemma {:induction false} HashNumberDetermines(a: seq<byte>, b: seq<byte>)
    requires |a| == |b| == 16 && HashNumber(a) == HashNumber(b)
    ensures a == b
  {
    hide Number;
    NumberBound(a);
    NumberBound(b);
    NumberDetermines(a, b);
  }

  lemma {:induction false} NumberBound(s: seq<byte>)
    requires |s| == 16
    ensures Number(s) < HASHES
  {
    NumberBelow(s);
    assert Bytes256(4) == 0x1_0000_0000;
    assert Bytes256(8) == 0x1_0000_0000 * Bytes256(4);
    assert Bytes256(12) == 0x1_0000_0000 * Bytes256(8);
    assert Bytes256(16) == 0x1_0000_0000 * Bytes256(12);
  }

  // ----- What a match says -----

  /** The data has the crc and the hash of the block. */
  ghost predicate Identified<S>(h: Compression<S>, block: Block, data: seq<byte>) {
    Checksum(data) == block.crc && HashNumber(Md5.Hash(h, data)) == block.hash
  }

  /** The window, or as much of it as the block is long and zeros, is the block. */
  ghost predicate Holds<S>(h: Compression<S>, blocksize: nat, block: Block, window: seq<byte>)
  {
    || Identified(h, block, window)
    || (block.length <= blocksize == |window| && Identified(h, block, PaddedTo(window[..block.length], blocksize)))
  }

  /** The block lies in the file, and its bytes there, padded with zeros, have its crc and hash. */
  ghost predicate InFile<S>(h: Compression<S>, file: seq<byte>, blocksize: nat, block: Block, offset: nat) {
    && offset + block.length <= |file| && block.length <= blocksize
    && Identified(h, block, PaddedTo(file[offset..offset + block.length], blocksize))
  }

  /** The crc and hash of the block are those of some data. */
  ghost predicate Describes<S>(h: Compression<S>, blocksize: nat, block: Block, data: seq<byte>) {
    |data| == block.length <= blocksize && Identified(h, block, PaddedTo(data, blocksize))
  }

  /** A window is not taken for that data by a collision of both crc and hash. */
  ghost predicate NoCollision<S>(h: Compression<S>, blocksize: nat, block: Block, data: seq<byte>, window: seq<byte>)
    requires |data| <= blocksize
  {
    Identified(h, block, window) ==> window == PaddedTo(data, blocksize)
  }

  /** The scan had a window at the offset, after the moves up to there, that holds the block. */
  ghost predicate Seen<S>(h: Compression<S>, file: seq<byte>, blocksize: nat, block: Block, moves: seq<nat>,
                          offset: nat) {
    && 0 < blocksize
    && exists i: nat :: i <= |moves| && SeenAfter(h, file, blocksize, block, moves[..i], offset)
  }

  ghost predicate SeenAfter<S>(h: Compression<S>, file: seq<byte>, blocksize: nat, block: Block, moves: seq<nat>,
                               offset: nat)
    requires 0 < blocksize
  {
    && Windows.Inside(|file|, blocksize, moves) && Windows.Total(moves) == offset
    && Holds(h, blocksize, block, Windows.Window(file, blocksize, moves))
  }

  lemma {:induction false} SeenStill<S>(h: Compression<S>, file: seq<byte>, blocksize: nat, block: Block,
                                        moves: seq<nat>, offset: nat, distance: nat)
    requires Seen(h, file, blocksize, block, moves, offset)
    ensures Seen(h, file, blocksize, block, moves + [distance], offset)
  {
    hide SeenAfter;
    var i: nat :| i <= |moves| && SeenAfter(h, file, blocksize, block, moves[..i], offset);
    assert (moves + [distance])[..i] == moves[..i];
  }

  lemma {:induction false} SeenNow<S>(h: Compression<S>, file: seq<byte>, blocksize: nat, block: Block, moves: seq<nat>)
    requires 0 < blocksize && SeenAfter(h, file, blocksize, block, moves, Windows.Total(moves))
    ensures Seen(h, file, blocksize, block, moves, Windows.Total(moves))
  {
    hide SeenAfter;
    assert moves[..|moves|] == moves;
  }

  /** A match of a whole block is the block in the file exactly if the file reaches that far. */
  lemma {:induction false} WholeBlock<S>(h: Compression<S>, file: seq<byte>, blocksize: nat, block: Block,
                                         moves: seq<nat>, offset: nat)
    requires Seen(h, file, blocksize, block, moves, offset) && block.length == blocksize
    ensures InFile(h, file, blocksize, block, offset) <==> offset + block.length <= |file|
  {
    hide Identified;
    hide SeenAfter;
    var i: nat :| i <= |moves| && SeenAfter(h, file, blocksize, block, moves[..i], offset);
    if offset + blocksize <= |file| {
      SeenInside(h, file, blocksize, block, moves[..i], offset);
      var data := file[offset..offset + blocksize];
      assert PaddedTo(data, blocksize) == data == data[..blocksize];
    }
  }

  lemma {:induction false} SeenInside<S>(h: Compression<S>, file: seq<byte>, blocksize: nat, block: Block,
                                         moves: seq<nat>, offset: nat)
    requires 0 < blocksize && SeenAfter(h, file, blocksize, block, moves, offset) && offset + blocksize <= |file|
    ensures Holds(h, blocksize, block, file[offset..offset + blocksize])
  {
    hide Holds, Windows.Window;
    Windows.WindowStarts(file, blocksize, moves);
    var window := Windows.Window(file, blocksize, moves);
    assert window[..blocksize] == window;
  }

  /** A window that holds a block starts with the block's data, unless crc and hash collide. */
  lemma {:induction false} HoldsData<S>(h: Compression<S>, blocksize: nat, block: Block, window: seq<byte>,
                                        data: seq<byte>)
    requires Holds(h, blocksize, block, window) && Describes(h, blocksize, block, data) && |window| == blocksize
    requires NoCollision(h, blocksize, block, data, window)
    requires NoCollision(h, blocksize, block, data, PaddedTo(window[..block.length], blocksize))
    ensures window[..block.length] == data
  {
    hide Identified;
    assert PaddedTo(data, blocksize)[..block.length] == data;
    var front := window[..block.length];
    assert PaddedTo(front, blocksize)[..block.length] == front;
  }

  /** The match of a block of any length: it is the block in the file exactly if the file reaches that far, and
      then the bytes are the data.  If the file ends before, its last bytes are the start of the data, and
      what the window held behind them is the rest. */
  lemma {:induction false} MatchIsData<S>(h: Compression<S>, file: seq<byte>, blocksize: nat, block: Block,
                                          moves: seq<nat>, data: seq<byte>)
    requires 0 < blocksize && Windows.Inside(|file|, blocksize, moves)
    requires var window := Windows.Window(file, blocksize, moves);
             && Holds(h, blocksize, block, window) && Describes(h, blocksize, block, data)
             && NoCollision(h, blocksize, block, data, window)
             && NoCollision(h, blocksize, block, data, PaddedTo(window[..block.length], blocksize))
    ensures var offset := Windows.Total(moves);
            && (InFile(h, file, blocksize, block, offset) <==> offset + block.length <= |file|)
            && (offset + block.length <= |file| ==> file[offset..offset + block.length] == data)
            && (offset + block.length > |file| ==>
                  data == file[offset..] + Behind(file, blocksize, moves)[..offset + block.length - |file|])
  {
    hide Identified, Holds, Behind, Windows.Window, Windows.Total;
    var offset, window := Windows.Total(moves), Windows.Window(file, blocksize, moves);
    HoldsData(h, blocksize, block, window, data);
    WindowIs(file, blocksize, moves);
    hide Windows.Inside, NoCollision;
    var wanted, behind := Wanted(file, blocksize, offset), Behind(file, blocksize, moves);
    if offset + block.length <= |file| {
      assert (wanted + behind)[..block.length] == wanted[..block.length] == file[offset..offset + block.length];
    } else {
      assert wanted == file[offset..];
      assert (wanted + behind)[..block.length] == wanted + behind[..block.length - |wanted|];
    }
  }

  /** All blocks in the table have a length between one byte and the block size. */
  ghost predicate Lengths(table: VerificationHashTable, blocksize: nat)
    reads table
  {
    forall i :: 0 <= i < |table.nodes| ==> 0 < table.nodes[i].block.length <= blocksize
  }

  /** What the scanner shows of its window: checksum, hash, how much of the file is left, and for one length, if it
      was asked for, checksum and hash of that much of the window and zeros. */
  ghost predicate Shown<S>(h: Compression<S>, blocksize: nat, w: Window, window: seq<byte>, left: nat, offset: nat,
                           diskfile: int, asked: int) {
    && |window| == blocksize && w.checksum == Checksum(window) && w.hash == HashNumber(Md5.Hash(h, window))
    && w.blocklength == Min(blocksize, left) && (w.shortblock <==> left < blocksize)
    && w.offset == offset && w.diskfile == diskfile
    && (0 <= asked <= blocksize ==>
          var short := PaddedTo(window[..asked], blocksize);
          w.shortchecksum(asked) == Checksum(short) && w.shorthash(asked) == HashNumber(Md5.Hash(h, short)))
  }

  /** The length that is asked for: that of the entry expected, if it is the last one of its file. */
  function Asked(nodes: seq<VerificationHashEntry>, suggested: int): int
    requires -1 <= suggested < |nodes|
  {
    if suggested != -1 && nodes[suggested].next == -1 then nodes[suggested].block.length else -1
  }

  lemma {:induction false} WindowFacts<S>(summer: FileCheckSummer<S>, moves: seq<nat>)
    requires Along(summer, moves)
    ensures summer.Valid() && 0 < summer.blocksize && Windows.Inside(|summer.file|, summer.blocksize, moves)
    ensures summer.currentoffset == Windows.Total(moves) < |summer.file|
    ensures summer.outpointer + summer.blocksize <= summer.buffer.Length
    ensures var window := Windows.Window(summer.file, summer.blocksize, moves);
            && window == summer.buffer[summer.outpointer..summer.outpointer + summer.blocksize]
            && summer.checksum == Checksum(window) < CRCS
  {
    hide Checksum, TablesFor, After, Windows.Viewed, Windows.Fits;
    CurrentWindow(summer, moves);
    summer.WindowChecksum();
    hide FileCheckSummer.Valid;
    ChecksumFits(Windows.Window(summer.file, summer.blocksize, moves));
  }

  /** Look for a match of the current window. */
  method LookForMatch<S>(summer: FileCheckSummer<S>, table: VerificationHashTable, suggested: int, sourcefile: int,
                         status: Status, diskfile: int, ghost moves: seq<nat>)
    returns (entry: int, duplicate: bool, ghost w: Window)
    requires Along(summer, moves) && Windows.Inside(|summer.file|, summer.blocksize, moves) && 0 < summer.blocksize
    requires table.Valid() && Lengths(table, summer.blocksize) && -1 <= suggested < |table.nodes| && -1 <= sourcefile
    requires |status.found| == |status.diskfile| == |table.nodes| && summer.currentoffset <= |summer.file|
    ensures Shown(summer.h, summer.blocksize, w, Windows.Window(summer.file, summer.blocksize, moves),
                  |summer.file| - summer.currentoffset, summer.currentoffset, diskfile, Asked(table.nodes, suggested))
    ensures -1 <= entry < |table.nodes| && table.Answer(suggested, sourcefile, status, w, entry, duplicate)
  {
    hide FileCheckSummer.Valid, VerificationHashTable.Valid, Checksum, Md5.Hash, Windows.Window, Windows.Inside,
         Windows.Total, Along, VerificationHashTable.Answer;
    WindowFacts(summer, moves);
    var hash := summer.Hash();
    var shortchecksum, shorthash := 0, 0;
    if suggested != -1 && table.nodes[suggested].next == -1 {
      var length := table.nodes[suggested].block.length;
      shortchecksum := summer.ShortChecksum(length);
      var short := summer.ShortHash(length);
      shorthash := HashNumber(short);
      assert Windows.Window(summer.file, summer.blocksize, moves)[..length] ==
             summer.buffer[summer.outpointer..summer.outpointer + length];
    }
    var view := Window(summer.checksum, HashNumber(hash), summer.ShortBlock(), summer.BlockLength(),
                       summer.currentoffset, diskfile, n => shortchecksum, n => shorthash);
    w := view;
    entry, duplicate := table.FindMatch(suggested, sourcefile, status, view);
  }

  /** An entry that is found holds, and lies in the file unless it is the one that was expected. */
  lemma {:induction false} AnswerHolds<S>(h: Compression<S>, table: VerificationHashTable, blocksize: nat,
                                          window: seq<byte>, w: Window, left: nat, offset: nat, diskfile: int,
                                          suggested: int, sourcefile: int, status: Status, entry: int, duplicate: bool)
    requires Lengths(table, blocksize) && -1 <= suggested < |table.nodes| && -1 < entry < |table.nodes| && 0 < left
    requires |status.found| == |status.diskfile| == |table.nodes|
    requires Shown(h, blocksize, w, window, left, offset, diskfile, Asked(table.nodes, suggested))
    requires table.Answer(suggested, sourcefile, status, w, entry, duplicate)
    ensures Holds(h, blocksize, table.nodes[entry].block, window)
    ensures entry == suggested || table.nodes[entry].block.length <= left
  {
    hide Checksum, Md5.Hash, HashNumber;
    if !table.Suggests(suggested, status, w) {
      table.AnswerFits(suggested, sourcefile, status, w, entry, duplicate);
    }
    hide VerificationHashTable.OtherAnswer;
  }

  // ----- The scan -----

  /** Match k is of the entry that was expected, right behind the match before it. */
  ghost predicate Expected(nodes: seq<VerificationHashEntry>, matches: seq<Match>, k: nat)
    requires k < |matches|
  {
    && 0 < k && matches[k - 1].entry < |nodes|
    && nodes[matches[k - 1].entry].next == matches[k].entry
    && matches[k].offset == matches[k - 1].offset + nodes[matches[k - 1].entry].block.length
  }

  /** The scan has seen match k, and it lies in the file unless it was expected. */
  ghost predicate Genuine<S>(h: Compression<S>, file: seq<byte>, blocksize: nat, nodes: seq<VerificationHashEntry>,
                             matches: seq<Match>, moves: seq<nat>, k: nat)
    requires k < |matches|
  {
    var m := matches[k];
    && m.entry < |nodes| && Seen(h, file, blocksize, nodes[m.entry].block, moves, m.offset)
    && (m.offset + nodes[m.entry].block.length <= |file| || Expected(nodes, matches, k))
  }

  /** Every match found so far is genuine, and the matches do not overlap; `offset` is where the scan is. */
  ghost predicate AllGenuine<S>(h: Compression<S>, file: seq<byte>, blocksize: nat, nodes: seq<VerificationHashEntry>,
                                matches: seq<Match>, moves: seq<nat>, offset: nat) {
    && (forall k :: 0 <= k < |matches| ==> Genuine(h, file, blocksize, nodes, matches, moves, k))
    && (forall k :: 0 <= k < |matches| ==>
          End(nodes, file, matches, k) <= if k + 1 < |matches| then matches[k + 1].offset else offset)
  }

  /** Where match k ends, at most at the end of the file. */
  function End(nodes: seq<VerificationHashEntry>, file: seq<byte>, matches: seq<Match>, k: nat): nat
    requires k < |matches|
  {
    var m := matches[k];
    if m.entry < |nodes| && m.offset + nodes[m.entry].block.length < |file| then m.offset + nodes[m.entry].block.length
    else |file|
  }

  /** Behind match k comes the block expected there, directly, or the scan stands there and expects it. */
  ghost predicate InRow(nodes: seq<VerificationHashEntry>, file: seq<byte>, matches: seq<Match>, nextentry: int,
                        offset: nat, k: nat)
    requires k < |matches| && matches[k].entry < |nodes|
  {
    && (if k + 1 < |matches| then matches[k + 1].offset else offset) == End(nodes, file, matches, k)
    && (if k + 1 < |matches| then matches[k + 1].entry as int else nextentry) == nodes[matches[k].entry].next
  }

  /** So far the file consists of the blocks of one source file, one after the other from the first. */
  ghost predicate Perfect(nodes: seq<VerificationHashEntry>, file: seq<byte>, matches: seq<Match>, sourcefile: int,
                          nextentry: int, offset: nat) {
    if |matches| == 0 then offset == 0
    else
      && (forall k :: 0 <= k < |matches| ==> matches[k].entry < |nodes|)
      && matches[0].offset == 0 && nodes[matches[0].entry].block.firstblock
      && nodes[matches[0].entry].block.sourcefile == sourcefile
      && forall k :: 0 <= k < |matches| ==> InRow(nodes, file, matches, nextentry, offset, k)
  }

  /** The status after recording some matches. */
  function Recorded(status: Status, matches: seq<Match>, diskfile: int, recording: bool): Status
    decreases |matches|
  {
    if |matches| == 0 || !recording then status
    else
      var n := |matches| - 1;
      var before, i := Recorded(status, matches[..n], diskfile, recording), matches[n].entry;
      if i < |before.found| && i < |before.diskfile| then
        Status(before.found[i := true], before.diskfile[i := diskfile], before.complete)
      else before
  }

  /** Entry e is among the matches. */
  ghost predicate Matched(matches: seq<Match>, e: nat) {
    exists k :: 0 <= k < |matches| && matches[k].entry == e
  }

  /** Exactly the entries matched are recorded. */
  lemma {:induction false} RecordedIs(status: Status, matches: seq<Match>, diskfile: int, recording: bool, e: nat)
    requires e < |status.found| == |status.diskfile|
    ensures var s := Recorded(status, matches, diskfile, recording);
            && |s.found| == |s.diskfile| == |status.found|
            && (s.found[e] <==> status.found[e] || (recording && Matched(matches, e)))
            && s.diskfile[e] == if recording && Matched(matches, e) then diskfile else status.diskfile[e]
    decreases |matches|
  {
    if |matches| > 0 && recording {
      var n := |matches| - 1;
      RecordedIs(status, matches[..n], diskfile, recording, e);
      assert matches == matches[..n] + [matches[n]];
      assert Matched(matches, e) <==> Matched(matches[..n], e) || matches[n].entry == e;
    }
  }

  lemma {:induction false} RecordedSizes(status: Status, matches: seq<Match>, diskfile: int, recording: bool)
    ensures var s := Recorded(status, matches, diskfile, recording);
            |s.found| == |status.found| && |s.diskfile| == |status.diskfile| && s.complete == status.complete
    decreases |matches|
  {
    if |matches| > 0 {
      RecordedSizes(status, matches[..|matches| - 1], diskfile, recording);
    }
  }

  /** One more match, recorded. */
  lemma {:induction false} RecordedNext(status: Status, matches: seq<Match>, m: Match, diskfile: int, recording: bool)
    requires m.entry < |status.found| == |status.diskfile|
    ensures var s := Recorded(status, matches, diskfile, recording);
            && |s.found| == |s.diskfile| == |status.found|
            && Recorded(status, matches + [m], diskfile, recording) ==
               if recording then Status(s.found[m.entry := true], s.diskfile[m.entry := diskfile], s.complete) else s
  {
    RecordedSizes(status, matches, diskfile, recording);
    assert (matches + [m])[..|matches|] == matches;
  }

  /** One more match, and one more move. */
  lemma {:induction false} GenuineNext<S>(h: Compression<S>, file: seq<byte>, blocksize: nat,
                                          nodes: seq<VerificationHashEntry>, matches: seq<Match>, m: Match,
                                          moves: seq<nat>, offset: nat)
    requires AllGenuine(h, file, blocksize, nodes, matches, moves, m.offset) && m.entry < |nodes|
    requires Genuine(h, file, blocksize, nodes, matches + [m], moves, |matches|)
    requires offset == End(nodes, file, matches + [m], |matches|)
    ensures AllGenuine(h, file, blocksize, nodes, matches + [m], moves, offset)
  {
    var r := matches + [m];
    forall k | 0 <= k < |r|
      ensures Genuine(h, file, blocksize, nodes, r, moves, k)
      ensures End(nodes, file, r, k) <= if k + 1 < |r| then r[k + 1].offset else offset
    {
      if k < |matches| {
        GenuineKept(h, file, blocksize, nodes, matches, m, moves, k);
      }
    }
  }

  lemma {:induction false} GenuineKept<S>(h: Compression<S>, file: seq<byte>, blocksize: nat,
                                          nodes: seq<VerificationHashEntry>, matches: seq<Match>, m: Match,
                                          moves: seq<nat>, k: nat)
    requires k < |matches| && Genuine(h, file, blocksize, nodes, matches, moves, k)
    ensures Genuine(h, file, blocksize, nodes, matches + [m], moves, k)
    ensures End(nodes, file, matches + [m], k) == End(nodes, file, matches, k)
  {
    hide Seen;
    assert (matches + [m])[k] == matches[k];
    assert k > 0 ==> (matches + [m])[k - 1] == matches[k - 1];
  }

  /** The same matches, seen from further on. */
  lemma {:induction false} GenuineFurther<S>(h: Compression<S>, file: seq<byte>, blocksize: nat,
                                             nodes: seq<VerificationHashEntry>, matches: seq<Match>, moves: seq<nat>,
                                             distance: nat, offset: nat, offset': nat)
    requires AllGenuine(h, file, blocksize, nodes, matches, moves, offset) && offset <= offset'
    ensures AllGenuine(h, file, blocksize, nodes, matches, moves, offset')
    ensures AllGenuine(h, file, blocksize, nodes, matches, moves + [distance], offset')
  {
    hide Seen, End;
    forall k | 0 <= k < |matches|
      ensures Genuine(h, file, blocksize, nodes, matches, moves + [distance], k)
    {
      var m := matches[k];
      assert Genuine(h, file, blocksize, nodes, matches, moves, k);
      SeenStill(h, file, blocksize, nodes[m.entry].block, moves, m.offset, distance);
    }
  }

  /** The blocks so far, and one more that was expected. */
  lemma {:induction false} PerfectNext(nodes: seq<VerificationHashEntry>, file: seq<byte>, matches: seq<Match>,
                                       sourcefile: int, nextentry: int, m: Match, offset: nat)
    requires Perfect(nodes, file, matches, sourcefile, nextentry, m.offset) && m.entry < |nodes|
    requires if |matches| == 0 then nodes[m.entry].block.firstblock && nodes[m.entry].block.sourcefile == sourcefile
             else m.entry == nextentry
    requires offset == End(nodes, file, matches + [m], |matches|)
    ensures Perfect(nodes, file, matches + [m], sourcefile, nodes[m.entry].next, offset)
  {
    var r, n := matches + [m], |matches|;
    hide End;
    forall k | 0 <= k < |r|
      ensures r[k].entry < |nodes| && InRow(nodes, file, r, nodes[m.entry].next, offset, k)
    {
      if k < n {
        RowKept(nodes, file, matches, m, nextentry, k);
      } else {
        assert r[k] == m;
      }
    }
    assert r[0] == if n > 0 then matches[0] else m;
  }

  /** An earlier match, with one more behind it. */
  lemma {:induction false} RowKept(nodes: seq<VerificationHashEntry>, file: seq<byte>, matches: seq<Match>, m: Match,
                                   nextentry: int, k: nat)
    requires k < |matches| && matches[k].entry < |nodes| && InRow(nodes, file, matches, nextentry, m.offset, k)
    requires m.entry < |nodes| && m.entry == nextentry
    ensures forall next, offset :: InRow(nodes, file, matches + [m], next, offset, k)
  {
    var r := matches + [m];
    assert r[k] == matches[k];
    assert r[k + 1] == if k + 1 < |matches| then matches[k + 1] else m;
  }

  /** The variables of the scan: the kind of match so far, the preferred source file, the entry expected
      next (-1 for none), the matches, and which blocks have been found. */
  datatype Progress = Progress(matchtype: MatchType, sourcefile: int, nextentry: int, matches: seq<Match>,
                               status: Status)

  /** The entry expected next is the one behind the last match, and the scan is right there. */
  ghost predicate Follows(nodes: seq<VerificationHashEntry>, file: seq<byte>, matches: seq<Match>, nextentry: int,
                          offset: nat) {
    && 0 < |matches| && matches[|matches| - 1].entry < |nodes|
    && nodes[matches[|matches| - 1].entry].next == nextentry
    && offset == End(nodes, file, matches, |matches| - 1)
  }

  ghost predicate Good<S>(h: Compression<S>, file: seq<byte>, blocksize: nat, nodes: seq<VerificationHashEntry>,
                          p: Progress, status: Status, diskfile: int, recording: bool, moves: seq<nat>, offset: nat) {
    && AllGenuine(h, file, blocksize, nodes, p.matches, moves, offset)
    && p.status == Recorded(status, p.matches, diskfile, recording)
    && |p.status.found| == |p.status.diskfile| == |nodes| == |status.found| == |status.diskfile|
    && -1 <= p.nextentry < |nodes| && -1 <= p.sourcefile && p.matchtype != NoMatch
    && (p.nextentry != -1 ==> Follows(nodes, file, p.matches, p.nextentry, offset))
    && (p.matchtype == FullMatch ==> Perfect(nodes, file, p.matches, p.sourcefile, p.nextentry, offset))
  }

  /** The variables after a match. */
  function Found(nodes: seq<VerificationHashEntry>, p: Progress, m: Match, diskfile: int, recording: bool): Progress
    requires m.entry < |nodes| && m.entry < |p.status.found| && m.entry < |p.status.diskfile|
  {
    var block := nodes[m.entry].block;
    var first := |p.matches| == 0;
    // The first match has to be a first block at offset 0, any other the one that was expected.
    var partial := if first then !block.firstblock || m.offset != 0 else m.entry != p.nextentry;
    Progress(if partial then PartialMatch else p.matchtype,
             if first then block.sourcefile else p.sourcefile,
             nodes[m.entry].next,
             p.matches + [m],
             if recording then Status(p.status.found[m.entry := true], p.status.diskfile[m.entry := diskfile],
                                      p.status.complete)
             else p.status)
  }

  lemma {:induction false} FoundGood<S>(h: Compression<S>, file: seq<byte>, blocksize: nat,
                                        nodes: seq<VerificationHashEntry>, p: Progress, m: Match, status: Status,
                                        diskfile: int, recording: bool, moves: seq<nat>, offset: nat)
    requires Good(h, file, blocksize, nodes, p, status, diskfile, recording, moves, m.offset) && m.entry < |nodes|
    requires Seen(h, file, blocksize, nodes[m.entry].block, moves, m.offset) && -1 <= nodes[m.entry].next < |nodes|
    requires m.entry == p.nextentry || m.offset + nodes[m.entry].block.length <= |file|
    requires offset == Min(m.offset + nodes[m.entry].block.length, |file|) && m.offset < |file|
    ensures m.entry < |p.status.found| && m.entry < |p.status.diskfile|
    ensures Good(h, file, blocksize, nodes, Found(nodes, p, m, diskfile, recording), status, diskfile, recording,
                 moves, offset)
  {
    hide Seen;
    RecordedNext(status, p.matches, m, diskfile, recording);
    var r, n := p.matches + [m], |p.matches|;
    assert r[n] == m && (n > 0 ==> r[n - 1] == p.matches[n - 1]);
    assert offset == End(nodes, file, r, n);
    assert Genuine(h, file, blocksize, nodes, r, moves, n);
    GenuineNext(h, file, blocksize, nodes, p.matches, m, moves, offset);
    var q := Found(nodes, p, m, diskfile, recording);
    if q.matchtype == FullMatch {
      PerfectStart(nodes, file, p, m);
      PerfectNext(nodes, file, p.matches, q.sourcefile, p.nextentry, m, offset);
    }
    hide AllGenuine, Perfect, Recorded, End;
  }

  /** With no match yet the preferred source file does not matter. */
  lemma {:induction false} PerfectStart(nodes: seq<VerificationHashEntry>, file: seq<byte>, p: Progress, m: Match)
    requires Perfect(nodes, file, p.matches, p.sourcefile, p.nextentry, m.offset) && m.entry < |nodes|
    ensures Perfect(nodes, file, p.matches,
                    if |p.matches| == 0 then nodes[m.entry].block.sourcefile else p.sourcefile, p.nextentry, m.offset)
  {
  }

  /** The variables after a window; without a match in it, it can only be a partial match. */
  function Advanced(nodes: seq<VerificationHashEntry>, p: Progress, entry: int, offset: nat, diskfile: int,
                    recording: bool): Progress
    requires entry < |nodes| == |p.status.found| == |p.status.diskfile|
  {
    if entry >= 0 then Found(nodes, p, Match(entry, offset), diskfile, recording)
    else p.(matchtype := PartialMatch, nextentry := -1)
  }

  /** How far the scan moves on: past the block found, past a whole window if the match was a duplicate, or by
      one byte. */
  function Distance(nodes: seq<VerificationHashEntry>, blocksize: nat, entry: int, duplicate: bool): nat
    requires entry < |nodes|
  {
    if entry >= 0 then nodes[entry].block.length else if duplicate then blocksize else 1
  }

  /** The scan has looked at the window after the moves. */
  ghost predicate Looked<S>(h: Compression<S>, file: seq<byte>, blocksize: nat, table: VerificationHashTable,
                            p: Progress, diskfile: int, moves: seq<nat>, w: Window, entry: int, duplicate: bool)
    requires 0 < blocksize && Windows.Inside(|file|, blocksize, moves)
    requires -1 <= p.nextentry < |table.nodes| == |p.status.found| == |p.status.diskfile|
    reads table
  {
    && Shown(h, blocksize, w, Windows.Window(file, blocksize, moves), |file| - Windows.Total(moves),
             Windows.Total(moves), diskfile, Asked(table.nodes, p.nextentry))
    && -1 <= entry < |table.nodes| && table.Answer(p.nextentry, p.sourcefile, p.status, w, entry, duplicate)
  }

  /** Look at the current window and move on. */
  method ScanStep<S>(summer: FileCheckSummer<S>, table: VerificationHashTable, p: Progress, diskfile: int,
                     recording: bool, ghost moves: seq<nat>)
    returns (q: Progress, ghost w: Window, ghost entry: int, ghost duplicate: bool)
    requires Along(summer, moves) && Windows.Inside(|summer.file|, summer.blocksize, moves) && 0 < summer.blocksize
    requires table.Valid() && Lengths(table, summer.blocksize) && table !in summer.Repr && -1 <= p.sourcefile
    requires -1 <= p.nextentry < |table.nodes| == |p.status.found| == |p.status.diskfile|
    modifies summer.Repr
    ensures -1 <= entry < |table.nodes|
    ensures Looked(summer.h, summer.file, summer.blocksize, table, p, diskfile, moves, w, entry, duplicate)
    ensures q == Advanced(table.nodes, p, entry, Windows.Total(moves), diskfile, recording)
    ensures var distance := Distance(table.nodes, summer.blocksize, entry, duplicate);
            && summer.Valid() && summer.currentoffset == Min(Windows.Total(moves) + distance, |summer.file|)
            && (summer.currentoffset < |summer.file| ==> Along(summer, moves + [distance]))
  {
    hide *;
    WindowFacts(summer, moves);
    ghost var view := Windows.Viewed(summer.file, summer.blocksize, moves);
    Standing(summer, moves);
    var found, again;
    found, again, w := LookForMatch(summer, table, p.nextentry, p.sourcefile, p.status, diskfile, moves);
    entry, duplicate := found, again;
    LookedAt(summer.h, summer.file, summer.blocksize, table, p, diskfile, moves, w, entry, duplicate);
    q := Advanced(table.nodes, p, found, summer.currentoffset, diskfile, recording);
    var ok;
    ghost var distance := Distance(table.nodes, summer.blocksize, entry, duplicate);
    if found != -1 {
      EntryFacts(table, summer.blocksize, found);
    }
    Lands(summer.currentoffset, distance, summer.blocksize, |summer.file|);
    if found != -1 {
      ok := summer.Jump(table.nodes[found].block.length);
    } else if again {
      ok := summer.Jump(summer.blocksize);
    } else {
      ok := summer.Step();
    }
    Landed(summer, moves, distance);
  }

  lemma {:induction false} LookedAt<S>(h: Compression<S>, file: seq<byte>, blocksize: nat, table: VerificationHashTable,
                                       p: Progress, diskfile: int, moves: seq<nat>, w: Window, entry: int,
                                       duplicate: bool)
    requires 0 < blocksize && Windows.Inside(|file|, blocksize, moves)
    requires -1 <= p.nextentry < |table.nodes| == |p.status.found| == |p.status.diskfile| && -1 <= entry < |table.nodes|
    requires Shown(h, blocksize, w, Windows.Window(file, blocksize, moves), |file| - Windows.Total(moves),
                   Windows.Total(moves), diskfile, Asked(table.nodes, p.nextentry))
    requires table.Answer(p.nextentry, p.sourcefile, p.status, w, entry, duplicate)
    ensures Looked(h, file, blocksize, table, p, diskfile, moves, w, entry, duplicate)
    ensures Distance(table.nodes, blocksize, entry, duplicate) ==
            if entry != -1 then table.nodes[entry].block.length else if duplicate then blocksize else 1
  {
    hide Shown, VerificationHashTable.Answer, Windows.Window, Windows.Total, Windows.Inside;
  }

  lemma {:induction false} Standing<S>(summer: FileCheckSummer<S>, moves: seq<nat>)
    requires Along(summer, moves)
    ensures summer.Valid() && 0 < summer.blocksize && Windows.Inside(|summer.file|, summer.blocksize, moves)
    ensures summer.Current() == Windows.Viewed(summer.file, summer.blocksize, moves)
  {
    hide FileCheckSummer.Valid, Windows.Viewed, Windows.Inside;
  }

  /** Where a jump of at most a block lands. */
  lemma {:induction false} Lands(offset: nat, distance: nat, blocksize: nat, filesize: nat)
    requires 0 < distance <= blocksize && offset < filesize
    ensures Min(distance, blocksize) == distance && Min(offset + distance, filesize) > offset
    ensures distance == 1 ==> Min(offset + distance, filesize) == offset + 1
  {
  }

  /** Where a move has led, if not to the end of the file. */
  lemma {:induction false} Landed<S>(summer: FileCheckSummer<S>, moves: seq<nat>, distance: nat)
    requires summer.Valid() && 0 < summer.blocksize && Windows.Inside(|summer.file|, summer.blocksize, moves)
    requires 0 < distance <= summer.blocksize
    requires summer.currentoffset == Min(Windows.Total(moves) + distance, |summer.file|)
    requires summer.currentoffset < |summer.file| ==>
               summer.Current() == Windows.Moved(summer.file, summer.blocksize,
                                                 Windows.Viewed(summer.file, summer.blocksize, moves), distance)
    ensures summer.currentoffset < |summer.file| ==> Along(summer, moves + [distance])
  {
    hide FileCheckSummer.Valid, Windows.Viewed, Windows.Inside, Windows.Fits, Windows.Moved, Windows.Total, Along;
    if summer.currentoffset < |summer.file| {
      AlongNext(summer, moves, distance);
    }
  }

  lemma {:induction false} EntryFacts(table: VerificationHashTable, blocksize: nat, entry: nat)
    requires table.Valid() && Lengths(table, blocksize) && entry < |table.nodes|
    ensures -1 <= table.nodes[entry].next < |table.nodes| && 0 < table.nodes[entry].block.length <= blocksize
  {
    hide Forest.Valid;
  }

  /** A step keeps what the scan has found. */
  lemma {:induction false} StepGood<S>(h: Compression<S>, file: seq<byte>, blocksize: nat, table: VerificationHashTable,
                                       p: Progress, status: Status, diskfile: int, recording: bool, moves: seq<nat>,
                                       w: Window, entry: int, duplicate: bool)
    requires 0 < blocksize && Windows.Inside(|file|, blocksize, moves) && table.Valid() && Lengths(table, blocksize)
    requires Good(h, file, blocksize, table.nodes, p, status, diskfile, recording, moves, Windows.Total(moves))
    requires Looked(h, file, blocksize, table, p, diskfile, moves, w, entry, duplicate)
    ensures var distance := Distance(table.nodes, blocksize, entry, duplicate);
            && 0 < distance <= blocksize
            && Good(h, file, blocksize, table.nodes,
                    Advanced(table.nodes, p, entry, Windows.Total(moves), diskfile, recording), status, diskfile,
                    recording, moves + [distance], Min(Windows.Total(moves) + distance, |file|))
  {
    hide VerificationHashTable.Valid, VerificationHashTable.Answer, Windows.Window, Shown, Holds, Seen, AllGenuine,
         Recorded, Perfect, Lengths;
    var offset, distance := Windows.Total(moves), Distance(table.nodes, blocksize, entry, duplicate);
    var next := Min(offset + distance, |file|);
    if entry != -1 {
      EntryFacts(table, blocksize, entry);
      AnswerHolds(h, table, blocksize, Windows.Window(file, blocksize, moves), w, |file| - offset, offset, diskfile,
                  p.nextentry, p.sourcefile, p.status, entry, duplicate);
      SeenNow(h, file, blocksize, table.nodes[entry].block, moves);
      FoundGood(h, file, blocksize, table.nodes, p, Match(entry, offset), status, diskfile, recording, moves, next);
      GoodFurther(h, file, blocksize, table.nodes, Found(table.nodes, p, Match(entry, offset), diskfile, recording),
                  status, diskfile, recording, moves, distance, next);
    } else {
      NothingFound(h, file, blocksize, table.nodes, p, status, diskfile, recording, moves, distance, offset, next);
    }
  }

  lemma {:induction false} GoodFurther<S>(h: Compression<S>, file: seq<byte>, blocksize: nat,
                                          nodes: seq<VerificationHashEntry>, p: Progress, status: Status, diskfile: int,
                                          recording: bool, moves: seq<nat>, distance: nat, offset: nat)
    requires Good(h, file, blocksize, nodes, p, status, diskfile, recording, moves, offset)
    ensures Good(h, file, blocksize, nodes, p, status, diskfile, recording, moves + [distance], offset)
  {
    GenuineFurther(h, file, blocksize, nodes, p.matches, moves, distance, offset, offset);
    hide AllGenuine, Perfect, Recorded, Follows;
  }

  lemma {:induction false} NothingFound<S>(h: Compression<S>, file: seq<byte>, blocksize: nat,
                                           nodes: seq<VerificationHashEntry>, p: Progress, status: Status,
                                           diskfile: int, recording: bool, moves: seq<nat>, distance: nat, offset: nat,
                                           offset': nat)
    requires Good(h, file, blocksize, nodes, p, status, diskfile, recording, moves, offset) && offset <= offset'
    ensures Good(h, file, blocksize, nodes, p.(matchtype := PartialMatch, nextentry := -1), status, diskfile, recording,
                 moves + [distance], offset')
  {
    GenuineFurther(h, file, blocksize, nodes, p.matches, moves, distance, offset, offset');
    hide AllGenuine, Perfect, Recorded, Follows;
  }

  /** Before the first step nothing has been found, and the file may still match. */
  lemma {:induction false} NothingYet<S>(h: Compression<S>, file: seq<byte>, blocksize: nat,
                                         nodes: seq<VerificationHashEntry>, sourcefile: int, status: Status,
                                         diskfile: int, recording: bool)
    requires |status.found| == |status.diskfile| == |nodes| && -1 <= sourcefile
    ensures AllGenuine(h, file, blocksize, nodes, [], [], |file|) && Recorded(status, [], diskfile, recording) == status
    ensures Good(h, file, blocksize, nodes, Progress(FullMatch, sourcefile, -1, [], status), status, diskfile,
                 recording, [], 0)
  {
  }

  lemma {:induction false} GoodSizes<S>(h: Compression<S>, file: seq<byte>, blocksize: nat,
                                        nodes: seq<VerificationHashEntry>, p: Progress, status: Status, diskfile: int,
                                        recording: bool, moves: seq<nat>, offset: nat)
    requires Good(h, file, blocksize, nodes, p, status, diskfile, recording, moves, offset)
    ensures |p.status.found| == |p.status.diskfile| == |nodes| && -1 <= p.nextentry < |nodes| && -1 <= p.sourcefile
  {
  }

  /** What the variables mean at the end. */
  lemma {:induction false} GoodFacts<S>(h: Compression<S>, file: seq<byte>, blocksize: nat,
                                        nodes: seq<VerificationHashEntry>, p: Progress, status: Status, diskfile: int,
                                        recording: bool, moves: seq<nat>, files: nat)
    requires Good(h, file, blocksize, nodes, p, status, diskfile, recording, moves, |file|)
    requires forall i :: 0 <= i < |nodes| ==> nodes[i].block.sourcefile < files
    ensures AllGenuine(h, file, blocksize, nodes, p.matches, moves, |file|) && p.matchtype != NoMatch
    ensures p.status == Recorded(status, p.matches, diskfile, recording)
    ensures p.matchtype == FullMatch ==>
              && Perfect(nodes, file, p.matches, p.sourcefile, p.nextentry, |file|)
              && (|p.matches| > 0 ==> 0 <= p.sourcefile < files)
  {
    hide Genuine, Recorded;
  }

  lemma {:induction false} OffsetInFile<S>(summer: FileCheckSummer<S>)
    requires summer.Valid()
    ensures summer.currentoffset <= |summer.file|
  {
    hide Checksum, TablesFor, After;
  }

  // ----- Undamaged files -----

  /** The entry of block k of a file, as source file s, whose entries start at `first`. */
  ghost predicate EntryOf<S>(h: Compression<S>, file: seq<byte>, blocksize: nat, nodes: seq<VerificationHashEntry>,
                             s: nat, first: nat, k: nat)
    requires 0 < blocksize
  {
    && SourceFiles.Start(blocksize, k) < |file| && first + k < |nodes|
    && var e := nodes[first + k];
       && e.block.sourcefile == s && e.block.length == SourceFiles.BlockOf(|file|, blocksize, k).length
       && (e.block.firstblock <==> k == 0)
       && e.next == (if k + 1 < SourceFiles.BlockCount(|file|, blocksize) then first + k + 1 else -1)
       && Identified(h, e.block, SourceFiles.PaddedBlock(file, blocksize, k))
  }

  /** The file is source file s, whose entries start at `first` and are still available, and no other entry can be
      taken for that of its first block: either there is no other with its crc and hash, or the file is
      scanned as that source file, and there is none before it. */
  ghost predicate Intact<S>(h: Compression<S>, file: seq<byte>, blocksize: nat, nodes: seq<VerificationHashEntry>,
                            status: Status, diskfile: int, sourcefile: int, s: nat, first: nat)
    requires 0 < blocksize
  {
    && 0 < |file| && |status.found| == |status.diskfile| == |nodes|
    && (forall k :: 0 <= k < SourceFiles.BlockCount(|file|, blocksize) ==>
          EntryOf(h, file, blocksize, nodes, s, first, k) && Available(nodes, status, diskfile, first, k))
    && s !in status.complete && first < |nodes|
    && forall i :: 0 <= i < |nodes| && i != first && SameBlock(nodes, i, first) ==>
                     sourcefile == s && (i < first ==> nodes[i].block.sourcefile != s)
  }

  /** Entry k of the file has not been found yet; or it has, in another data file, but is the only one with its crc
      and hash. */
  ghost predicate Available(nodes: seq<VerificationHashEntry>, status: Status, diskfile: int, first: nat, k: nat)
    requires |status.found| == |status.diskfile| == |nodes|
  {
    var i := first + k;
    i < |nodes| && (status.found[i] ==> status.diskfile[i] != diskfile && OnlyEntry(nodes, i))
  }

  ghost predicate OnlyEntry(nodes: seq<VerificationHashEntry>, i: nat)
    requires i < |nodes|
  {
    forall j :: 0 <= j < |nodes| && j != i ==> !SameBlock(nodes, j, i)
  }

  ghost predicate SameBlock(nodes: seq<VerificationHashEntry>, i: nat, j: nat)
    requires i < |nodes| && j < |nodes|
  {
    nodes[i].block.crc == nodes[j].block.crc && nodes[i].block.hash == nodes[j].block.hash
  }

  /** The scan of an undamaged file stays on track, whichever source file it is. */
  ghost predicate AllOnTrack<S>(h: Compression<S>, file: seq<byte>, blocksize: nat, nodes: seq<VerificationHashEntry>,
                                status: Status, diskfile: int, sourcefile: int, p: Progress, moves: seq<nat>,
                                offset: nat)
    requires 0 < blocksize
  {
    forall s: nat, first: nat :: Intact(h, file, blocksize, nodes, status, diskfile, sourcefile, s, first) ==>
                         OnTrack(file, blocksize, p, status, sourcefile, s, first, moves, offset, |p.matches|)
  }

  /** If the file is an undamaged source file, all its blocks have been found; and if the description packet
      agrees with it, it is a full match with that source file. */
  ghost predicate Reported<S>(h: Compression<S>, file: seq<byte>, blocksize: nat, nodes: seq<VerificationHashEntry>,
                              status: Status, diskfile: int, sourcefile0: int, files: seq<Description>,
                              matchtype: MatchType, sourcefile: int, hashes: (seq<byte>, seq<byte>),
                              matches: seq<Match>)
    requires 0 < blocksize
  {
    forall s: nat, first: nat :: Intact(h, file, blocksize, nodes, status, diskfile, sourcefile0, s, first) ==>
                         && matches == Row(blocksize, first, SourceFiles.BlockCount(|file|, blocksize)) && s < |files|
                         && (files[s] == Description(|matches|, |file|, hashes.0, hashes.1) ==>
                               matchtype == FullMatch && sourcefile == s)
  }

  /** The first k blocks of the file, one after the other. */
  function Row(blocksize: nat, first: nat, k: nat): (r: seq<Match>)
    ensures |r| == k
  {
    seq(k, j requires 0 <= j => Match(first + j, SourceFiles.Start(blocksize, j)))
  }

  /** The scan of an undamaged file, when it has found the first k blocks. */
  ghost predicate OnTrack(file: seq<byte>, blocksize: nat, p: Progress, status: Status, sourcefile: int, s: nat,
                          first: nat, moves: seq<nat>, offset: nat, k: nat)
    requires 0 < blocksize
  {
    var n := SourceFiles.BlockCount(|file|, blocksize);
    && k <= n && p.matches == Row(blocksize, first, k) && offset == Min(SourceFiles.Start(blocksize, k), |file|)
    && p.matchtype == FullMatch && |p.status.found| == |status.found| == |p.status.diskfile| == |status.diskfile|
    && p.status.complete == status.complete
    && (forall i :: first + k <= i < |status.found| ==>
          p.status.found[i] == status.found[i] && p.status.diskfile[i] == status.diskfile[i])
    && if k == 0 then p.nextentry == -1 && p.sourcefile == sourcefile && moves == []
       else p.nextentry == (if k < n then first + k else -1) && p.sourcefile == s
  }

  /** The window at block k of the file, as far as it is in the file. */
  lemma {:induction false} BlockInWindow(file: seq<byte>, blocksize: nat, moves: seq<nat>, k: nat)
    requires 0 < blocksize && Windows.Inside(|file|, blocksize, moves)
    requires Windows.Total(moves) == SourceFiles.Start(blocksize, k)
    ensures SourceFiles.Start(blocksize, k) < |file|
    ensures var length := SourceFiles.BlockOf(|file|, blocksize, k).length;
            && length == Min(blocksize, |file| - Windows.Total(moves))
            && PaddedTo(Windows.Window(file, blocksize, moves)[..length], blocksize) ==
               SourceFiles.PaddedBlock(file, blocksize, k)
            && (length == blocksize ==>
                  Windows.Window(file, blocksize, moves) == SourceFiles.PaddedBlock(file, blocksize, k))
  {
    hide Windows.Window, SourceFiles.Start;
    Windows.WindowStarts(file, blocksize, moves);
    hide Windows.Inside, Windows.Total;
    var window := Windows.Window(file, blocksize, moves);
    assert window[..blocksize] == window;
  }

  /** The first window is the first block, padded. */
  lemma {:induction false} FirstWindow(file: seq<byte>, blocksize: nat)
    requires 0 < blocksize && 0 < |file|
    ensures Windows.Inside(|file|, blocksize, []) && Windows.Total([]) == SourceFiles.Start(blocksize, 0) == 0
    ensures Windows.Window(file, blocksize, []) == SourceFiles.PaddedBlock(file, blocksize, 0)
  {
    hide Windows.Window;
    LaidOutOnce(file, blocksize, [], 0);
  }

  /** The first window of an undamaged file is found to be the first block. */
  lemma {:induction false} FirstFound<S>(h: Compression<S>, file: seq<byte>, blocksize: nat,
                                         table: VerificationHashTable, p: Progress, status: Status, diskfile: int,
                                         sourcefile: int, s: nat, first: nat, w: Window, entry: int, duplicate: bool)
    requires 0 < blocksize && 0 < |file| && Windows.Inside(|file|, blocksize, [])
    requires Intact(h, file, blocksize, table.nodes, status, diskfile, sourcefile, s, first)
    requires OnTrack(file, blocksize, p, status, sourcefile, s, first, [], 0, 0)
    requires |p.status.found| == |p.status.diskfile| == |table.nodes|
    requires Looked(h, file, blocksize, table, p, diskfile, [], w, entry, duplicate)
    ensures entry == first
  {
    hide Checksum, Md5.Hash, HashNumber, Windows.Window, Windows.Inside, SourceFiles.Start, SourceFiles.PaddedBlock,
         SourceFiles.BlockCount;
    SourceFiles.BlockStarts(|file|, blocksize, 0);
    FirstWindow(file, blocksize);
    BlockInWindow(file, blocksize, [], 0);
    assert EntryOf(h, file, blocksize, table.nodes, s, first, 0);
    FirstAnswer(table, p, s, first, w, entry, duplicate);
  }

  /** If entry `first` matches the first window, and any other that does counts less, then it is found. */
  lemma {:induction false} FirstAnswer(table: VerificationHashTable, p: Progress, s: nat, first: nat, w: Window,
                                       entry: int, duplicate: bool)
    requires |p.status.found| == |p.status.diskfile| == |table.nodes| && first < |table.nodes| && p.nextentry == -1
    requires -1 <= entry < |table.nodes| && table.Answer(-1, p.sourcefile, p.status, w, entry, duplicate)
    requires w.offset == 0
    requires var block := table.nodes[first].block;
             && block.crc == w.checksum && block.hash == w.hash && block.firstblock && block.sourcefile == s
             && block.length == w.blocklength
    requires s !in p.status.complete && (p.status.found[first] ==> OnlyEntry(table.nodes, first))
    requires forall i :: 0 <= i < |table.nodes| && i != first && SameBlock(table.nodes, i, first) ==>
                           p.sourcefile == s && (i < first ==> table.nodes[i].block.sourcefile != s)
    ensures entry == first
  {
    assert table.Matches(first, w.checksum, w.hash);
    if table.Several(w) {
      var i, j :| 0 <= i < j < |table.nodes| && table.Matches(i, w.checksum, w.hash) &&
        table.Matches(j, w.checksum, w.hash);
      assert SameBlock(table.nodes, i, first) && SameBlock(table.nodes, j, first);
      assert p.sourcefile == s;
      assert table.Usable(first, p.status, w, s);
      forall k | 0 <= k < first
        ensures !table.Usable(k, p.status, w, s)
      {
        assert table.Matches(k, w.checksum, w.hash) ==> SameBlock(table.nodes, k, first);
      }
    } else {
      assert table.OnlyMatch(first, w);
    }
  }

  /** The expected entry, if it matches a whole window and is available, is found. */
  lemma {:induction false} NextAnswer(table: VerificationHashTable, p: Progress, e: nat, w: Window, entry: int,
                                      duplicate: bool)
    requires |p.status.found| == |p.status.diskfile| == |table.nodes| && p.nextentry == e < |table.nodes|
    requires -1 <= entry < |table.nodes| && table.Answer(e, p.sourcefile, p.status, w, entry, duplicate)
    requires table.nodes[e].next != -1 && !w.shortblock
    requires table.nodes[e].block.crc == w.checksum && table.nodes[e].block.hash == w.hash
    requires table.nodes[e].block.sourcefile !in p.status.complete
    requires Available(table.nodes, p.status, w.diskfile, e, 0)
    ensures entry == e
  {
    assert table.Matches(e, w.checksum, w.hash);
    if p.status.found[e] {
      forall j | 0 <= j < |table.nodes| && j != e
        ensures !table.Matches(j, w.checksum, w.hash)
      {
        assert !SameBlock(table.nodes, j, e);
      }
      assert table.OnlyMatch(e, w);
    }
  }

  /** The window at a later block of an undamaged file is found to be the block expected. */
  lemma {:induction false} NextFound<S>(h: Compression<S>, file: seq<byte>, blocksize: nat,
                                        table: VerificationHashTable, p: Progress, status: Status, diskfile: int,
                                        sourcefile: int, s: nat, first: nat, moves: seq<nat>, k: nat, w: Window,
                                        entry: int, duplicate: bool)
    requires 0 < blocksize && Windows.Inside(|file|, blocksize, moves) && 0 < k
    requires Intact(h, file, blocksize, table.nodes, status, diskfile, sourcefile, s, first)
    requires OnTrack(file, blocksize, p, status, sourcefile, s, first, moves, Windows.Total(moves), k)
    requires -1 <= p.nextentry < |table.nodes| == |p.status.found| == |p.status.diskfile|
    requires Looked(h, file, blocksize, table, p, diskfile, moves, w, entry, duplicate)
    ensures entry == first + k && k < SourceFiles.BlockCount(|file|, blocksize)
  {
    hide Checksum, Md5.Hash, HashNumber, Windows.Window, SourceFiles.Start, SourceFiles.PaddedBlock,
         SourceFiles.BlockCount;
    SourceFiles.BlockStarts(|file|, blocksize, k);
    SourceFiles.BlockStarts(|file|, blocksize, k + 1);
    SourceFiles.StartNext(blocksize, k);
    BlockInWindow(file, blocksize, moves, k);
    hide Windows.Inside, Windows.Total, SourceFiles.BlockOf, OnlyEntry;
    assert EntryOf(h, file, blocksize, table.nodes, s, first, k);
    if k + 1 < SourceFiles.BlockCount(|file|, blocksize) {
      NextAnswer(table, p, first + k, w, entry, duplicate);
    }
  }

  /** A step of the scan of an undamaged file finds the next block. */
  lemma {:induction false} StepOnTrack<S>(h: Compression<S>, file: seq<byte>, blocksize: nat,
                                          table: VerificationHashTable, p: Progress, status: Status, diskfile: int,
                                          recording: bool, sourcefile: int, s: nat, first: nat, moves: seq<nat>,
                                          w: Window, entry: int, duplicate: bool)
    requires 0 < blocksize && Windows.Inside(|file|, blocksize, moves)
    requires Intact(h, file, blocksize, table.nodes, status, diskfile, sourcefile, s, first)
    requires OnTrack(file, blocksize, p, status, sourcefile, s, first, moves, Windows.Total(moves), |p.matches|)
    requires -1 <= p.nextentry < |table.nodes| == |p.status.found| == |p.status.diskfile|
    requires Looked(h, file, blocksize, table, p, diskfile, moves, w, entry, duplicate)
    ensures var q := Advanced(table.nodes, p, entry, Windows.Total(moves), diskfile, recording);
            var distance := Distance(table.nodes, blocksize, entry, duplicate);
            OnTrack(file, blocksize, q, status, sourcefile, s, first, moves + [distance],
                    Min(Windows.Total(moves) + distance, |file|), |q.matches|)
  {
    var k := |p.matches|;
    hide Looked, Windows.Inside, SourceFiles.Start, SourceFiles.BlockCount, SourceFiles.PaddedBlock, Identified;
    if k == 0 {
      FirstWindow(file, blocksize);
      FirstFound(h, file, blocksize, table, p, status, diskfile, sourcefile, s, first, w, entry, duplicate);
      SourceFiles.BlockStarts(|file|, blocksize, 0);
    } else {
      NextFound(h, file, blocksize, table, p, status, diskfile, sourcefile, s, first, moves, k, w, entry, duplicate);
    }
    SourceFiles.StartNext(blocksize, k);
    SourceFiles.BlockStarts(|file|, blocksize, k);
    assert EntryOf(h, file, blocksize, table.nodes, s, first, k);
    assert Row(blocksize, first, k + 1) ==
      Row(blocksize, first, k) + [Match(first + k, SourceFiles.Start(blocksize, k))];
  }

  // ----- The whole scan -----

  /** The scan has got from the start to the end, with these moves. */
  ghost predicate Turns<S>(h: Compression<S>, file: seq<byte>, blocksize: nat, table: VerificationHashTable,
                           diskfile: int, recording: bool, start: Progress, end: Progress, moves: seq<nat>)
    requires 0 < blocksize
    reads table
    decreases |moves|
  {
    if |moves| == 0 then start == end
    else
      var n := |moves| - 1;
      exists p, w, entry, duplicate ::
        && Turns(h, file, blocksize, table, diskfile, recording, start, p, moves[..n])
        && LookedOn(h, file, blocksize, table, diskfile, recording, p, moves[..n], w, entry, duplicate, end, moves[n])
  }

  /** One turn of the loop: looking at the window, and moving on. */
  ghost predicate LookedOn<S>(h: Compression<S>, file: seq<byte>, blocksize: nat, table: VerificationHashTable,
                              diskfile: int, recording: bool, p: Progress, moves: seq<nat>, w: Window, entry: int,
                              duplicate: bool, q: Progress, distance: nat)
    requires 0 < blocksize
    reads table
  {
    && Windows.Inside(|file|, blocksize, moves)
    && -1 <= p.nextentry < |table.nodes| == |p.status.found| == |p.status.diskfile|
    && Looked(h, file, blocksize, table, p, diskfile, moves, w, entry, duplicate)
    && q == Advanced(table.nodes, p, entry, Windows.Total(moves), diskfile, recording)
    && distance == Distance(table.nodes, blocksize, entry, duplicate)
  }

  lemma {:induction false} OneMoreTurn<S>(h: Compression<S>, file: seq<byte>, blocksize: nat,
                                          table: VerificationHashTable, diskfile: int, recording: bool, start: Progress,
                                          p: Progress, moves: seq<nat>, w: Window, entry: int, duplicate: bool,
                                          q: Progress, distance: nat)
    requires 0 < blocksize && Turns(h, file, blocksize, table, diskfile, recording, start, p, moves)
    requires LookedOn(h, file, blocksize, table, diskfile, recording, p, moves, w, entry, duplicate, q, distance)
    ensures Turns(h, file, blocksize, table, diskfile, recording, start, q, moves + [distance])
    ensures Windows.Total(moves + [distance]) == Windows.Total(moves) + distance
  {
    hide LookedOn;
    var r, n := moves + [distance], |moves|;
    assert r[..n] == moves && r[n] == distance;
    assert LookedOn(h, file, blocksize, table, diskfile, recording, p, r[..n], w, entry, duplicate, q, r[n]);
  }

  lemma {:induction false} TurnTaken<S>(h: Compression<S>, file: seq<byte>, blocksize: nat,
                                        table: VerificationHashTable, diskfile: int, recording: bool, p: Progress,
                                        moves: seq<nat>, w: Window, entry: int, duplicate: bool)
    requires 0 < blocksize && Windows.Inside(|file|, blocksize, moves) && -1 <= entry < |table.nodes|
    requires -1 <= p.nextentry < |table.nodes| == |p.status.found| == |p.status.diskfile|
    requires Looked(h, file, blocksize, table, p, diskfile, moves, w, entry, duplicate)
    ensures LookedOn(h, file, blocksize, table, diskfile, recording, p, moves, w, entry, duplicate,
                     Advanced(table.nodes, p, entry, Windows.Total(moves), diskfile, recording),
                     Distance(table.nodes, blocksize, entry, duplicate))
  {
    hide Looked, Windows.Inside, Windows.Total, Advanced, Distance;
  }

  /** Scan a data file for blocks.  Every block reported has been seen in a window of the file, in ascending order
      and without overlap; the hashes are those of the file; a full match means that the file consists of all
      the blocks of one source file, in order, and has its size and hashes; and an undamaged file whose blocks
      are still available is reported as a full match, with all its blocks. */
  method ScanDataFile<S>(h: Compression<S>, file: seq<byte>, blocksize: nat, windowtable: seq<nat>, windowmask: nat,
                         table: VerificationHashTable, status0: Status, diskfile: int, recording: bool,
                         sourcefile0: int, files: seq<Description>)
    returns (matchtype: MatchType, sourcefile: int, hashfull: seq<byte>, hash16k: seq<byte>, matches: seq<Match>,
             status: Status, ghost moves: seq<nat>, ghost p: Progress)
    requires 0 < blocksize && TablesFor(windowtable, windowmask, blocksize)
    requires table.Valid() && Lengths(table, blocksize) && |status0.found| == |status0.diskfile| == |table.nodes|
    requires -1 <= sourcefile0 && forall i :: 0 <= i < |table.nodes| ==> table.nodes[i].block.sourcefile < |files|
    ensures |file| == 0 ==> matchtype == NoMatch && matches == [] && sourcefile == sourcefile0
    ensures Turns(h, file, blocksize, table, diskfile, recording, Progress(FullMatch, sourcefile0, -1, [], status0), p,
                  moves)
    ensures Windows.Total(moves) >= |file| && p.matches == matches && p.status == status
    ensures sourcefile == p.sourcefile
    ensures matchtype == FullMatch <==>
              && p.matchtype == FullMatch && 0 < |matches| && 0 <= sourcefile < |files|
              && files[sourcefile] == Description(|matches|, |file|, hashfull, hash16k)
    ensures |file| > 0 ==> hashfull == Md5.Hash(h, file) && hash16k == Md5.Hash(h, file[..Min(|file|, FIRST)])
    ensures AllGenuine(h, file, blocksize, table.nodes, matches, moves, |file|)
    ensures status == Recorded(status0, matches, diskfile, recording)
    ensures matchtype == NoMatch <==> |matches| == 0
    ensures matchtype == FullMatch ==>
              && 0 <= sourcefile < |files|
              && files[sourcefile] == Description(|matches|, |file|, hashfull, hash16k)
              && exists nextentry :: Perfect(table.nodes, file, matches, sourcefile, nextentry, |file|)
    ensures Reported(h, file, blocksize, table.nodes, status0, diskfile, sourcefile0, files, matchtype, sourcefile,
                     (hashfull, hash16k), matches)
  {
    hide *;
    matchtype, sourcefile, hashfull, hash16k, matches, status, moves := NoMatch, sourcefile0, [], [], [], status0, [];
    var start := Progress(FullMatch, sourcefile0, -1, [], status0);
    var scan := start;
    p := start;
    NothingYet(h, file, blocksize, table.nodes, sourcefile0, status0, diskfile, recording);
    TrackStarts(h, file, blocksize, table.nodes, status0, diskfile, sourcefile0);
    NoTurns(h, file, blocksize, table, diskfile, recording, start);
    if |file| == 0 {
      NothingReported(h, file, blocksize, table.nodes, status0, diskfile, sourcefile0, files);
      return;
    }
    var summer := new FileCheckSummer(h, file, blocksize, windowtable, windowmask);
    var ok := summer.Start();
    StartAlong(summer);
    while summer.currentoffset < |file|
      invariant summer.Valid() && summer.currentoffset <= |file| && fresh(summer.Repr)
      invariant summer.currentoffset < |file| ==> Along(summer, moves)
      invariant Turns(h, file, blocksize, table, diskfile, recording, start, scan, moves)
      invariant Min(Windows.Total(moves), |file|) == summer.currentoffset
      invariant Good(h, file, blocksize, table.nodes, scan, status0, diskfile, recording, moves, summer.currentoffset)
      invariant AllOnTrack(h, file, blocksize, table.nodes, status0, diskfile, sourcefile0, scan, moves,
                           summer.currentoffset)
      decreases |file| - summer.currentoffset
    {
      GoodSizes(h, file, blocksize, table.nodes, scan, status0, diskfile, recording, moves, summer.currentoffset);
      WindowFacts(summer, moves);
      ghost var w, entry, duplicate;
      ghost var before := scan;
      scan, w, entry, duplicate := ScanStep(summer, table, scan, diskfile, recording, moves);
      StepGood(h, file, blocksize, table, before, status0, diskfile, recording, moves, w, entry, duplicate);
      StepsOnTrack(h, file, blocksize, table, before, status0, diskfile, recording, sourcefile0, moves, w, entry,
                   duplicate);
      ghost var distance := Distance(table.nodes, blocksize, entry, duplicate);
      Lands(Windows.Total(moves), distance, blocksize, |file|);
      TurnTaken(h, file, blocksize, table, diskfile, recording, before, moves, w, entry, duplicate);
      OneMoreTurn(h, file, blocksize, table, diskfile, recording, start, before, moves, w, entry, duplicate, scan,
                  distance);
      moves := moves + [distance];
      OffsetInFile(summer);
    }
    p := scan;
    MinReached(Windows.Total(moves), |file|);
    hashfull, hash16k := summer.GetFileHashes();
    GoodFacts(h, file, blocksize, table.nodes, scan, status0, diskfile, recording, moves, |files|);
    matchtype, sourcefile, matches, status := scan.matchtype, scan.sourcefile, scan.matches, scan.status;
    if |matches| == 0 {
      matchtype := NoMatch;
    } else if matchtype == FullMatch {
      // The hashes, the size and the number of blocks have to confirm it.
      if files[sourcefile] != Description(|matches|, |file|, hashfull, hash16k) {
        matchtype := PartialMatch;
      }
    }
    TrackEnds(h, file, blocksize, table.nodes, scan, status0, diskfile, sourcefile0, moves, files, (hashfull, hash16k),
              matchtype);
  }

  lemma {:induction false} MinReached(a: nat, b: nat)
    ensures Min(a, b) >= b ==> a >= b
  {
  }

  lemma {:induction false} NoTurns<S>(h: Compression<S>, file: seq<byte>, blocksize: nat, table: VerificationHashTable,
                                      diskfile: int, recording: bool, start: Progress)
    requires 0 < blocksize
    ensures Turns(h, file, blocksize, table, diskfile, recording, start, start, [])
    ensures Min(Windows.Total([]), |file|) == Windows.Total([]) == 0
  {
  }

  lemma {:induction false} StepsOnTrack<S>(h: Compression<S>, file: seq<byte>, blocksize: nat,
                                           table: VerificationHashTable, p: Progress, status: Status, diskfile: int,
                                           recording: bool, sourcefile: int, moves: seq<nat>, w: Window, entry: int,
                                           duplicate: bool)
    requires 0 < blocksize && Windows.Inside(|file|, blocksize, moves)
    requires -1 <= p.nextentry < |table.nodes| == |p.status.found| == |p.status.diskfile|
    requires -1 <= entry < |table.nodes| && Looked(h, file, blocksize, table, p, diskfile, moves, w, entry, duplicate)
    requires AllOnTrack(h, file, blocksize, table.nodes, status, diskfile, sourcefile, p, moves, Windows.Total(moves))
    ensures var q := Advanced(table.nodes, p, entry, Windows.Total(moves), diskfile, recording);
            var distance := Distance(table.nodes, blocksize, entry, duplicate);
            AllOnTrack(h, file, blocksize, table.nodes, status, diskfile, sourcefile, q, moves + [distance],
                       Min(Windows.Total(moves) + distance, |file|))
  {
    hide Looked, Windows.Inside, Windows.Total, Intact, OnTrack, Advanced, Distance;
    forall s: nat, first: nat | Intact(h, file, blocksize, table.nodes, status, diskfile, sourcefile, s, first)
      ensures var q := Advanced(table.nodes, p, entry, Windows.Total(moves), diskfile, recording);
              var distance := Distance(table.nodes, blocksize, entry, duplicate);
              OnTrack(file, blocksize, q, status, sourcefile, s, first, moves + [distance],
                      Min(Windows.Total(moves) + distance, |file|), |q.matches|)
    {
      StepOnTrack(h, file, blocksize, table, p, status, diskfile, recording, sourcefile, s, first, moves, w, entry,
                  duplicate);
    }
  }

  lemma {:induction false} TrackStarts<S>(h: Compression<S>, file: seq<byte>, blocksize: nat,
                                          nodes: seq<VerificationHashEntry>, status: Status, diskfile: int,
                                          sourcefile: int)
    requires 0 < blocksize
    ensures AllOnTrack(h, file, blocksize, nodes, status, diskfile, sourcefile,
                       Progress(FullMatch, sourcefile, -1, [], status), [], 0)
    ensures |file| == 0 ==>
              forall s: nat, first: nat :: !Intact(h, file, blocksize, nodes, status, diskfile, sourcefile, s, first)
  {
    hide SourceFiles.BlockCount, EntryOf, SameBlock;
    SourceFiles.StartNext(blocksize, 0);
  }

  lemma {:induction false} NothingReported<S>(h: Compression<S>, file: seq<byte>, blocksize: nat,
                                              nodes: seq<VerificationHashEntry>, status: Status, diskfile: int,
                                              sourcefile: int, files: seq<Description>)
    requires 0 < blocksize
    requires forall s: nat, first: nat :: !Intact(h, file, blocksize, nodes, status, diskfile, sourcefile, s, first)
    ensures Reported(h, file, blocksize, nodes, status, diskfile, sourcefile, files, NoMatch, sourcefile, ([], []), [])
  {
    hide Intact, SourceFiles.BlockCount;
  }

  /** At the end of the file all blocks have been found. */
  lemma {:induction false} TrackEnds<S>(h: Compression<S>, file: seq<byte>, blocksize: nat,
                                        nodes: seq<VerificationHashEntry>, p: Progress, status: Status, diskfile: int,
                                        sourcefile: int, moves: seq<nat>, files: seq<Description>,
                                        hashes: (seq<byte>, seq<byte>), matchtype: MatchType)
    requires 0 < blocksize && forall i :: 0 <= i < |nodes| ==> nodes[i].block.sourcefile < |files|
    requires AllOnTrack(h, file, blocksize, nodes, status, diskfile, sourcefile, p, moves, |file|)
    requires (&& |p.matches| > 0 && p.matchtype == FullMatch && 0 <= p.sourcefile < |files|
              && files[p.sourcefile] == Description(|p.matches|, |file|, hashes.0, hashes.1)) ==> matchtype == FullMatch
    ensures Reported(h, file, blocksize, nodes, status, diskfile, sourcefile, files, matchtype, p.sourcefile, hashes,
                     p.matches)
  {
    hide Row, SourceFiles.BlockCount, OnTrack, Intact;
    forall s: nat, first: nat | Intact(h, file, blocksize, nodes, status, diskfile, sourcefile, s, first)
      ensures p.matches == Row(blocksize, first, SourceFiles.BlockCount(|file|, blocksize)) && |p.matches| > 0
      ensures p.sourcefile == s < |files| && p.matchtype == FullMatch
    {
      AtEnd(h, file, blocksize, nodes, p, status, diskfile, sourcefile, s, first, moves);
    }
  }

  lemma {:induction false} AtEnd<S>(h: Compression<S>, file: seq<byte>, blocksize: nat,
                                    nodes: seq<VerificationHashEntry>, p: Progress, status: Status, diskfile: int,
                                    sourcefile: int, s: nat, first: nat, moves: seq<nat>)
    requires 0 < blocksize && Intact(h, file, blocksize, nodes, status, diskfile, sourcefile, s, first)
    requires OnTrack(file, blocksize, p, status, sourcefile, s, first, moves, |file|, |p.matches|)
    ensures |p.matches| > 0 && p.matches == Row(blocksize, first, SourceFiles.BlockCount(|file|, blocksize))
    ensures p.sourcefile == s && p.matchtype == FullMatch
    ensures first < |nodes| && nodes[first].block.sourcefile == s
  {
    hide Row, SourceFiles.Start, SourceFiles.BlockCount, SameBlock, SourceFiles.BlockOf, Identified;
    SourceFiles.StartNext(blocksize, 0);
    SourceFiles.BlockStarts(|file|, blocksize, 0);
    SourceFiles.BlockStarts(|file|, blocksize, |p.matches|);
    assert EntryOf(h, file, blocksize, nodes, s, first, 0);
  }

  lemma {:induction false} StartAlong<S>(summer: FileCheckSummer<S>)
    requires summer.Valid() && 0 < summer.blocksize && 0 < |summer.file| && summer.currentoffset == 0
    requires summer.Current() == Windows.Started(summer.file, summer.blocksize)
    ensures Along(summer, [])
  {
    hide FileCheckSummer.Valid, Windows.Started, Windows.Fits, Along;
    var none: seq<nat> := [];
    assert none[..0] == none && Windows.Total(none) == 0;
    StartViewed(summer, none);
  }
}
