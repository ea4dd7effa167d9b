/** Allocation of packets to recovery files (par2creator.cpp, the second half of InitialiseOutputFiles):
    recovery packets in order, with copies of the critical packets spread evenly between them. */
module PacketLayouts {
  import opened Arithmetic
  import opened Bits
  import opened Volumes

  /** A recovery packet (its position among all recovery packets, and its exponent), a critical packet
      (its position in the list of critical packets), or the creator packet. */
  datatype Packet = Recovery(index: nat, exponent: nat) | Critical(which: nat) | Creator

  datatype Placed = Placed(packet: Packet, offset: nat, length: nat)

  /** Each packet starts where the one before ends, from offset 0 up to the end of the file. */
  ghost predicate Tiles(p: seq<Placed>, end: nat)
    decreases |p|
  {
    if |p| == 0 then end == 0
    else
      var n := |p| - 1;
      p[n].offset + p[n].length == end && Tiles(p[..n], p[n].offset)
  }

  /** The lengths of the packets: of recovery packets, of each critical packet, and of the creator packet. */
  datatype Lengths = Lengths(recovery: nat, criticals: seq<nat>, creator: nat)

  predicate HasLength(x: Placed, lengths: Lengths) {
    match x.packet
    case Recovery(index, exponent) => x.length == lengths.recovery
    case Critical(which) => which < |lengths.criticals| && x.length == lengths.criticals[which]
    case Creator => x.length == lengths.creator
  }

  /** Every packet has been given the room it needs. */
  ghost predicate Sized(p: seq<Placed>, lengths: Lengths) {
    forall k :: 0 <= k < |p| ==> HasLength(p[k], lengths)
  }

  /** How often a packet occurs in a file. */
  ghost function Copies(p: seq<Placed>, packet: Packet): nat
    decreases |p|
  {
    if |p| == 0 then 0
    else Copies(p[..|p| - 1], packet) + if p[|p| - 1].packet == packet then 1 else 0
  }

  /** The recovery packets of a file, in order. */
  ghost function Recoveries(p: seq<Placed>): seq<Packet>
    decreases |p|
  {
    if |p| == 0 then []
    else
      var n := |p| - 1;
      if p[n].packet.Recovery? then Recoveries(p[..n]) + [p[n].packet] else Recoveries(p[..n])
  }

  /** Recovery packets numbered from `index`, with exponents from `exponent`. */
  ghost function Range(index: nat, exponent: nat, n: nat): (r: seq<Packet>)
    ensures |r| == n
  {
    seq(n, j requires 0 <= j => Recovery(index + j, exponent + j))
  }

  lemma {:induction false} PlaceNext(p: seq<Placed>, x: Placed)
    requires Tiles(p, x.offset)
    ensures Tiles(p + [x], x.offset + x.length)
    ensures forall q :: Copies(p + [x], q) == Copies(p, q) + if q == x.packet then 1 else 0
    ensures Recoveries(p + [x]) == if x.packet.Recovery? then Recoveries(p) + [x.packet] else Recoveries(p)
  {
    assert (p + [x])[..|p|] == p;
  }

  /** After each recovery packet the copies placed so far are the fair share, rounded down. */
  ghost predicate Even(p: seq<Placed>, total: nat, count: nat)
    requires count > 0
  {
    forall n :: 0 <= n <= |p| && (n == |p| || p[n].packet.Recovery?) ==> FairShare(p[..n], total, count)
  }

  /** n recovery packets are accompanied by floor(n * total / count) others. */
  ghost predicate FairShare(p: seq<Placed>, total: nat, count: nat) {
    var n := |Recoveries(p)|;
    (|p| - n) * count <= n * total < (|p| - n + 1) * count
  }

  /** What has been written to a file: the packets and the next free offset. */
  datatype Written = Written(placed: seq<Placed>, offset: nat)

  ghost predicate Good(w: Written) {
    Tiles(w.placed, w.offset)
  }

  method Place(w: Written, packet: Packet, length: nat) returns (w': Written)
    requires Good(w)
    ensures Good(w') && w'.placed == w.placed + [Placed(packet, w.offset, length)]
    ensures forall q :: Copies(w'.placed, q) == Copies(w.placed, q) + if q == packet then 1 else 0
    ensures Recoveries(w'.placed) == if packet.Recovery? then Recoveries(w.placed) + [packet] else Recoveries(w.placed)
  {
    PlaceNext(w.placed, Placed(packet, w.offset, length));
    w' := Written(w.placed + [Placed(packet, w.offset, length)], w.offset + length);
  }

  /** How many critical packets have been written: `rounds` full rounds and the first `next` of the list. */
  ghost predicate Rounds(placed: seq<Placed>, criticals: nat, rounds: int, next: nat) {
    && next <= criticals && -1 <= rounds
    && (forall i :: 0 <= i < criticals ==> Copies(placed, Critical(i)) == rounds + if i < next then 1 else 0)
    && (forall i :: i >= criticals ==> Copies(placed, Critical(i)) == 0)
    && Copies(placed, Creator) == 0
  }

  /** Place every critical packet once. */
  method OneSet(lengths: Lengths) returns (w: Written)
    ensures Good(w) && Sized(w.placed, lengths) && Recoveries(w.placed) == []
    ensures Rounds(w.placed, |lengths.criticals|, 0, |lengths.criticals|)
  {
    w := Written([], 0);
    for next := 0 to |lengths.criticals|
      invariant Good(w) && Sized(w.placed, lengths) && Recoveries(w.placed) == []
      invariant Rounds(w.placed, |lengths.criticals|, 0, next)
    {
      w := Place(w, Critical(next), lengths.criticals[next]);
    }
  }

  /** Add some critical packets: as many as the accumulated packet count pays for. */
  method AddCriticals(w0: Written, lengths: Lengths, count: nat, packetCount0: nat, next0: nat, ghost rounds0: int)
    returns (w: Written, packetCount: nat, next: nat, ghost rounds: int)
    requires Good(w0) && Sized(w0.placed, lengths) && 0 < count
    requires Rounds(w0.placed, |lengths.criticals|, rounds0, next0)
    requires if |lengths.criticals| == 0 then packetCount0 == 0 else 0 < next0
    ensures Good(w) && Sized(w.placed, lengths)
    ensures Rounds(w.placed, |lengths.criticals|, rounds, next) && Recoveries(w.placed) == Recoveries(w0.placed)
    ensures packetCount < count && (|lengths.criticals| > 0 ==> 0 < next)
    ensures |w.placed| >= |w0.placed| && packetCount + Times(|w.placed| - |w0.placed|, count) == packetCount0
    ensures Times(rounds, |lengths.criticals|) + next ==
              Times(rounds0, |lengths.criticals|) + next0 + (|w.placed| - |w0.placed|)
    ensures w0.placed <= w.placed && forall n :: |w0.placed| <= n < |w.placed| ==> !w.placed[n].packet.Recovery?
  {
    hide Tiles;
    hide Copies;
    hide Recoveries;
    hide Times;
    TimesNext(0, count);
    w, packetCount, next, rounds := w0, packetCount0, next0, rounds0;
    ghost var added: nat := 0;
    while packetCount >= count
      invariant Good(w) && Sized(w.placed, lengths)
      invariant Rounds(w.placed, |lengths.criticals|, rounds, next) && Recoveries(w.placed) == Recoveries(w0.placed)
      invariant |lengths.criticals| > 0 ==> 0 < next
      invariant |w.placed| == |w0.placed| + added && packetCount + Times(added, count) == packetCount0
      invariant Times(rounds, |lengths.criticals|) + next == Times(rounds0, |lengths.criticals|) + next0 + added
      invariant w0.placed <= w.placed && forall n :: |w0.placed| <= n < |w.placed| ==> !w.placed[n].packet.Recovery?
      decreases packetCount
    {
      assert |lengths.criticals| > 0;
      if next == |lengths.criticals| {
        TimesNext(rounds, |lengths.criticals|);
        next, rounds := 0, rounds + 1;
      }
      w := Place(w, Critical(next), lengths.criticals[next]);
      next := next + 1;
      packetCount := packetCount - count;
      TimesNext(added, count);
      added := added + 1;
    }
  }

  /** After j recovery packets, each worth `total`, and `others` critical packets, each costing `count`. */
  ghost predicate Account(j: nat, others: nat, packetCount: nat, total: nat, count: nat) {
    packetCount + others * count == j * total && packetCount < count
  }

  lemma {:induction false} AccountNext(j: nat, others: nat, packetCount: nat, added: nat, packetCount': nat,
                                       total: nat, count: nat)
    requires Account(j, others, packetCount, total, count)
    requires packetCount' + added * count == packetCount + total && packetCount' < count
    ensures Account(j + 1, others + added, packetCount', total, count)
  {
    assert (j + 1) * total == j * total + total;
    assert (others + added) * count == others * count + added * count;
  }

  lemma {:induction false} AccountFair(p: seq<Placed>, j: nat, others: nat, packetCount: nat, total: nat, count: nat)
    requires Account(j, others, packetCount, total, count)
    requires |Recoveries(p)| == j && |p| == j + others
    ensures FairShare(p, total, count)
  {
    assert (others + 1) * count == others * count + count;
  }

  /** The accumulator ends at zero: all copies have been placed. */
  lemma {:induction false} AllPaid(packetCount: nat, placed: nat, count: nat, total: nat)
    requires 0 < count && Account(count, placed, packetCount, total, count)
    ensures packetCount == 0 && placed == total
  {
    assert count * total == total * count;
    Squeeze(placed, total, count, packetCount);
  }

  lemma {:induction false} LastRound(rounds: int, n: nat, next: nat, copies: nat)
    requires 0 < next <= n && rounds * n + next == copies * n
    ensures rounds == copies - 1 && next == n
  {
    assert (rounds + 1) * n == rounds * n + n;
    Squeeze(copies, rounds + 1, n, n - next);
  }

  lemma {:induction false} EvenNext(p: seq<Placed>, p': seq<Placed>, total: nat, count: nat)
    requires 0 < count && Even(p, total, count)
    requires |p| < |p'| && p <= p' && p'[|p|].packet.Recovery?
    requires forall n :: |p| < n < |p'| ==> !p'[n].packet.Recovery?
    requires FairShare(p', total, count)
    ensures Even(p', total, count)
  {
    forall n | 0 <= n <= |p'| && (n == |p'| || p'[n].packet.Recovery?)
      ensures FairShare(p'[..n], total, count)
    {
      if n == |p'| {
        assert p'[..n] == p';
      } else {
        assert n <= |p|;
        assert p'[..n] == p[..n];
        if n < |p| {
          assert p[n] == p'[n];
        }
      }
    }
  }

  lemma {:induction false} RoundsKept(p: seq<Placed>, n: nat, rounds: int, next: nat, x: Placed)
    requires Rounds(p, n, rounds, next) && x.packet.Recovery?
    ensures Rounds(p + [x], n, rounds, next)
  {
    assert (p + [x])[..|p|] == p;
  }

  lemma {:induction false} AllRounds(p: seq<Placed>, n: nat, rounds: int, next: nat, copies: nat)
    requires Rounds(p, n, rounds, next) && rounds * n + next == copies * n
    requires n > 0 ==> 0 < next
    ensures forall i :: 0 <= i < n ==> Copies(p, Critical(i)) == copies
    ensures forall i :: i >= n ==> Copies(p, Critical(i)) == 0
    ensures Copies(p, Creator) == 0
  {
    hide Copies;
    if n > 0 {
      LastRound(rounds, n, next, copies);
    }
  }

  /** Where the spreading of packets stands after j recovery packets and `others` critical ones. */
  ghost predicate Spreading(w: Written, file: FileAllocation, index: nat, criticals: nat, copies: nat, j: nat,
                            packetCount: nat, next: nat, rounds: int, others: nat)
    requires file.count > 0
  {
    && Good(w) && Rounds(w.placed, criticals, rounds, next) && (criticals > 0 ==> 0 < next)
    && Recoveries(w.placed) == Range(index, file.exponent, j) && |w.placed| == j + others
    && Account(j, others, packetCount, copies * criticals, file.count)
    && Times(rounds, criticals) + next == others
    && Even(w.placed, copies * criticals, file.count)
  }

  lemma {:induction false} SpreadingStarts(file: FileAllocation, index: nat, criticals: nat, copies: nat)
    requires file.count > 0
    ensures Spreading(Written([], 0), file, index, criticals, copies, 0, 0, criticals, -1, 0)
  {
    var p: seq<Placed> := [];
    assert p[..0] == p;
    assert FairShare(p, copies * criticals, file.count);
    assert (-1 as int) * (criticals as int) + (criticals as int) == 0;
    assert Range(index, file.exponent, 0) == [];
  }

  lemma {:induction false} SpreadingEnds(w: Written, file: FileAllocation, index: nat, criticals: nat, copies: nat,
                                         packetCount: nat, next: nat, rounds: int, others: nat)
    requires file.count > 0
    requires Spreading(w, file, index, criticals, copies, file.count, packetCount, next, rounds, others)
    ensures Good(w) && Recoveries(w.placed) == Range(index, file.exponent, file.count)
    ensures forall i :: 0 <= i < criticals ==> Copies(w.placed, Critical(i)) == copies
    ensures forall i :: i >= criticals ==> Copies(w.placed, Critical(i)) == 0
    ensures Copies(w.placed, Creator) == 0
    ensures Even(w.placed, copies * criticals, file.count)
  {
    hide Even;
    hide Copies;
    hide Rounds;
    hide Tiles;
    AllPaid(packetCount, others, file.count, copies * criticals);
    AllRounds(w.placed, criticals, rounds, next, copies);
  }

  /** Place a recovery packet, and as many critical packets as are its share. */
  method SpreadStep(w0: Written, file: FileAllocation, index: nat, lengths: Lengths,
                    copies: nat, j: nat, packetCount0: nat, next0: nat, ghost rounds0: int, ghost others0: nat)
    returns (w: Written, packetCount: nat, next: nat, ghost rounds: int, ghost others: nat)
    requires file.count > 0 && Sized(w0.placed, lengths)
    requires Spreading(w0, file, index, |lengths.criticals|, copies, j, packetCount0, next0, rounds0, others0)
    ensures Sized(w.placed, lengths)
    ensures Spreading(w, file, index, |lengths.criticals|, copies, j + 1, packetCount, next, rounds, others)
  {
    hide Tiles;
    hide Even;
    hide FairShare;
    hide Copies;
    hide Recoveries;
    hide Rounds;
    ghost var total := copies * |lengths.criticals|;
    assert |lengths.criticals| == 0 ==> packetCount0 + total == 0 by {
      NothingOwed(j, others0, packetCount0, copies, |lengths.criticals|, file.count, rounds0, next0);
    }
    RoundsKept(w0.placed, |lengths.criticals|, rounds0, next0,
               Placed(Recovery(index + j, file.exponent + j), w0.offset, lengths.recovery));
    w := Place(w0, Recovery(index + j, file.exponent + j), lengths.recovery);
    assert Range(index, file.exponent, j + 1) ==
      Range(index, file.exponent, j) + [Recovery(index + j, file.exponent + j)];
    ghost var w1 := w;
    w, packetCount, next, rounds := AddCriticals(w, lengths, file.count, packetCount0 + copies * |lengths.criticals|,
                                                 next0, rounds0);
    ghost var added := |w.placed| - |w1.placed|;
    AccountNext(j, others0, packetCount0, added, packetCount, total, file.count);
    others := others0 + added;
    hide Account;
    AccountFair(w.placed, j + 1, others, packetCount, total, file.count);
    assert w.placed[|w0.placed|] == w1.placed[|w0.placed|];
    EvenNext(w0.placed, w.placed, total, file.count);
  }

  lemma {:induction false} NothingOwed(j: nat, others: nat, packetCount: nat, copies: nat, criticals: nat, count: nat,
                                       rounds: int, next: nat)
    requires Account(j, others, packetCount, copies * criticals, count)
    ensures criticals == 0 ==> copies * criticals == 0 && packetCount == 0
  {
    if criticals == 0 {
      assert copies * criticals == 0 && j * 0 == 0;
    }
  }

  /** One recovery packet after the other, each followed by its share of the critical packets. */
  method Spread(file: FileAllocation, index: nat, lengths: Lengths) returns (w: Written)
    requires file.count > 0
    ensures Good(w) && Sized(w.placed, lengths)
    ensures Recoveries(w.placed) == Range(index, file.exponent, file.count)
    ensures forall i :: 0 <= i < |lengths.criticals| ==> Copies(w.placed, Critical(i)) == Digits(file.count)
    ensures forall i :: i >= |lengths.criticals| ==> Copies(w.placed, Critical(i)) == 0
    ensures Copies(w.placed, Creator) == 0
    ensures Even(w.placed, Digits(file.count) * |lengths.criticals|, file.count)
  {
    var copies := CountDigits(file.count, 0);
    var packetCount: nat, next: nat := 0, |lengths.criticals|;
    ghost var rounds: int, others: nat := -1, 0;
    w := Written([], 0);
    SpreadingStarts(file, index, |lengths.criticals|, copies);
    assert Sized(w.placed, lengths);
    hide *;
    for j := 0 to file.count
      invariant Sized(w.placed, lengths)
      invariant Spreading(w, file, index, |lengths.criticals|, copies, j, packetCount, next, rounds, others)
    {
      w, packetCount, next, rounds, others :=
        SpreadStep(w, file, index, lengths, copies, j, packetCount, next, rounds, others);
    }
    SpreadingEnds(w, file, index, |lengths.criticals|, copies, packetCount, next, rounds, others);
  }

  /** Allocate all packets of one file.  With recovery blocks it gets floor(log2 count) + 1 copies of
      every critical packet, without it gets one; the creator packet comes last. */
  method LayOutFile(file: FileAllocation, index: nat, lengths: Lengths) returns (w: Written)
    ensures Tiles(w.placed, w.offset) && Sized(w.placed, lengths)
    ensures Recoveries(w.placed) == Range(index, file.exponent, file.count)
    ensures forall i :: 0 <= i < |lengths.criticals| ==>
              Copies(w.placed, Critical(i)) == if file.count == 0 then 1 else Digits(file.count)
    ensures forall i :: i >= |lengths.criticals| ==> Copies(w.placed, Critical(i)) == 0
    ensures Copies(w.placed, Creator) == 1
    ensures |w.placed| > 0 && w.placed[|w.placed| - 1].packet == Creator
    ensures file.count > 0 ==> Even(w.placed[..|w.placed| - 1], Digits(file.count) * |lengths.criticals|, file.count)
  {
    hide Even;
    if file.count == 0 {
      w := OneSet(lengths);
      assert Range(index, file.exponent, 0) == [];
    } else {
      w := Spread(file, index, lengths);
    }
    ghost var w0 := w;
    w := Place(w, Creator, lengths.creator);
    assert w.placed[..|w.placed| - 1] == w0.placed;
  }

  /** Which exponents go to which file; one extra file has none. */
  method Allocate(scheme: Scheme, requested: nat, recoveryfilecount: nat, recoveryblockcount: nat, largest: nat,
                  first: nat, shifted: nat)
    returns (ok: bool, a: seq<FileAllocation>, ghost doublings: nat)
    requires 0 < largest && recoveryblockcount <= 65536
    requires recoveryfilecount == FileCount(scheme, requested, recoveryblockcount, largest)
    requires recoveryfilecount == 0 <==> recoveryblockcount == 0
    requires scheme == Variable && recoveryfilecount > 0 ==> ShiftOfOne(shifted, recoveryfilecount) && shifted != 1
    ensures ok <==> scheme != Unknown || recoveryfilecount == 0
    ensures ok ==> |a| == recoveryfilecount + 1 && a[recoveryfilecount].count == 0
    ensures ok ==> Chain(a[..recoveryfilecount], first, first + recoveryblockcount)
    ensures ok && scheme == Limited ==> forall k :: 0 <= k < |a| ==> a[k].count <= largest
    ensures ok && scheme == Limited && recoveryfilecount > 0 ==>
              Limits(a[..recoveryfilecount], Whole(recoveryblockcount, largest), largest, a[recoveryfilecount].exponent)
    ensures ok && scheme == Variable && recoveryfilecount > 0 ==>
              && Doubling(a[..recoveryfilecount], Pow2(doublings), first + recoveryblockcount)
              && recoveryblockcount <= DoubledTimes(MinusOne(shifted), doublings)
              && (doublings > 0 ==> DoubledTimes(MinusOne(shifted), doublings - 1) < recoveryblockcount)
    ensures ok ==> a[recoveryfilecount].exponent ==
                   first + if scheme != Limited || recoveryfilecount == 0 then recoveryblockcount
                           else recoveryblockcount - Whole(recoveryblockcount, largest) * largest
    ensures ok && scheme == Uniform ==>
              forall j, k :: 0 <= j <= k < recoveryfilecount ==> a[k].count <= a[j].count <= a[k].count + 1
  {
    hide Chain, Doubling, Limits, Whole;
    var exponent := first;
    doublings := 0;
    if recoveryfilecount > 0 {
      match scheme {
        case Unknown =>
          return false, [], 0;
        case Uniform =>
          a := AllocateUniform(recoveryblockcount, recoveryfilecount, first);
          exponent := first + recoveryblockcount;
        case Variable =>
          a, doublings := AllocateVariable(recoveryblockcount, recoveryfilecount, first, shifted);
          exponent := first + recoveryblockcount;
        case Limited =>
          a, exponent := AllocateLimited(recoveryblockcount, recoveryfilecount, largest, first);
      }
    } else {
      a := [];
      assert Chain(a, first, first + recoveryblockcount) by { NoFiles(first); }
    }
    ghost var b := a;
    a := a + [FileAllocation(exponent, 0)];
    assert a[..recoveryfilecount] == b;
    ok := true;
  }

  /** All recovery packets, file by file. */
  ghost function AllRecoveries(files: seq<Written>): seq<Packet>
    decreases |files|
  {
    if |files| == 0 then [] else AllRecoveries(files[..|files| - 1]) + Recoveries(files[|files| - 1].placed)
  }

  lemma {:induction false} ChainPrefix(a: seq<FileAllocation>, first: nat, last: nat, k: nat)
    requires Chain(a, first, last) && k < |a|
    ensures Chain(a[..k], first, a[k].exponent)
    ensures a[k].exponent >= first
    decreases |a|
  {
    var n := |a| - 1;
    if k < n {
      ChainPrefix(a[..n], first, a[n].exponent, k);
      assert a[..n][..k] == a[..k];
    }
    ChainInside(a, first, last, k);
  }

  lemma {:induction false} ChainLength(a: seq<FileAllocation>, first: nat, last: nat, last': nat)
    requires Chain(a, first, last) && Chain(a, first, last')
    ensures last == last'
  {
  }

  lemma {:induction false} NoRecoveries()
    ensures AllRecoveries([]) == []
  {
  }

  lemma {:induction false} MoreRecoveries(files: seq<Written>, w: Written)
    ensures AllRecoveries(files + [w]) == AllRecoveries(files) + Recoveries(w.placed)
  {
    assert (files + [w])[..|files|] == files;
  }

  /** The position of the first recovery packet of a file among those of all files. */
  function IndexOf(file: FileAllocation, first: nat): nat {
    if file.count > 0 && file.exponent >= first then file.exponent - first else 0
  }

  /** A file as it is laid out: every packet has the room it needs, directly behind the one before; its recovery packets
      in order; its copies of every critical packet, spread evenly; and the creator packet last. */
  ghost predicate LaidOut(w: Written, file: FileAllocation, first: nat, lengths: Lengths) {
    var criticals := |lengths.criticals|;
    && Tiles(w.placed, w.offset) && Sized(w.placed, lengths)
    && Recoveries(w.placed) == Range(IndexOf(file, first), file.exponent, file.count)
    && (forall i :: 0 <= i < criticals ==>
          Copies(w.placed, Critical(i)) == if file.count == 0 then 1 else Digits(file.count))
    && Copies(w.placed, Creator) == 1 && |w.placed| > 0 && w.placed[|w.placed| - 1].packet == Creator
    && (file.count > 0 ==> Even(w.placed[..|w.placed| - 1], Digits(file.count) * criticals, file.count))
  }

  lemma {:induction false} LaidOutFile(w: Written, file: FileAllocation, index: nat, first: nat, lengths: Lengths)
    requires Tiles(w.placed, w.offset) && Sized(w.placed, lengths)
    requires Recoveries(w.placed) == Range(index, file.exponent, file.count)
    requires file.count > 0 ==> file.exponent == first + index
    requires forall i :: 0 <= i < |lengths.criticals| ==>
               Copies(w.placed, Critical(i)) == if file.count == 0 then 1 else Digits(file.count)
    requires Copies(w.placed, Creator) == 1 && |w.placed| > 0 && w.placed[|w.placed| - 1].packet == Creator
    requires file.count > 0 ==>
               Even(w.placed[..|w.placed| - 1], Digits(file.count) * |lengths.criticals|, file.count)
    ensures LaidOut(w, file, first, lengths)
  {
    hide Tiles, Sized, Copies, Even, Recoveries;
    if file.count == 0 {
      assert Range(index, file.exponent, 0) == Range(IndexOf(file, first), file.exponent, 0);
    }
  }

  /** Lay out every file: the packets tile them, and the recovery packets of all files
      together are numbered 0, 1, ... with exponents first, first+1, ... */
  method LayOutFiles(a: seq<FileAllocation>, recoveryblockcount: nat, first: nat, lengths: Lengths)
    returns (files: seq<Written>)
    requires |a| > 0 && Chain(a[..|a| - 1], first, first + recoveryblockcount) && a[|a| - 1].count == 0
    ensures |files| == |a|
    ensures AllRecoveries(files) == Range(0, first, recoveryblockcount)
    ensures forall k :: 0 <= k < |a| ==> LaidOut(files[k], a[k], first, lengths)
  {
    hide LaidOut, Tiles, Sized, Recoveries, AllRecoveries, Copies, Even;
    assert AllRecoveries([]) == [] by { NoRecoveries(); }
    files := [];
    var recoverypacket: nat := 0;
    ghost var n := |a| - 1;
    assert Chain(a[..0], first, first) && Range(0, first, 0) == [];
    hide Chain;
    hide Range;
    for k := 0 to |a|
      invariant |files| == k
      invariant AllRecoveries(files) == Range(0, first, recoverypacket)
      invariant if k <= n then Chain(a[..k], first, first + recoverypacket) else recoverypacket == recoveryblockcount
      invariant forall j :: 0 <= j < k ==> LaidOut(files[j], a[j], first, lengths)
    {
      NextStart(a, first, first + recoveryblockcount, k, recoverypacket);
      var w := LayOutFile(a[k], recoverypacket, lengths);
      LaidOutFile(w, a[k], recoverypacket, first, lengths);
      RangeJoin(0, first, recoverypacket, a[k]);
      MoreRecoveries(files, w);
      files := files + [w];
      recoverypacket := recoverypacket + a[k].count;
    }
  }

  /** Each file starts with the exponent that belongs to the next recovery packet. */
  lemma {:induction false} NextStart(a: seq<FileAllocation>, first: nat, last: nat, k: nat, packets: nat)
    requires k < |a| && Chain(a[..|a| - 1], first, last) && Chain(a[..k], first, first + packets)
    ensures k < |a| - 1 ==> a[k].exponent == first + packets && Chain(a[..k + 1], first, first + packets + a[k].count)
    ensures k == |a| - 1 ==> first + packets == last
  {
    hide Chain;
    if k < |a| - 1 {
      ChainPrefix(a[..|a| - 1], first, last, k);
      assert a[..|a| - 1][..k] == a[..k];
      ChainLength(a[..k], first, first + packets, a[k].exponent);
      ChainNext(a[..k], first, a[k]);
      assert a[..k] + [a[k]] == a[..k + 1];
    } else {
      ChainLength(a[..k], first, first + packets, last);
    }
  }

  lemma {:induction false} RangeJoin(index: nat, exponent: nat, n: nat, file: FileAllocation)
    requires file.count > 0 ==> file.exponent == exponent + n
    ensures Range(index, exponent, n) + Range(index + n, file.exponent, file.count) ==
              Range(index, exponent, n + file.count)
  {
  }
}
