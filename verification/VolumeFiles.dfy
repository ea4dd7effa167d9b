/** From a layout to a file on disk (par2creator.cpp, recoverypacket.cpp, criticalpacket.cpp): every packet is written
    where it has been placed, and the packet scan of a repair finds exactly these packets again. */
module VolumeFiles {
  import opened Bytes
  import opened Md5
  import opened PacketScans
  import opened PacketLayouts
  import opened RecoveryPackets
  import opened Volumes

  /** What is written: recovery blocks, the critical packets, and the creator packet. */
  datatype Contents = Contents(setid: seq<byte>, blocks: seq<seq<byte>>, criticals: seq<seq<byte>>, creator: seq<byte>)

  /** The bytes are a packet. */
  predicate WholePacket<S>(h: Compression<S>, s: seq<byte>) {
    HEADER <= |s| && IsPacket(h, s, 0) && LengthField(HeaderAt(s, 0)) == |s|
  }

  ghost predicate Proper<S(!new)>(h: Compression<S>, c: Contents, blocksize: nat) {
    && |c.setid| == 16 && blocksize % 4 == 0 && (forall state :: |h.output(state)| == 16)
    && (forall i :: 0 <= i < |c.blocks| ==> |c.blocks[i]| == blocksize)
    && (forall i :: 0 <= i < |c.criticals| ==> WholePacket(h, c.criticals[i]))
    && WholePacket(h, c.creator)
  }

  /** The lengths that the layout has to provide for. */
  function LengthsOf(c: Contents, blocksize: nat): Lengths {
    Lengths(PACKET + blocksize, seq(|c.criticals|, i requires 0 <= i < |c.criticals| => |c.criticals[i]|), |c.creator|)
  }

  /** The packet is where it has been placed. */
  ghost predicate Holds<S>(h: Compression<S>, file: seq<byte>, x: Placed, c: Contents) {
    match x.packet
    case Recovery(index, exponent) =>
      && index < |c.blocks| && x.length == PACKET + |c.blocks[index]|
      && RecoveryPacketAt(h, file, x.offset, c.setid, exponent, c.blocks[index])
    case Critical(which) => which < |c.criticals| && Contains(file, x, c.criticals[which])
    case Creator => Contains(file, x, c.creator)
  }

  predicate Contains(file: seq<byte>, x: Placed, s: seq<byte>) {
    x.length == |s| && x.offset + x.length <= |file| && file[x.offset..x.offset + x.length] == s
  }

  // ----- Packets depend on their own bytes only -----

  lemma {:induction false} PacketMoves<S>(h: Compression<S>, s: seq<byte>, p: nat, s': seq<byte>, p': nat, length: nat)
    requires p + length <= |s| && p' + length <= |s'| && s[p..p + length] == s'[p'..p' + length]
    requires p + HEADER <= |s| && IsPacket(h, s, p) && LengthField(HeaderAt(s, p)) == length
    ensures p' + HEADER <= |s'| && HeaderAt(s', p') == HeaderAt(s, p) && IsPacket(h, s', p')
  {
    hide Hash, HasMagic, LengthField, HashField;
    var packet := s[p..p + length];
    SubSlice(s, p, p + length, 0, HEADER);
    SubSlice(s', p', p' + length, 0, HEADER);
    SubSlice(s, p, p + length, 32, length);
    SubSlice(s', p', p' + length, 32, length);
  }

  lemma {:induction false} RecoveryMoves<S>(h: Compression<S>, s: seq<byte>, s': seq<byte>, p: nat, setid: seq<byte>,
                                            exponent: nat, data: seq<byte>)
    requires RecoveryPacketAt(h, s, p, setid, exponent, data) && |s'| == |s|
    requires s[p..p + PACKET + |data|] == s'[p..p + PACKET + |data|]
    ensures RecoveryPacketAt(h, s', p, setid, exponent, data)
  {
    hide IsPacket, LengthField, HeaderAt, Number;
    var length := PACKET + |data|;
    PacketMoves(h, s, p, s', p, length);
    SubSlice(s, p, p + length, HEADER, PACKET);
    SubSlice(s', p, p + length, HEADER, PACKET);
    SubSlice(s, p, p + length, PACKET, length);
    SubSlice(s', p, p + length, PACKET, length);
  }

  lemma {:induction false} HoldsStill<S>(h: Compression<S>, s: seq<byte>, s': seq<byte>, x: Placed, c: Contents)
    requires Holds(h, s, x, c) && |s'| == |s| && x.offset + x.length <= |s|
    requires s[x.offset..x.offset + x.length] == s'[x.offset..x.offset + x.length]
    ensures Holds(h, s', x, c)
  {
    hide RecoveryPacketAt;
    if x.packet.Recovery? {
      RecoveryMoves(h, s, s', x.offset, c.setid, x.packet.exponent, c.blocks[x.packet.index]);
    }
  }

  /** So there is a packet of the planned length at the planned place. */
  lemma {:induction false} HoldsIsPacket<S(!new)>(h: Compression<S>, file: seq<byte>, x: Placed, c: Contents,
                                                  blocksize: nat)
    requires Holds(h, file, x, c) && Proper(h, c, blocksize)
    ensures HoldsPacket(h, file, x)
  {
    hide IsPacket, LengthField, HeaderAt;
    match x.packet
    case Recovery(index, exponent) =>
    case Critical(which) =>
      CopyIsPacket(h, file, x, c.criticals[which]);
    case Creator =>
      CopyIsPacket(h, file, x, c.creator);
  }

  lemma {:induction false} CopyIsPacket<S>(h: Compression<S>, file: seq<byte>, x: Placed, s: seq<byte>)
    requires Contains(file, x, s) && WholePacket(h, s)
    ensures HoldsPacket(h, file, x)
  {
    hide IsPacket, LengthField, HeaderAt;
    assert s[0..|s|] == s;
    PacketMoves(h, s, 0, file, x.offset, |s|);
  }

  // ----- Packets do not overlap -----

  lemma {:induction false} TilesApart(placed: seq<Placed>, end: nat, k: nat)
    requires Tiles(placed, end) && k < |placed|
    ensures placed[k].offset + placed[k].length <= end
    ensures forall j :: 0 <= j < k ==> placed[j].offset + placed[j].length <= placed[k].offset
    decreases |placed|
  {
    var n := |placed| - 1;
    if k < n {
      TilesApart(placed[..n], placed[n].offset, k);
      assert placed[..n][k] == placed[k];
      forall j | 0 <= j < k
        ensures placed[j].offset + placed[j].length <= placed[k].offset
      {
        assert placed[..n][j] == placed[j];
      }
    } else {
      forall j | 0 <= j < n
        ensures placed[j].offset + placed[j].length <= placed[n].offset
      {
        TilesApart(placed[..n], placed[n].offset, j);
        assert placed[..n][j] == placed[j];
      }
    }
  }

  /** The recovery packets of a file are among those that were laid out. */
  lemma {:induction false} RecoveryIn(placed: seq<Placed>, k: nat)
    requires k < |placed| && placed[k].packet.Recovery?
    ensures placed[k].packet in Recoveries(placed)
    decreases |placed|
  {
    var n := |placed| - 1;
    if k < n {
      RecoveryIn(placed[..n], k);
    }
  }

  lemma {:induction false} RecoveryAt(placed: seq<Placed>, packet: Packet) returns (k: nat)
    requires packet in Recoveries(placed)
    ensures k < |placed| && placed[k].packet == packet && packet.Recovery?
    decreases |placed|
  {
    var n := |placed| - 1;
    if placed[n].packet == packet && packet.Recovery? {
      k := n;
    } else {
      k := RecoveryAt(placed[..n], packet);
    }
  }

  // ----- Writing -----

  /** A layout for these contents: packets have the room they need, and recovery blocks are at hand. */
  ghost predicate Fitting(w: Written, c: Contents, blocksize: nat) {
    && Tiles(w.placed, w.offset) && Sized(w.placed, LengthsOf(c, blocksize)) && w.offset + HEADER < U64
    && forall k :: 0 <= k < |w.placed| && w.placed[k].packet.Recovery? ==>
         w.placed[k].packet.index < |c.blocks| && w.placed[k].packet.exponent < 0x1_0000_0000
  }

  /** Copy a packet to its place. */
  method CopyPacket(file: array<byte>, offset: nat, s: seq<byte>)
    requires offset + |s| <= file.Length
    modifies file
    ensures file[offset..offset + |s|] == s
    ensures forall i :: 0 <= i < file.Length && !(offset <= i < offset + |s|) ==> file[i] == old(file[i])
  {
    forall i | offset <= i < offset + |s| {
      file[i] := s[i - offset];
    }
  }

  /** Write one packet to its place: a recovery packet in chunks, any other as it is. */
  method WritePlaced<S(!new)>(h: Compression<S>, file: array<byte>, x: Placed, c: Contents, ghost blocksize: nat,
                              chunksize: nat)
    requires Proper(h, c, blocksize) && HasLength(x, LengthsOf(c, blocksize)) && 0 < chunksize
    requires x.offset + x.length <= file.Length < U64
    requires x.packet.Recovery? ==> x.packet.index < |c.blocks| && x.packet.exponent < 0x1_0000_0000
    modifies file
    ensures Holds(h, file[..], x, c)
    ensures forall i :: 0 <= i < file.Length && !(x.offset <= i < x.offset + x.length) ==> file[i] == old(file[i])
  {
    hide RecoveryPacketAt, WholePacket;
    match x.packet
    case Recovery(index, exponent) =>
      WritePacket(h, file, x.offset, exponent, c.setid, c.blocks[index], chunksize);
    case Critical(which) =>
      CopyPacket(file, x.offset, c.criticals[which]);
    case Creator =>
      CopyPacket(file, x.offset, c.creator);
  }

  /** Write all packets of a file: each is where it was placed, and a scan of the file finds exactly these packets. */
  method WriteVolume<S(!new)>(h: Compression<S>, w: Written, c: Contents, blocksize: nat, chunksize: nat)
    returns (file: array<byte>)
    requires Proper(h, c, blocksize) && Fitting(w, c, blocksize) && 0 < chunksize
    ensures fresh(file) && file.Length == w.offset
    ensures forall k :: 0 <= k < |w.placed| ==> Holds(h, file[..], w.placed[k], c)
    ensures Ends(h, file[..]) && Scanned(h, file[..]) == Offsets(w.placed)
  {
    hide Holds, Proper, Tiles, HasLength, Ends, Scanned;
    file := new byte[w.offset](i => 0);
    for k := 0 to |w.placed|
      invariant forall j :: 0 <= j < k ==> Holds(h, file[..], w.placed[j], c)
    {
      ghost var before := file[..];
      TilesApart(w.placed, w.offset, k);
      assert HasLength(w.placed[k], LengthsOf(c, blocksize));
      WritePlaced(h, file, w.placed[k], c, blocksize, chunksize);
      forall j | 0 <= j < k
        ensures Holds(h, file[..], w.placed[j], c)
      {
        var x := w.placed[j];
        assert before[x.offset..x.offset + x.length] == file[..][x.offset..x.offset + x.length];
        HoldsStill(h, before, file[..], x, c);
      }
    }
    forall k | 0 <= k < |w.placed|
      ensures HoldsPacket(h, file[..], w.placed[k])
    {
      HoldsIsPacket(h, file[..], w.placed[k], c, blocksize);
    }
    hide HoldsPacket;
    TilesScanned(h, file[..], w.placed);
  }

  /** The layout of a file with these recovery blocks fits. */
  lemma {:induction false} LaidOutFits(w: Written, file: FileAllocation, first: nat, c: Contents, blocksize: nat)
    requires LaidOut(w, file, first, LengthsOf(c, blocksize)) && w.offset + HEADER < U64
    requires IndexOf(file, first) + file.count <= |c.blocks| && file.exponent + file.count <= 65536
    ensures Fitting(w, c, blocksize)
  {
    hide Tiles, Sized, Recoveries, Copies, Even;
    forall k | 0 <= k < |w.placed| && w.placed[k].packet.Recovery?
      ensures w.placed[k].packet.index < |c.blocks| && w.placed[k].packet.exponent < 0x1_0000_0000
    {
      RecoveryIn(w.placed, k);
      var j :| 0 <= j < file.count && Range(IndexOf(file, first), file.exponent, file.count)[j] == w.placed[k].packet;
    }
  }

  /** Recovery block j of the file is in one of the packets at the offsets, with its exponent. */
  ghost predicate BlockFound<S>(h: Compression<S>, disk: seq<byte>, offsets: seq<nat>, file: FileAllocation, first: nat,
                                c: Contents, j: nat)
    requires IndexOf(file, first) + j < |c.blocks|
  {
    exists p :: p in offsets &&
                RecoveryPacketAt(h, disk, p, c.setid, file.exponent + j, c.blocks[IndexOf(file, first) + j])
  }

  /** Lay out a recovery file and write it: a scan finds exactly its packets, and every recovery block of the file is in
      one of them, with its exponent. */
  method CreateVolume<S(!new)>(h: Compression<S>, file: FileAllocation, first: nat, c: Contents, blocksize: nat,
                               chunksize: nat, w: Written) returns (disk: array<byte>)
    requires Proper(h, c, blocksize) && LaidOut(w, file, first, LengthsOf(c, blocksize)) && 0 < chunksize
    requires w.offset + HEADER < U64
    requires IndexOf(file, first) + file.count <= |c.blocks| && file.exponent + file.count <= 65536
    ensures fresh(disk) && disk.Length == w.offset
    ensures Ends(h, disk[..]) && Scanned(h, disk[..]) == Offsets(w.placed)
    ensures forall k :: 0 <= k < |w.placed| ==> Holds(h, disk[..], w.placed[k], c)
    ensures forall j :: 0 <= j < file.count ==>
              BlockFound(h, disk[..], Scanned(h, disk[..]), file, first, c, j)
  {
    hide Proper, Fitting, LaidOut, Ends, Scanned, Holds, BlockFound;
    LaidOutFits(w, file, first, c, blocksize);
    disk := WriteVolume(h, w, c, blocksize, chunksize);
    forall j | 0 <= j < file.count
      ensures BlockFound(h, disk[..], Scanned(h, disk[..]), file, first, c, j)
    {
      BlockWritten(h, disk[..], w, file, first, c, blocksize, j);
    }
  }

  lemma {:induction false} BlockWritten<S>(h: Compression<S>, disk: seq<byte>, w: Written, file: FileAllocation,
                                           first: nat, c: Contents, blocksize: nat, j: nat)
    requires LaidOut(w, file, first, LengthsOf(c, blocksize)) && j < file.count
    requires IndexOf(file, first) + file.count <= |c.blocks|
    requires forall k :: 0 <= k < |w.placed| ==> Holds(h, disk, w.placed[k], c)
    ensures BlockFound(h, disk, Offsets(w.placed), file, first, c, j)
  {
    hide Tiles, Sized, Recoveries, Copies, Even, RecoveryPacketAt;
    var range := Range(IndexOf(file, first), file.exponent, file.count);
    assert range[j] in range;
    var k := RecoveryAt(w.placed, range[j]);
    assert Holds(h, disk, w.placed[k], c);
    assert Offsets(w.placed)[k] in Offsets(w.placed);
  }

  // ----- Loading -----

  /** What the names of packet types begin with. */
  const PAR2: seq<byte> := [0x50, 0x41, 0x52, 0x20, 0x32, 0x2E, 0x30, 0]

  /** The types of packets. */
  const PAR2_TYPES := PacketTypes(
    RECOVERY_TYPE,
    PAR2 + [0x49, 0x46, 0x53, 0x43, 0, 0, 0, 0],
    PAR2 + [0x46, 0x69, 0x6C, 0x65, 0x44, 0x65, 0x73, 0x63],
    PAR2 + [0x4D, 0x61, 0x69, 0x6E, 0, 0, 0, 0],
    PAR2 + [0x43, 0x72, 0x65, 0x61, 0x74, 0x6F, 0x72, 0])

  /** A packet of the set, of this type. */
  predicate Typed(s: seq<byte>, setid: seq<byte>, kind: seq<byte>) {
    HEADER <= |s| && SetIdField(HeaderAt(s, 0)) == setid && TypeField(HeaderAt(s, 0)) == kind
  }

  /** The critical packets are verification, description and main packets of the set, and the creator packet is one. */
  ghost predicate AllTyped(c: Contents) {
    && (forall i :: 0 <= i < |c.criticals| ==>
          || Typed(c.criticals[i], c.setid, PAR2_TYPES.fileverification)
          || Typed(c.criticals[i], c.setid, PAR2_TYPES.filedescription)
          || Typed(c.criticals[i], c.setid, PAR2_TYPES.main))
    && Typed(c.creator, c.setid, PAR2_TYPES.creator)
  }

  lemma {:induction false} HoldsBelongs<S(!new)>(h: Compression<S>, file: seq<byte>, x: Placed, c: Contents,
                                                 blocksize: nat)
    requires Holds(h, file, x, c) && Proper(h, c, blocksize) && AllTyped(c)
    ensures x.offset + HEADER <= |file| && Belongs(HeaderAt(file, x.offset), c.setid, PAR2_TYPES)
  {
    hide IsPacket, LengthField, HeaderAt, SetIdField, TypeField;
    match x.packet
    case Recovery(index, exponent) =>
    case Critical(which) =>
      CopyHeader(h, file, x, c.criticals[which]);
    case Creator =>
      CopyHeader(h, file, x, c.creator);
  }

  lemma {:induction false} CopyHeader<S>(h: Compression<S>, file: seq<byte>, x: Placed, s: seq<byte>)
    requires Contains(file, x, s) && WholePacket(h, s)
    ensures x.offset + HEADER <= |file| && HeaderAt(file, x.offset) == HeaderAt(s, 0)
  {
    hide IsPacket, LengthField, HeaderAt;
    assert s[0..|s|] == s;
    PacketMoves(h, s, 0, file, x.offset, |s|);
  }

  /** Write a volume, and load the packets of the file in a repair: all of them are loaded, in the order in which they
      have been placed, and the repair has got the id of the set. */
  method WriteAndLoad<S(!new)>(h: Compression<S>, w: Written, c: Contents, blocksize: nat, chunksize: nat)
    returns (file: array<byte>, repairer: Par2Repairer<S>, loaded: seq<nat>)
    requires Proper(h, c, blocksize) && Fitting(w, c, blocksize) && 0 < chunksize && AllTyped(c) && 0 < |w.placed|
    ensures fresh(file) && fresh(repairer) && repairer.h == h && !repairer.firstpacket && repairer.setid == c.setid
    ensures forall k :: 0 <= k < |w.placed| ==> Holds(h, file[..], w.placed[k], c)
    ensures loaded == Offsets(w.placed)
  {
    hide Holds, Proper, Tiles, HasLength, Ends, Scanned, Fitting, AllTyped, Belongs, Wanted, Selected, Offsets;
    file := WriteVolume(h, w, c, blocksize, chunksize);
    repairer := new Par2Repairer(h, PAR2_TYPES);
    ghost var chosen;
    loaded, chosen := repairer.LoadPacketsFromFile(file[..]);
    AllLoaded(h, file[..], w.placed, c, blocksize);
  }

  lemma {:induction false} AllLoaded<S(!new)>(h: Compression<S>, file: seq<byte>, placed: seq<Placed>, c: Contents,
                                              blocksize: nat)
    requires Proper(h, c, blocksize) && AllTyped(c) && 0 < |placed|
    requires forall k :: 0 <= k < |placed| ==> Holds(h, file, placed[k], c)
    ensures forall k :: 0 <= k < |placed| ==> Offsets(placed)[k] + HEADER <= |file|
    ensures Wanted(file, Offsets(placed), c.setid, PAR2_TYPES) == Offsets(placed)
    ensures SetIdField(HeaderAt(file, Offsets(placed)[0])) == c.setid
  {
    hide Holds, Proper, AllTyped, HeaderAt, TypeField, SetIdField;
    forall k | 0 <= k < |placed|
      ensures Offsets(placed)[k] + HEADER <= |file|
      ensures Belongs(HeaderAt(file, Offsets(placed)[k]), c.setid, PAR2_TYPES)
    {
      HoldsBelongs(h, file, placed[k], c, blocksize);
    }
    AllWanted(file, Offsets(placed), c.setid, PAR2_TYPES);
  }
}
