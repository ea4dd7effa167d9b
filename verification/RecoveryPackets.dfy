/** Recovery packets (recoverypacket.cpp; section "Recovery Slice packet" of the Parity Volume Set
    Specification 2.0): what create writes, chunk by chunk and header last, is what the packet scan of a
    repair accepts, and what is loaded from it is what was written. */
module RecoveryPackets {
  import opened Arithmetic
  import opened Bytes
  import opened Md5
  import opened PacketScans
  import PacketLayouts
  import opened SourceFiles
  import opened Chunks

  /** The size of a packet header and the exponent. */
  const PACKET := 68
  const RECOVERY_TYPE: seq<byte> :=
    [0x50, 0x41, 0x52, 0x20, 0x32, 0x2E, 0x30, 0, 0x52, 0x65, 0x63, 0x76, 0x53, 0x6C, 0x69, 0x63]

  /** What is hashed before the data: set id, type and exponent. */
  function Hashed(setid: seq<byte>, exponent: nat): (b: seq<byte>)
    requires |setid| == 16
    ensures |b| == 36
  {
    setid + RECOVERY_TYPE + LittleEndian(exponent, 4)
  }

  /** The header and the exponent. */
  function Head(length: nat, hash: seq<byte>, setid: seq<byte>, exponent: nat): (b: seq<byte>)
    requires |hash| == |setid| == 16
    ensures |b| == PACKET
  {
    MAGIC + LittleEndian(length, 8) + hash + Hashed(setid, exponent)
  }

  /** The exponent of the recovery packet at p. */
  function ExponentAt(file: seq<byte>, p: nat): nat
    requires p + PACKET <= |file|
  {
    Number(file[p + HEADER..p + PACKET])
  }

  lemma {:induction false} Sizes()
    ensures Bytes256(4) == 0x1_0000_0000 && Bytes256(8) == 0x1_0000_0000_0000_0000
  {
    assert Bytes256(2) == 65536 && Bytes256(3) == 16777216;
    assert Bytes256(5) == 256 * Bytes256(4) && Bytes256(6) == 256 * Bytes256(5) && Bytes256(7) == 256 * Bytes256(6);
  }

  /** A recovery packet with this set id, exponent and data is at p. */
  ghost predicate RecoveryPacketAt<S>(h: Compression<S>, file: seq<byte>, p: nat, setid: seq<byte>, exponent: nat,
                                      data: seq<byte>) {
    && p + PACKET + |data| <= |file| && IsPacket(h, file, p)
    && LengthField(HeaderAt(file, p)) == PACKET + |data|
    && SetIdField(HeaderAt(file, p)) == setid && TypeField(HeaderAt(file, p)) == RECOVERY_TYPE
    && ExponentAt(file, p) == exponent
    && file[p + PACKET..p + PACKET + |data|] == data
  }

  /** The fields of the head. */
  lemma {:induction false} HeadFields(length: nat, hash: seq<byte>, setid: seq<byte>, exponent: nat)
    requires |hash| == |setid| == 16
    ensures var head := Head(length, hash, setid, exponent);
            && head[..8] == MAGIC && head[8..16] == LittleEndian(length, 8) && head[16..32] == hash
            && head[32..48] == setid && head[48..64] == RECOVERY_TYPE && head[64..68] == LittleEndian(exponent, 4)
            && head[32..68] == Hashed(setid, exponent)
  {
    hide LittleEndian;
    var a, b := MAGIC + LittleEndian(length, 8) + hash, Hashed(setid, exponent);
    assert a + b == Head(length, hash, setid, exponent) && |a| == 32;
    assert (a + b)[..8] == MAGIC && (a + b)[8..16] == LittleEndian(length, 8) && (a + b)[16..32] == hash;
    assert b[0..16] == setid && b[16..32] == RECOVERY_TYPE && b[32..36] == LittleEndian(exponent, 4) && b[0..36] == b;
    Second(a, b, 0, 16);
    Second(a, b, 16, 32);
    Second(a, b, 32, 36);
    Second(a, b, 0, 36);
  }

  lemma {:induction false} Second(a: seq<byte>, b: seq<byte>, lo: nat, hi: nat)
    requires lo <= hi <= |b|
    ensures (a + b)[|a| + lo..|a| + hi] == b[lo..hi]
  {
  }

  /** Head and data with the right hash make a packet. */
  lemma {:induction false} PacketMade<S>(h: Compression<S>, file: seq<byte>, p: nat, hash: seq<byte>, setid: seq<byte>,
                                         exponent: nat, data: seq<byte>)
    requires p + PACKET + |data| <= |file| && |hash| == |setid| == 16
    requires exponent < 0x1_0000_0000 && PACKET + |data| < 0x1_0000_0000_0000_0000 && |data| % 4 == 0
    requires file[p..p + PACKET] == Head(PACKET + |data|, hash, setid, exponent)
    requires file[p + PACKET..p + PACKET + |data|] == data
    requires hash == Hash(h, Hashed(setid, exponent) + data)
    ensures RecoveryPacketAt(h, file, p, setid, exponent, data)
  {
    hide Hash, LittleEndian, Number, Head, Hashed, Bytes256, HeaderAt, RecoveryPacketAt;
    hide RECOVERY_TYPE;
    hide MAGIC;
    Sizes();
    NumberOf(PACKET + |data|, 8);
    NumberOf(exponent, 4);
    HeadFields(PACKET + |data|, hash, setid, exponent);
    FieldsAt(file, p);
    Joined(file, p + 32, p + PACKET, p + PACKET + |data|);
    FieldsMake(h, file, p, PACKET + |data|, hash, setid, exponent, data);
  }

  lemma {:induction false} Joined(s: seq<byte>, a: nat, b: nat, c: nat)
    requires a <= b <= c <= |s|
    ensures s[a..c] == s[a..b] + s[b..c]
  {
  }

  lemma {:induction false} FieldsMake<S>(h: Compression<S>, file: seq<byte>, p: nat, length: nat, hash: seq<byte>,
                                         setid: seq<byte>, exponent: nat, data: seq<byte>)
    requires length == PACKET + |data| && |data| % 4 == 0 && p + length <= |file|
    requires var header := HeaderAt(file, p);
             && header[..8] == MAGIC && Number(header[8..16]) == length
             && header[16..32] == hash && header[32..48] == setid
             && header[48..64] == RECOVERY_TYPE
    requires Number(file[p + HEADER..p + PACKET]) == exponent && file[p + PACKET..p + length] == data
    requires Hash(h, file[p + 32..p + length]) == hash
    ensures RecoveryPacketAt(h, file, p, setid, exponent, data)
  {
    hide Hash, HeaderAt, Number, RECOVERY_TYPE, MAGIC;
  }

  /** The fields of the packet at p are parts of its head. */
  lemma {:induction false} FieldsAt(file: seq<byte>, p: nat)
    requires p + PACKET <= |file|
    ensures var head, header := file[p..p + PACKET], HeaderAt(file, p);
            && header[..8] == head[..8] && header[8..16] == head[8..16] && header[16..32] == head[16..32]
            && header[32..48] == head[32..48] && header[48..64] == head[48..64]
            && file[p + HEADER..p + PACKET] == head[64..68] && file[p + 32..p + PACKET] == head[32..68]
  {
    var head, header := file[p..p + PACKET], HeaderAt(file, p);
    assert header == head[..HEADER];
    SubSlice(head, 0, HEADER, 0, 8);
    SubSlice(head, 0, HEADER, 8, 16);
    SubSlice(head, 0, HEADER, 16, 32);
    SubSlice(head, 0, HEADER, 32, 48);
    SubSlice(head, 0, HEADER, 48, 64);
    assert head[0..HEADER] == header;
    SubSlice(file, p, p + PACKET, 64, 68);
    SubSlice(file, p, p + PACKET, 32, 68);
  }

  class RecoveryPacket<S(!new)> {
    const h: Compression<S>
    const file: array<byte>
    const offset: nat
    const length: nat
    const setid: seq<byte>
    const exponent: nat
    const packetcontext: MD5Context<S>
    const datablock: DataBlock
    ghost var written: seq<byte>

    /** What does not change: the packet lies in its file, and numbers fit their fields. */
    ghost predicate Placed() {
      && |setid| == 16 && exponent < 0x1_0000_0000
      && PACKET <= length < 0x1_0000_0000_0000_0000 && length % 4 == 0 && offset + length <= file.Length
      && datablock == DataBlock(offset + PACKET, length - PACKET)
      && packetcontext.h == h && packetcontext.block != file
    }

    /** The data written so far is in the file, and is what has been hashed. */
    ghost predicate Valid()
      reads this, packetcontext, packetcontext.block, file
    {
      && Placed() && |written| <= datablock.length
      && file[datablock.offset..datablock.offset + |written|] == written
      && packetcontext.Valid() && packetcontext.Contents() == After(h, Hashed(setid, exponent) + written)
    }

    constructor Create(h: Compression<S>, file: array<byte>, offset: nat, blocksize: nat, exponent: nat,
                       setid: seq<byte>)
      requires |setid| == 16 && exponent < 0x1_0000_0000 && blocksize % 4 == 0
      requires PACKET + blocksize < 0x1_0000_0000_0000_0000 && offset + PACKET + blocksize <= file.Length
      ensures Valid() && written == [] && fresh(packetcontext) && fresh(packetcontext.block)
      ensures this.h == h && this.file == file && this.offset == offset && length == PACKET + blocksize
      ensures this.exponent == exponent && this.setid == setid
    {
      hide After, Hashed;
      this.h, this.file, this.offset, this.length := h, file, offset, PACKET + blocksize;
      this.exponent, this.setid := exponent, setid;
      var context := new MD5Context(h);
      context.Update(Hashed(setid, exponent), []);
      packetcontext := context;
      datablock := DataBlock(offset + PACKET, blocksize);
      written := [];
      new;
      assert [] + Hashed(setid, exponent) == Hashed(setid, exponent) + [];
    }

    lemma {:induction false} Facts()
      requires Valid()
      ensures datablock == DataBlock(offset + PACKET, length - PACKET)
    {
    }

    /** Write more data, and hash it. */
    method WriteData(position: nat, buffer: seq<byte>)
      requires Valid() && position == |written| && position + |buffer| <= datablock.length
      modifies this`written, packetcontext, packetcontext.block, file
      ensures Valid() && written == old(written) + buffer
      ensures forall i :: 0 <= i < file.Length && !(datablock.offset <= i < datablock.offset + datablock.length) ==>
                file[i] == old(file[i])
    {
      hide After, Hashed, DataBlock.Inside;
      ghost var was, done := file[..], written + buffer;
      packetcontext.Update(buffer, Hashed(setid, exponent) + written);
      assert file[..] == was;
      var wrote := SourceFiles.WriteData(file, datablock, position, buffer);
      DataGrown(was, file[..], datablock, written, buffer);
      assert Hashed(setid, exponent) + written + buffer == Hashed(setid, exponent) + done;
      written := done;
    }

    /** Once all data is written, finish the hash and write the header: there is a packet then. */
    method WriteHeader()
      requires Valid() && |written| == datablock.length
      requires forall state :: |h.output(state)| == 16
      modifies packetcontext, packetcontext.block, file
      ensures RecoveryPacketAt(h, file[..], offset, setid, exponent, written)
      ensures forall i :: 0 <= i < file.Length && !(offset <= i < offset + PACKET) ==> file[i] == old(file[i])
    {
      hide After, Hash, Head, Hashed, RecoveryPacketAt;
      ghost var was := file[..];
      var hash := packetcontext.Final(Hashed(setid, exponent) + written);
      HashSize(h, Hashed(setid, exponent) + written);
      var head := Head(length, hash, setid, exponent);
      forall i | 0 <= i < PACKET {
        file[offset + i] := head[i];
      }
      HeadWritten(was, file[..], offset, head, written);
      PacketMade(h, file[..], offset, hash, setid, exponent, written);
    }
  }

  lemma {:induction false} HeadWritten(before: seq<byte>, after: seq<byte>, p: nat, head: seq<byte>, data: seq<byte>)
    requires |head| == PACKET && p + PACKET + |data| <= |before| == |after|
    requires before[p + PACKET..p + PACKET + |data|] == data
    requires forall i :: 0 <= i < PACKET ==> after[p + i] == head[i]
    requires forall i :: 0 <= i < |before| && !(p <= i < p + PACKET) ==> after[i] == before[i]
    ensures after[p..p + PACKET] == head && after[p + PACKET..p + PACKET + |data|] == data
  {
    var a, b := p + PACKET, p + PACKET + |data|;
    assert after[a..b] == before[a..b];
  }

  lemma {:induction false} DataGrown(before: seq<byte>, after: seq<byte>, block: DataBlock, written: seq<byte>,
                                     buffer: seq<byte>)
    requires |before| == |after| && block.offset + block.length <= |before| && |written| + |buffer| <= block.length
    requires before[block.offset..block.offset + |written|] == written
    requires var wrote := block.Inside(|written|, |buffer|); var start := block.offset + |written|;
             && (wrote > 0 ==> start + wrote <= |after| && after[start..start + wrote] == buffer[..wrote])
             && forall i :: 0 <= i < |before| && !(start <= i < start + wrote) ==> after[i] == before[i]
    ensures after[block.offset..block.offset + |written + buffer|] == written + buffer
    ensures forall i :: 0 <= i < |before| && !(block.offset <= i < block.offset + block.length) ==>
              after[i] == before[i]
  {
    hide Holds;
    var done := written + buffer;
    HoldsAll(before, block, done, |written|);
    HoldsMore(before, after, block, done, |written|, buffer);
    HoldsAll(after, block, done, |done|);
  }

  lemma {:induction false} HoldsAll(contents: seq<byte>, block: DataBlock, want: seq<byte>, upto: nat)
    requires upto <= block.length && upto <= |want| && block.offset + block.length <= |contents|
    ensures Holds(contents, block, want, upto) <==> contents[block.offset..block.offset + upto] == want[..upto]
  {
  }

  lemma {:induction false} HashSize<S(!new)>(h: Compression<S>, s: seq<byte>)
    requires forall state :: |h.output(state)| == 16
    ensures |Hash(h, s)| == 16
  {
  }

  /** Write a whole recovery packet, its data in chunks of any size: there is a packet then, with that data,
      and nothing else in the file has changed. */
  method WritePacket<S(!new)>(h: Compression<S>, file: array<byte>, offset: nat, exponent: nat, setid: seq<byte>,
                              block: seq<byte>, chunksize: nat)
    requires |setid| == 16 && exponent < 0x1_0000_0000 && |block| % 4 == 0 && 0 < chunksize
    requires PACKET + |block| < 0x1_0000_0000_0000_0000 && offset + PACKET + |block| <= file.Length
    requires forall state :: |h.output(state)| == 16
    modifies file
    ensures RecoveryPacketAt(h, file[..], offset, setid, exponent, block)
    ensures forall i :: 0 <= i < file.Length && !(offset <= i < offset + PACKET + |block|) ==> file[i] == old(file[i])
  {
    hide RecoveryPacketAt;
    hide RecoveryPacket.Valid;
    var packet := new RecoveryPacket.Create(h, file, offset, |block|, exponent, setid);
    packet.Facts();
    var blockoffset := 0;
    while blockoffset < |block|
      invariant blockoffset <= |block| && packet.Valid() && packet.written == block[..blockoffset]
      invariant packet.datablock == DataBlock(offset + PACKET, |block|)
      invariant forall i :: 0 <= i < file.Length && !(offset <= i < offset + PACKET + |block|) ==>
                  file[i] == old(file[i])
    {
      var blocklength := Min(chunksize, |block| - blockoffset);
      packet.WriteData(blockoffset, block[blockoffset..blockoffset + blocklength]);
      blockoffset := blockoffset + blocklength;
    }
    assert packet.written == block;
    packet.WriteHeader();
  }

  /** Load a recovery packet: only the exponent is read, and the data located. */
  method Load(file: seq<byte>, offset: nat, header: seq<byte>) returns (ok: bool, exponent: nat, datablock: DataBlock)
    requires offset + HEADER <= |file| && header == HeaderAt(file, offset) && offset + LengthField(header) <= |file|
    ensures ok <==> PACKET < LengthField(header)
    ensures ok ==> offset + PACKET <= |file| && exponent == ExponentAt(file, offset)
    ensures ok ==> datablock.offset + datablock.length <= |file| && datablock.offset == offset + PACKET
    ensures ok ==> datablock.length == LengthField(header) - PACKET
  {
    ok, exponent, datablock := false, 0, DataBlock(0, 0);
    if LengthField(header) <= PACKET {
      return;
    }
    datablock := DataBlock(offset + PACKET, LengthField(header) - PACKET);
    exponent := Number(file[offset + HEADER..offset + PACKET]);
    ok := true;
  }

  /** Loading a recovery packet gives its exponent and its data, unless it has no data. */
  method LoadPacketAt<S>(h: Compression<S>, file: seq<byte>, offset: nat, ghost setid: seq<byte>, ghost exponent: nat,
                         ghost data: seq<byte>) returns (ok: bool, found: nat, datablock: DataBlock)
    requires offset + HEADER <= |file| && RecoveryPacketAt(h, file, offset, setid, exponent, data)
    ensures ok <==> 0 < |data|
    ensures ok ==> found == exponent && datablock.offset + datablock.length <= |file|
    ensures ok ==> file[datablock.offset..datablock.offset + datablock.length] == data
  {
    ok, found, datablock := Load(file, offset, HeaderAt(file, offset));
  }

  /** What is loaded from a packet that was written is what was written. */
  method WriteThenLoad<S(!new)>(h: Compression<S>, file: array<byte>, offset: nat, exponent: nat, setid: seq<byte>,
                                block: seq<byte>, chunksize: nat) returns (ok: bool, found: nat, datablock: DataBlock)
    requires |setid| == 16 && exponent < 0x1_0000_0000 && |block| % 4 == 0 && 0 < chunksize
    requires PACKET + |block| < 0x1_0000_0000_0000_0000 && offset + PACKET + |block| <= file.Length
    requires forall state :: |h.output(state)| == 16
    modifies file
    ensures RecoveryPacketAt(h, file[..], offset, setid, exponent, block) && (ok <==> 0 < |block|)
    ensures ok ==> found == exponent && datablock.offset + datablock.length <= file.Length
    ensures ok ==> file[datablock.offset..datablock.offset + datablock.length] == block
  {
    hide RecoveryPacketAt;
    WritePacket(h, file, offset, exponent, setid, block, chunksize);
    ok, found, datablock := LoadPacketAt(h, file[..], offset, setid, exponent, block);
  }

  /** Packets that follow each other without gap, from the first byte to the last, are exactly what
      the scan finds: nothing is missed and nothing else is taken for a packet. */
  lemma {:induction false} TilesScanned<S>(h: Compression<S>, file: seq<byte>, placed: seq<PacketLayouts.Placed>)
    requires PacketLayouts.Tiles(placed, |file|)
    requires forall k :: 0 <= k < |placed| ==> HoldsPacket(h, file, placed[k])
    ensures Packets(h, file, 0) == Offsets(placed)
    ensures |file| + HEADER < U64 ==> Ends(h, file) && Scanned(h, file) == Offsets(placed)
  {
    hide CleanFrom, Packets, Offsets, Ends, Scanned;
    TilesFollow(placed, |file|);
    ScannedFrom(h, file, placed, 0);
    if |file| + HEADER < U64 {
      CleanScan(h, file);
    }
  }

  /** There is a packet of the planned length at the planned place. */
  ghost predicate HoldsPacket<S>(h: Compression<S>, file: seq<byte>, x: PacketLayouts.Placed) {
    x.offset + HEADER <= |file| && IsPacket(h, file, x.offset) && LengthField(HeaderAt(file, x.offset)) == x.length
  }

  function Offsets(placed: seq<PacketLayouts.Placed>): (r: seq<nat>)
    ensures |r| == |placed| && forall k :: 0 <= k < |r| ==> r[k] == placed[k].offset
  {
    seq(|placed|, k requires 0 <= k < |placed| => placed[k].offset)
  }

  /** Where the packet after the first k starts. */
  function StartOf(placed: seq<PacketLayouts.Placed>, k: nat, end: nat): nat
    requires k <= |placed|
  {
    if k < |placed| then placed[k].offset else end
  }

  lemma {:induction false} TilesFollow(placed: seq<PacketLayouts.Placed>, end: nat)
    requires PacketLayouts.Tiles(placed, end)
    ensures StartOf(placed, 0, end) == 0
    ensures forall k :: 0 <= k < |placed| ==> placed[k].offset + placed[k].length == StartOf(placed, k + 1, end)
    decreases |placed|
  {
    if |placed| > 0 {
      var n := |placed| - 1;
      TilesFollow(placed[..n], placed[n].offset);
      forall k | 0 <= k < n
        ensures placed[k].offset + placed[k].length == StartOf(placed, k + 1, end)
      {
        assert placed[..n][k] == placed[k];
      }
    }
  }

  lemma {:induction false} StartAt(placed: seq<PacketLayouts.Placed>, k: nat, end: nat)
    requires k <= |placed|
    ensures StartOf(placed, k, end) == if k < |placed| then placed[k].offset else end
  {
  }

  lemma {:induction false} FirstOffset(placed: seq<PacketLayouts.Placed>, k: nat)
    requires k < |placed|
    ensures Offsets(placed)[k..] == [placed[k].offset] + Offsets(placed)[k + 1..]
  {
  }

  lemma {:induction false} ScannedFrom<S>(h: Compression<S>, file: seq<byte>, placed: seq<PacketLayouts.Placed>, k: nat)
    requires k <= |placed|
    requires forall j :: 0 <= j < |placed| ==> HoldsPacket(h, file, placed[j])
    requires forall j :: 0 <= j < |placed| ==> placed[j].offset + placed[j].length == StartOf(placed, j + 1, |file|)
    ensures Packets(h, file, StartOf(placed, k, |file|)) == Offsets(placed)[k..]
    ensures CleanFrom(h, file, StartOf(placed, k, |file|))
    decreases |placed| - k
  {
    hide Packets, IsPacket, Wraps, LengthField, HeaderAt, Offsets, StartOf;
    PacketsFrom(h, file, StartOf(placed, k, |file|));
    StartAt(placed, k, |file|);
    if k < |placed| {
      assert HoldsPacket(h, file, placed[k]);
      ScannedFrom(h, file, placed, k + 1);
      FirstOffset(placed, k);
    }
  }
}
