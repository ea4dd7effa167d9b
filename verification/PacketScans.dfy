/** Scanning a file for packets (par2repairer.cpp, LoadPacketsFromFile).  The buffered scan accepts
    exactly the packets that looking at every offset one by one would.  Packet headers are those of
    the section "Packet Header" of the Parity Volume Set Specification 2.0. */
module PacketScans {
  import opened Bytes
  import opened Md5

  const HEADER := 64
  const BUFFER := 1048576
  const MAGIC: seq<byte> := [0x50, 0x41, 0x52, 0x32, 0, 0x50, 0x4B, 0x54]

  // ----- The fields of a packet header -----

  predicate HasMagic(header: seq<byte>)
    requires |header| >= HEADER
  {
    header[..8] == MAGIC
  }

  function LengthField(header: seq<byte>): nat
    requires |header| >= HEADER
  {
    Number(header[8..16])
  }

  function HashField(header: seq<byte>): seq<byte>
    requires |header| >= HEADER
  {
    header[16..32]
  }

  function SetIdField(header: seq<byte>): seq<byte>
    requires |header| >= HEADER
  {
    header[32..48]
  }

  function TypeField(header: seq<byte>): seq<byte>
    requires |header| >= HEADER
  {
    header[48..64]
  }

  function HeaderAt(file: seq<byte>, p: nat): (r: seq<byte>)
    requires p + HEADER <= |file|
    ensures |r| == HEADER
  {
    file[p..p + HEADER]
  }

  // ----- The simple scan -----

  predicate LengthFits(file: seq<byte>, p: nat)
    requires p + HEADER <= |file|
  {
    var length := LengthField(HeaderAt(file, p));
    HEADER <= length && length % 4 == 0 && p + length <= |file|
  }

  /** A packet starts at p: magic, length and hash are right.  The hash covers all but the first
      three fields. */
  predicate IsPacket<S>(h: Compression<S>, file: seq<byte>, p: nat)
    requires p + HEADER <= |file|
  {
    var header := HeaderAt(file, p);
    && HasMagic(header) && LengthFits(file, p)
    && Hash(h, file[p + 32..p + LengthField(header)]) == HashField(header)
  }

  /** The sum of two 64-bit words. */
  function Sum64(a: nat, b: nat): (r: nat)
    ensures r < U64 && (a + b < U64 ==> r == a + b)
  {
    (a + b) % U64
  }

  predicate LengthFits64(file: seq<byte>, p: nat)
    requires p + HEADER <= |file|
  {
    var length := LengthField(HeaderAt(file, p));
    HEADER <= length && length % 4 == 0 && Sum64(p, length) <= |file|
  }

  /** What is hashed behind the first three fields: at least the rest of the header. */
  function HashedPart(file: seq<byte>, p: nat): seq<byte>
    requires p + HEADER <= |file| && LengthFits64(file, p)
  {
    var end := Sum64(p, LengthField(HeaderAt(file, p)));
    file[p + 32..if end < p + HEADER then p + HEADER else end]
  }

  /** The program takes what is at p for a packet. */
  predicate Accepted<S>(h: Compression<S>, file: seq<byte>, p: nat)
    requires p + HEADER <= |file|
  {
    var header := HeaderAt(file, p);
    HasMagic(header) && LengthFits64(file, p) && Hash(h, HashedPart(file, p)) == HashField(header)
  }

  /** A header whose length leads past the largest word, with the hash of the rest of the header alone. */
  predicate Wraps<S>(h: Compression<S>, file: seq<byte>, p: nat)
    requires p + HEADER <= |file|
  {
    var header := HeaderAt(file, p);
    && HasMagic(header) && LengthField(header) % 4 == 0 && U64 <= p + LengthField(header) <= U64 + |file|
    && Hash(h, file[p + 32..p + HEADER]) == HashField(header)
  }

  ghost predicate NoneWraps<S>(h: Compression<S>, file: seq<byte>) {
    forall p :: 0 <= p && p + HEADER <= |file| ==> !Wraps(h, file, p)
  }

  /** The program takes for packets exactly the packets, and headers that wrap around. */
  lemma {:induction false} AcceptedExactly<S>(h: Compression<S>, file: seq<byte>, p: nat)
    requires p + HEADER <= |file| && |file| + HEADER < U64
    ensures Accepted(h, file, p) <==> IsPacket(h, file, p) || Wraps(h, file, p)
    ensures !(IsPacket(h, file, p) && Wraps(h, file, p))
  {
    hide Hash, HasMagic;
    var length := LengthField(HeaderAt(file, p));
    LengthIsWord(HeaderAt(file, p));
    if p + length >= U64 {
      SumWraps(p, length);
    }
  }

  /** Behind a header that wraps around the program goes back, and not on. */
  lemma {:induction false} WrapGoesBack<S>(h: Compression<S>, file: seq<byte>, p: nat)
    requires p + HEADER <= |file| && |file| + HEADER < U64 && Wraps(h, file, p)
    ensures Sum64(p, LengthField(HeaderAt(file, p))) < p
  {
    hide LengthField, HeaderAt, Hash, HasMagic, HashField;
    LengthIsWord(HeaderAt(file, p));
    SumWraps(p, LengthField(HeaderAt(file, p)));
  }

  lemma {:induction false} SumWraps(a: nat, b: nat)
    requires U64 <= a + b < 2 * U64
    ensures Sum64(a, b) == a + b - U64
  {
  }

  lemma {:induction false} LengthIsWord(header: seq<byte>)
    requires |header| >= HEADER
    ensures LengthField(header) < U64
  {
    NumberBelow(header[8..16]);
    Bytes256Of8();
  }

  /** Look at every offset: step over a packet, or go on with the next byte. */
  function Packets<S>(h: Compression<S>, file: seq<byte>, p: nat): seq<nat>
    decreases |file| - p
  {
    if p + HEADER > |file| then []
    else if IsPacket(h, file, p) then [p] + Packets(h, file, p + LengthField(HeaderAt(file, p)))
    else Packets(h, file, p + 1)
  }

  /** All entries are packets inside the file, from p on, and each ends before the next one starts. */
  ghost predicate Apart<S>(h: Compression<S>, file: seq<byte>, p: nat, r: seq<nat>) {
    && (forall k :: 0 <= k < |r| ==> p <= r[k] && r[k] + HEADER <= |file| && IsPacket(h, file, r[k]))
    && (forall j, k :: 0 <= j < k < |r| ==> r[j] + LengthField(HeaderAt(file, r[j])) <= r[k])
  }

  /** Packets do not overlap, and come in ascending order. */
  lemma {:induction false} PacketsApart<S>(h: Compression<S>, file: seq<byte>, p: nat)
    ensures Apart(h, file, p, Packets(h, file, p))
    decreases |file| - p
  {
    PacketsFrom(h, file, p);
    hide Packets;
    hide IsPacket;
    hide Apart;
    hide LengthField;
    hide HeaderAt;
    if p + HEADER <= |file| {
      PacketLength(h, file, p);
      if IsPacket(h, file, p) {
        var next := p + LengthField(HeaderAt(file, p));
        PacketsApart(h, file, next);
        ApartFront(h, file, p, Packets(h, file, next));
      } else {
        PacketsApart(h, file, p + 1);
        ApartFrom(h, file, p, Packets(h, file, p + 1));
      }
    } else {
      ApartFrom(h, file, p, []);
    }
  }

  lemma {:induction false} PacketsFrom<S>(h: Compression<S>, file: seq<byte>, p: nat)
    ensures Packets(h, file, p) ==
            if p + HEADER > |file| then []
            else if IsPacket(h, file, p) then [p] + Packets(h, file, p + LengthField(HeaderAt(file, p)))
            else Packets(h, file, p + 1)
  {
  }

  lemma {:induction false} PacketLength<S>(h: Compression<S>, file: seq<byte>, p: nat)
    requires p + HEADER <= |file|
    ensures IsPacket(h, file, p) ==> LengthField(HeaderAt(file, p)) >= HEADER
  {
  }

  lemma {:induction false} ApartFrom<S>(h: Compression<S>, file: seq<byte>, p: nat, r: seq<nat>)
    requires r == [] || Apart(h, file, p + 1, r)
    ensures Apart(h, file, p, r)
  {
    hide IsPacket;
  }

  lemma {:induction false} ApartFront<S>(h: Compression<S>, file: seq<byte>, p: nat, rest: seq<nat>)
    requires p + HEADER <= |file| && IsPacket(h, file, p)
    requires Apart(h, file, p + LengthField(HeaderAt(file, p)), rest)
    ensures Apart(h, file, p, [p] + rest)
  {
    hide IsPacket;
    hide HeaderAt;
    hide LengthField;
  }

  // ----- The scan of the program, look by look -----

  /** Where the program looks after looking at p. */
  function Next<S>(h: Compression<S>, file: seq<byte>, p: nat): nat
    requires p + HEADER <= |file|
  {
    if Accepted(h, file, p) then Sum64(p, LengthField(HeaderAt(file, p))) else p + 1
  }

  /** Where the program is after n looks; it stays where there is no room for a header. */
  function Position<S>(h: Compression<S>, file: seq<byte>, n: nat): nat {
    if n == 0 then 0
    else
      var p := Position(h, file, n - 1);
      if p + HEADER <= |file| then Next(h, file, p) else p
  }

  /** What it has taken for packets in n looks. */
  function Found<S>(h: Compression<S>, file: seq<byte>, n: nat): seq<nat> {
    if n == 0 then []
    else
      var p := Position(h, file, n - 1);
      Found(h, file, n - 1) + if p + HEADER <= |file| && Accepted(h, file, p) then [p] else []
  }

  predicate Ended<S>(h: Compression<S>, file: seq<byte>, n: nat) {
    Position(h, file, n) + HEADER > |file|
  }

  ghost predicate Ends<S>(h: Compression<S>, file: seq<byte>) {
    exists n: nat :: Ended(h, file, n)
  }

  /** All that the program takes for packets, in the order in which it comes to them. */
  ghost function Scanned<S>(h: Compression<S>, file: seq<byte>): seq<nat>
    requires Ends(h, file)
  {
    var n: nat :| Ended(h, file, n);
    Found(h, file, n)
  }

  lemma {:induction false} StaysEnded<S>(h: Compression<S>, file: seq<byte>, a: nat, b: nat)
    requires a <= b && Ended(h, file, a)
    ensures Position(h, file, b) == Position(h, file, a) && Found(h, file, b) == Found(h, file, a)
    decreases b
  {
    hide Accepted;
    if a < b {
      StaysEnded(h, file, a, b - 1);
    }
  }

  lemma {:induction false} ScannedIs<S>(h: Compression<S>, file: seq<byte>, n: nat)
    requires Ended(h, file, n)
    ensures Ends(h, file) && Scanned(h, file) == Found(h, file, n)
  {
    hide Position, Found;
    var m: nat :| Ended(h, file, m) && Scanned(h, file) == Found(h, file, m);
    StaysEnded(h, file, if m < n then m else n, if m < n then n else m);
  }

  lemma {:induction false} FirstLook<S>(h: Compression<S>, file: seq<byte>)
    ensures Position(h, file, 0) == 0 && Found(h, file, 0) == []
  {
  }

  lemma {:induction false} OneLook<S>(h: Compression<S>, file: seq<byte>, n: nat)
    requires Position(h, file, n) + HEADER <= |file|
    ensures Position(h, file, n + 1) == Next(h, file, Position(h, file, n))
  {
    hide Accepted;
  }

  /** Offsets at which there is no packet are stepped over. */
  lemma {:induction false} SkipTo<S>(h: Compression<S>, file: seq<byte>, n: nat, q: nat)
    requires Position(h, file, n) <= q && q + HEADER <= |file| + 1
    requires NoneAccepted(h, file, Position(h, file, n), q)
    ensures var m := n + (q - Position(h, file, n));
            Position(h, file, m) == q && Found(h, file, m) == Found(h, file, n)
    decreases q
  {
    hide Accepted, HeaderAt, LengthField, Sum64;
    var p := Position(h, file, n);
    if p < q {
      SkipTo(h, file, n, q - 1);
      SkipOne(h, file, n + (q - 1 - p));
      assert n + (q - 1 - p) + 1 == n + (q - p);
    }
  }

  lemma {:induction false} SkipOne<S>(h: Compression<S>, file: seq<byte>, n: nat)
    requires Position(h, file, n) + HEADER <= |file| && !Accepted(h, file, Position(h, file, n))
    ensures Position(h, file, n + 1) == Position(h, file, n) + 1 && Found(h, file, n + 1) == Found(h, file, n)
  {
    hide Accepted;
  }

  ghost predicate NoneAccepted<S>(h: Compression<S>, file: seq<byte>, p: nat, q: nat) {
    forall k :: p <= k < q && k + HEADER <= |file| ==> !Accepted(h, file, k)
  }

  // ----- When the scan ends -----

  lemma {:induction false} SamePath<S>(h: Compression<S>, file: seq<byte>, i: nat, j: nat, k: nat)
    requires Position(h, file, i) == Position(h, file, j)
    ensures Position(h, file, i + k) == Position(h, file, j + k)
  {
    hide Accepted;
    if k > 0 {
      SamePath(h, file, i, j, k - 1);
      assert i + k - 1 == i + (k - 1) && j + k - 1 == j + (k - 1);
    }
  }

  /** From an offset that it has come to twice, the scan goes round for ever. */
  lemma {:induction false} GoesRound<S>(h: Compression<S>, file: seq<byte>, i: nat, j: nat, n: nat)
    requires i < j && Position(h, file, i) == Position(h, file, j) && !Ended(h, file, i)
    ensures !Ended(h, file, n)
    decreases n
  {
    hide Position;
    if n > j {
      SamePath(h, file, i, j, n - j);
      GoesRound(h, file, i, j, n - (j - i));
    } else if Ended(h, file, n) {
      StaysEnded(h, file, n, if n <= i then i else j);
    }
  }

  lemma {:induction false} BoundedSet(a: set<nat>, bound: nat)
    requires forall x :: x in a ==> x < bound
    ensures |a| <= bound
  {
    if bound == 0 {
      assert a == {};
    } else {
      BoundedSet(a - {bound - 1}, bound - 1);
      assert a <= (a - {bound - 1}) + {bound - 1};
      assert a == a - {bound - 1} || a == (a - {bound - 1}) + {bound - 1};
    }
  }

  ghost function Visited<S>(h: Compression<S>, file: seq<byte>, n: nat): set<nat> {
    if n == 0 then {} else Visited(h, file, n - 1) + {Position(h, file, n - 1)}
  }

  ghost predicate CameTo<S>(h: Compression<S>, file: seq<byte>, n: nat, p: nat) {
    exists i: nat :: i < n && Position(h, file, i) == p
  }

  /** The offsets of n looks that are all different. */
  lemma {:induction false} VisitedSize<S>(h: Compression<S>, file: seq<byte>, n: nat)
    requires forall i: nat, j: nat :: i < j < n ==> Position(h, file, i) != Position(h, file, j)
    ensures |Visited(h, file, n)| == n
    ensures forall p :: p in Visited(h, file, n) ==> CameTo(h, file, n, p)
  {
    hide Position;
    if n > 0 {
      VisitedSize(h, file, n - 1);
    }
  }

  /** After i looks the scan is at an offset with room for a header, and after j looks it is there again. */
  ghost predicate ComesBack<S>(h: Compression<S>, file: seq<byte>, i: nat, j: nat) {
    i < j && !Ended(h, file, i) && Position(h, file, i) == Position(h, file, j)
  }

  /** The scan ends exactly if it never comes to an offset twice. */
  lemma {:induction false} EndsExactly<S>(h: Compression<S>, file: seq<byte>)
    ensures Ends(h, file) <==> forall i: nat, j: nat :: !ComesBack(h, file, i, j)
  {
    hide Position;
    if i: nat, j: nat :| ComesBack(h, file, i, j) {
      forall n: nat
        ensures !Ended(h, file, n)
      {
        GoesRound(h, file, i, j, n);
      }
      assert !Ends(h, file);
    } else if !Ends(h, file) {
      var n := |file| + 1;
      forall i: nat, j: nat | i < j < n
        ensures Position(h, file, i) != Position(h, file, j)
      {
        assert !ComesBack(h, file, i, j) && !Ended(h, file, i);
      }
      VisitedSize(h, file, n);
      forall p | p in Visited(h, file, n)
        ensures p < |file|
      {
        assert CameTo(h, file, n, p);
        var i: nat :| i < n && Position(h, file, i) == p;
        assert !Ended(h, file, i);
      }
      BoundedSet(Visited(h, file, n), |file|);
      assert false;
    }
  }

  /** No header that wraps around is reached from p on. */
  ghost predicate CleanFrom<S>(h: Compression<S>, file: seq<byte>, p: nat)
    decreases |file| - p
  {
    p + HEADER > |file| ||
    if IsPacket(h, file, p) then CleanFrom(h, file, p + LengthField(HeaderAt(file, p)))
    else !Wraps(h, file, p) && CleanFrom(h, file, p + 1)
  }

  lemma {:induction false} CleanIfNoneWraps<S>(h: Compression<S>, file: seq<byte>, p: nat)
    requires NoneWraps(h, file)
    ensures CleanFrom(h, file, p)
    decreases |file| - p
  {
    hide Wraps, HasMagic, Hash, HashField;
    if p + HEADER <= |file| {
      CleanIfNoneWraps(h, file, if IsPacket(h, file, p) then p + LengthField(HeaderAt(file, p)) else p + 1);
    }
  }

  /** The scan ends and has taken for packets exactly the packets, if and only if it reaches no such header. */
  lemma {:induction false} CleanScan<S>(h: Compression<S>, file: seq<byte>)
    requires |file| + HEADER < U64
    ensures CleanFrom(h, file, 0) <==> Ends(h, file) && Scanned(h, file) == Packets(h, file, 0)
  {
    hide CleanFrom, Packets, Scanned, Found, Position;
    FirstLook(h, file);
    if CleanFrom(h, file, 0) {
      var n := CleanPath(h, file, 0);
      assert [] + Packets(h, file, 0) == Packets(h, file, 0);
      ScannedIs(h, file, n);
    } else if Ends(h, file) {
      var n: nat :| Ended(h, file, n);
      ScannedIs(h, file, n);
      var p := WrapReached(h, file, 0, n);
      PacketsApart(h, file, 0);
      AcceptedExactly(h, file, p);
    }
  }

  /** If the path is not clean, a header that wraps around is found before the end. */
  lemma {:induction false} WrapReached<S>(h: Compression<S>, file: seq<byte>, n: nat, end: nat) returns (p: nat)
    requires |file| + HEADER < U64 && !CleanFrom(h, file, Position(h, file, n)) && Ended(h, file, end)
    ensures p + HEADER <= |file| && Wraps(h, file, p) && p in Found(h, file, end)
    decreases |file| - Position(h, file, n)
  {
    hide IsPacket, Wraps, Accepted, HeaderAt, LengthField, Sum64;
    p := Position(h, file, n);
    if Wraps(h, file, p) {
      AcceptedExactly(h, file, p);
      if end <= n {
        StaysEnded(h, file, end, n);
      }
      assert Found(h, file, n + 1)[|Found(h, file, n)|] == p;
      FoundGrows(h, file, n + 1, end);
    } else {
      UncleanLook(h, file, p);
      p := WrapReached(h, file, n + 1, end);
    }
  }

  lemma {:induction false} UncleanLook<S>(h: Compression<S>, file: seq<byte>, p: nat)
    requires |file| + HEADER < U64 && !CleanFrom(h, file, p) && !(p + HEADER <= |file| && Wraps(h, file, p))
    ensures p + HEADER <= |file| && p < Next(h, file, p) <= |file| && !CleanFrom(h, file, Next(h, file, p))
  {
    hide HasMagic, Hash, HashField, Accepted, Wraps, LengthField, HeaderAt;
    AcceptedExactly(h, file, p);
  }

  lemma {:induction false} FoundGrows<S>(h: Compression<S>, file: seq<byte>, a: nat, b: nat)
    requires a <= b
    ensures Found(h, file, a) <= Found(h, file, b)
    decreases b
  {
    hide Accepted, Position;
    if a < b {
      FoundGrows(h, file, a, b - 1);
    }
  }

  lemma {:induction false} CleanPath<S>(h: Compression<S>, file: seq<byte>, n: nat) returns (m: nat)
    requires |file| + HEADER < U64 && CleanFrom(h, file, Position(h, file, n))
    ensures Ended(h, file, m)
    ensures Found(h, file, m) == Found(h, file, n) + Packets(h, file, Position(h, file, n))
    decreases |file| - Position(h, file, n)
  {
    hide IsPacket, Wraps, Accepted, HeaderAt, LengthField;
    m := n;
    var p := Position(h, file, n);
    if p + HEADER <= |file| {
      CleanLook(h, file, p);
      m := CleanPath(h, file, n + 1);
    }
  }

  lemma {:induction false} CleanLook<S>(h: Compression<S>, file: seq<byte>, p: nat)
    requires |file| + HEADER < U64 && p + HEADER <= |file| && CleanFrom(h, file, p)
    ensures Accepted(h, file, p) <==> IsPacket(h, file, p)
    ensures p < Next(h, file, p) <= |file| && CleanFrom(h, file, Next(h, file, p))
    ensures IsPacket(h, file, p) ==> Next(h, file, p) == p + LengthField(HeaderAt(file, p))
  {
    hide HasMagic, Hash, HashField, Accepted, Wraps, LengthField, HeaderAt;
    AcceptedExactly(h, file, p);
  }

  // ----- A scan that does not end -----

  /** The fields of a header, one after the other. */
  function Header(length: nat, hash: seq<byte>, setid: seq<byte>, kind: seq<byte>): (b: seq<byte>)
    requires |hash| == |setid| == |kind| == 16
    ensures |b| == HEADER
  {
    MAGIC + LittleEndian(length, 8) + hash + setid + kind
  }

  lemma {:induction false} HeaderFields(length: nat, hash: seq<byte>, setid: seq<byte>, kind: seq<byte>)
    requires |hash| == |setid| == |kind| == 16 && length < U64
    ensures var header := Header(length, hash, setid, kind);
            && HasMagic(header) && LengthField(header) == length && HashField(header) == hash
            && header[32..] == setid + kind
  {
    var header := Header(length, hash, setid, kind);
    assert header[..8] == MAGIC && header[8..16] == LittleEndian(length, 8);
    assert header[16..32] == hash && header[32..] == setid + kind;
    hide Number, LittleEndian;
    Bytes256Of8();
    NumberOf(length, 8);
  }

  lemma {:induction false} Bytes256Of8()
    ensures Bytes256(8) == U64
  {
    assert Bytes256(4) == 0x1_0000_0000;
    assert Bytes256(8) == 0x1_0000_0000 * Bytes256(4);
  }

  /** A header behind as many zeros, whose length leads exactly to the end of the 64-bit words. */
  function Endless<S>(h: Compression<S>, setid: seq<byte>, kind: seq<byte>): (file: seq<byte>)
    requires |setid| == |kind| == 16 && |Hash(h, setid + kind)| == 16
    ensures |file| == 2 * HEADER
  {
    Zeros(HEADER) + Header(U64 - HEADER, Hash(h, setid + kind), setid, kind)
  }

  /** That header is taken for a packet, and the scan starts again at the beginning of the file, for ever. */
  lemma {:induction false} EndlessScan<S>(h: Compression<S>, setid: seq<byte>, kind: seq<byte>)
    requires |setid| == |kind| == 16 && |Hash(h, setid + kind)| == 16
    ensures var file := Endless(h, setid, kind);
            && Wraps(h, file, HEADER) && Accepted(h, file, HEADER) && Next(h, file, HEADER) == 0
            && !Ends(h, file) && forall n: nat :: !Ended(h, file, n)
  {
    hide Wraps, Accepted, NoneAccepted, Next, Position, Found, Endless;
    var file := Endless(h, setid, kind);
    EndlessLooks(h, setid, kind);
    FirstLook(h, file);
    SkipTo(h, file, 0, HEADER);
    OneLook(h, file, HEADER);
    forall n: nat
      ensures !Ended(h, file, n)
    {
      GoesRound(h, file, 0, HEADER + 1, n);
    }
  }

  lemma {:induction false} EndlessLooks<S>(h: Compression<S>, setid: seq<byte>, kind: seq<byte>)
    requires |setid| == |kind| == 16 && |Hash(h, setid + kind)| == 16
    ensures var file := Endless(h, setid, kind);
            && Wraps(h, file, HEADER) && Accepted(h, file, HEADER) && Next(h, file, HEADER) == 0
            && NoneAccepted(h, file, 0, HEADER)
  {
    hide Hash;
    var file, hash := Endless(h, setid, kind), Hash(h, setid + kind);
    var header := Header(U64 - HEADER, hash, setid, kind);
    HeaderFields(U64 - HEADER, hash, setid, kind);
    hide Header;
    assert HeaderAt(file, HEADER) == header;
    assert file[HEADER + 32..2 * HEADER] == header[32..];
    assert (U64 - HEADER) % 4 == 0 && Sum64(HEADER, U64 - HEADER) == 0;
    assert Wraps(h, file, HEADER);
    AcceptedExactly(h, file, HEADER);
    forall p | 0 <= p < HEADER
      ensures !Accepted(h, file, p)
    {
      assert HeaderAt(file, p)[..8][0] == file[p] == 0;
    }
  }

  // ----- The buffered scan -----

  lemma {:induction false} InBuffer(file: seq<byte>, offset: nat, want: nat, current: nat)
    requires offset + want <= |file| && current + HEADER <= want
    ensures file[offset..offset + want][current..current + HEADER] == HeaderAt(file, offset + current)
  {
    var t, u := file[offset..offset + want][current..current + HEADER], HeaderAt(file, offset + current);
    forall k | 0 <= k < HEADER
      ensures t[k] == u[k]
    {
    }
  }

  /** Find the next magic value at or after an offset. */
  method FindMagic(file: seq<byte>, offset0: nat, buffersize: nat) returns (offset: nat)
    requires buffersize >= HEADER
    ensures offset0 <= offset
    ensures forall k :: offset0 <= k < offset && k + HEADER <= |file| ==> !HasMagic(HeaderAt(file, k))
    ensures offset + HEADER <= |file| ==> HasMagic(HeaderAt(file, offset))
  {
    offset := offset0;
    while offset + HEADER <= |file|
      invariant offset0 <= offset
      invariant forall k :: offset0 <= k < offset && k + HEADER <= |file| ==> !HasMagic(HeaderAt(file, k))
      decreases |file| - offset
    {
      var want := if buffersize < |file| - offset then buffersize else |file| - offset;
      var buffer := file[offset..offset + want];
      var current, limit := 0, want - HEADER;
      while current <= limit && buffer[current..current + HEADER][..8] != MAGIC
        invariant 0 <= current <= limit + 1
        invariant forall k :: offset <= k < offset + current ==> !HasMagic(HeaderAt(file, k))
      {
        InBuffer(file, offset, want, current);
        current := current + 1;
      }
      if current <= limit {
        InBuffer(file, offset, want, current);
        offset := offset + current;
        return;
      }
      offset := offset + current;
    }
  }

  /** Hash what is taken for a packet: the header as it was read, and what follows piece by piece. */
  method HashPacket<S>(h: Compression<S>, file: seq<byte>, offset: nat, header: seq<byte>, buffersize: nat)
    returns (hash: seq<byte>)
    requires buffersize > 0 && offset + HEADER <= |file| && header == HeaderAt(file, offset)
    requires LengthFits64(file, offset)
    ensures hash == Hash(h, HashedPart(file, offset))
  {
    hide Hash, After, LengthField;
    var context := new MD5Context(h);
    context.Update(header[32..], []);
    var current, limit := offset + HEADER, Sum64(offset, LengthField(header));
    assert [] + header[32..] == file[offset + 32..current];
    while current < limit
      invariant offset + HEADER <= current <= |file| && (current <= limit || current == offset + HEADER)
      invariant limit <= |file|
      invariant context.Valid() && context.h == h && fresh(context) && fresh(context.block)
      invariant context.Contents() == After(h, file[offset + 32..current])
    {
      var want := if buffersize < limit - current then buffersize else limit - current;
      assert file[offset + 32..current] + file[current..current + want] == file[offset + 32..current + want];
      context.Update(file[current..current + want], file[offset + 32..current]);
      current := current + want;
    }
    hash := context.Final(file[offset + 32..current]);
  }

  /** The answer to a search at or after an offset for what the program takes for a packet. */
  ghost predicate IsNext<S>(h: Compression<S>, file: seq<byte>, offset0: nat, found: bool, offset: nat) {
    if found then
      && offset0 <= offset && offset + HEADER <= |file| && Accepted(h, file, offset)
      && NoneAccepted(h, file, offset0, offset)
    else NoneAccepted(h, file, offset0, |file|)
  }

  /** Look for the next packet at or after an offset. */
  method FindPacket<S>(h: Compression<S>, file: seq<byte>, offset0: nat, buffersize: nat)
    returns (found: bool, offset: nat)
    requires |file| >= HEADER ==> buffersize >= HEADER
    ensures IsNext(h, file, offset0, found, offset)
  {
    hide HashedPart, HeaderAt, HashField, Hash;
    offset := offset0;
    // As long as there is room for a header
    while offset + HEADER <= |file|
      invariant offset0 <= offset && NoneAccepted(h, file, offset0, offset)
      decreases |file| - offset
    {
      if HeaderAt(file, offset)[..8] != MAGIC {
        offset := FindMagic(file, offset + 1, buffersize);
        if offset + HEADER > |file| {
          break;
        }
      }
      var header := HeaderAt(file, offset);
      var length := LengthField(header);
      if length < HEADER || length % 4 != 0 || |file| < Sum64(offset, length) {
        offset := offset + 1;
        continue;
      }
      var hash := HashPacket(h, file, offset, header, buffersize);
      if hash != HashField(header) {
        offset := offset + 1;
        continue;
      }
      return true, offset;
    }
    return false, offset;
  }

  /** The kinds of packets that are loaded. */
  datatype PacketTypes = PacketTypes(recoveryblock: seq<byte>, fileverification: seq<byte>, filedescription: seq<byte>,
                                     main: seq<byte>, creator: seq<byte>)

  /** A packet with this header is loaded: it belongs to the set and is of one of the five types. */
  ghost predicate Belongs(header: seq<byte>, setid: seq<byte>, types: PacketTypes)
    requires |header| >= HEADER
  {
    && SetIdField(header) == setid
    && TypeField(header) in
         [types.recoveryblock, types.fileverification, types.filedescription, types.main, types.creator]
  }

  /** The packets among the given ones that are loaded. */
  ghost function Wanted(file: seq<byte>, packets: seq<nat>, setid: seq<byte>, types: PacketTypes): seq<nat>
    requires forall k :: 0 <= k < |packets| ==> packets[k] + HEADER <= |file|
    decreases |packets|
  {
    if |packets| == 0 then []
    else
      var n := |packets| - 1;
      Wanted(file, packets[..n], setid, types) +
      if Belongs(HeaderAt(file, packets[n]), setid, types) then [packets[n]] else []
  }

  lemma {:induction false} AllWanted(file: seq<byte>, packets: seq<nat>, setid: seq<byte>, types: PacketTypes)
    requires forall k :: 0 <= k < |packets| ==> packets[k] + HEADER <= |file|
    requires forall k :: 0 <= k < |packets| ==> Belongs(HeaderAt(file, packets[k]), setid, types)
    ensures Wanted(file, packets, setid, types) == packets
    decreases |packets|
  {
    hide Belongs, HeaderAt;
    if |packets| > 0 {
      var n := |packets| - 1;
      AllWanted(file, packets[..n], setid, types);
      assert packets == packets[..n] + [packets[n]];
    }
  }

  /** What is loaded are the chosen ones of the packets, in the same order; and the chosen ones are exactly those that
      belong to the set and are of one of the types. */
  ghost predicate Selected(file: seq<byte>, packets: seq<nat>, loaded: seq<nat>, chosen: seq<nat>, setid: seq<byte>,
                           types: PacketTypes) {
    && |chosen| == |loaded|
    && (forall i :: 0 <= i < |chosen| ==> chosen[i] < |packets| && loaded[i] == packets[chosen[i]])
    && (forall i, j :: 0 <= i < j < |chosen| ==> chosen[i] < chosen[j])
    && forall k: nat :: k < |packets| ==>
         && packets[k] + HEADER <= |file|
         && (k in chosen <==> Belongs(HeaderAt(file, packets[k]), setid, types))
  }

  lemma {:induction false} WantedSelected(file: seq<byte>, packets: seq<nat>, setid: seq<byte>, types: PacketTypes)
    returns (chosen: seq<nat>)
    requires forall k :: 0 <= k < |packets| ==> packets[k] + HEADER <= |file|
    ensures Selected(file, packets, Wanted(file, packets, setid, types), chosen, setid, types)
    decreases |packets|
  {
    hide Belongs, HeaderAt;
    chosen := [];
    if |packets| > 0 {
      var n := |packets| - 1;
      var before := WantedSelected(file, packets[..n], setid, types);
      chosen := before + if Belongs(HeaderAt(file, packets[n]), setid, types) then [n] else [];
      forall k: nat | k < |packets|
        ensures k in chosen <==> Belongs(HeaderAt(file, packets[k]), setid, types)
      {
        assert k < n ==> packets[..n][k] == packets[k];
        assert n !in before;
      }
    }
  }

  class Par2Repairer<S> {
    const h: Compression<S>
    const types: PacketTypes
    var setid: seq<byte>
    var firstpacket: bool

    constructor (h: Compression<S>, types: PacketTypes)
      ensures this.h == h && this.types == types && firstpacket
    {
      this.h, this.types, setid, firstpacket := h, types, [], true;
    }

    /** The packets found so far have set the set id, and those wanted have been loaded. */
    ghost predicate Tracks(file: seq<byte>, found: seq<nat>, loaded: seq<nat>, firstpacket0: bool, setid0: seq<byte>)
      reads this
    {
      && (forall k :: 0 <= k < |found| ==> found[k] + HEADER <= |file|)
      && (firstpacket <==> firstpacket0 && |found| == 0)
      && setid == (if firstpacket0 && |found| > 0 then SetIdField(HeaderAt(file, found[0])) else setid0)
      && loaded == Wanted(file, found, setid, types)
    }

    /** A packet has been found: load it if it belongs to the set and is of a known type. */
    method Load(file: seq<byte>, offset: nat, loaded0: seq<nat>, ghost found: seq<nat>, ghost firstpacket0: bool,
                ghost setid0: seq<byte>) returns (loaded: seq<nat>)
      requires offset + HEADER <= |file| && Tracks(file, found, loaded0, firstpacket0, setid0)
      modifies this
      ensures Tracks(file, found + [offset], loaded, firstpacket0, setid0)
    {
      hide HeaderAt;
      hide SetIdField;
      hide TypeField;
      var header := HeaderAt(file, offset);
      loaded := loaded0;
      if firstpacket {
        setid := SetIdField(header);
        firstpacket := false;
      }
      WantedNext(file, found, offset, setid, types);
      if setid == SetIdField(header) {
        var kind := TypeField(header);
        if kind == types.recoveryblock {
          loaded := loaded + [offset];
        } else if kind == types.fileverification {
          loaded := loaded + [offset];
        } else if kind == types.filedescription {
          loaded := loaded + [offset];
        } else if kind == types.main {
          loaded := loaded + [offset];
        } else if kind == types.creator {
          loaded := loaded + [offset];
        }
      }
    }

    /** Load the packet found, and look for the next one behind it. */
    method LoadAndAdvance(file: seq<byte>, at: nat, loaded0: seq<nat>, buffersize: nat, ghost found: seq<nat>,
                          ghost firstpacket0: bool, ghost setid0: seq<byte>, ghost n: nat)
      returns (loaded: seq<nat>, more: bool, offset: nat, ghost m: nat)
      requires Ahead(h, file, found, true, at, n) && Tracks(file, found, loaded0, firstpacket0, setid0)
      requires |file| >= HEADER ==> buffersize >= HEADER
      modifies this
      ensures Ahead(h, file, found + [at], more, offset, m) && n < m
      ensures Tracks(file, found + [at], loaded, firstpacket0, setid0)
    {
      hide *;
      PacketAhead(h, file, found, at, n);
      loaded := Load(file, at, loaded0, found, firstpacket0, setid0);
      more, offset := FindPacket(h, file, Sum64(at, LengthField(HeaderAt(file, at))), buffersize);
      m := LookFurther(h, file, found + [at], n + 1, more, offset);
    }

    /** Load the packets of a file: of all that the scan comes to, exactly those that belong to the set of the
        first one ever found and are of one of the types, in the order of the scan. */
    method LoadPacketsFromFile(file: seq<byte>) returns (loaded: seq<nat>, ghost chosen: seq<nat>)
      requires Ends(h, file)
      modifies this
      ensures Tracks(file, Scanned(h, file), loaded, old(firstpacket), old(setid))
      ensures Selected(file, Scanned(h, file), loaded, chosen, setid, types)
    {
      loaded := [];
      ghost var found: seq<nat> := [];
      assert Tracks(file, found, loaded, firstpacket, setid);
      hide *;
      var buffersize := BufferSize(file);
      var more: bool, offset: nat := FindPacket(h, file, 0, buffersize);
      FirstLook(h, file);
      ghost var n := LookFurther(h, file, found, 0, more, offset);
      ghost var end := EndOf(h, file);
      while more
        invariant Ahead(h, file, found, more, offset, n)
        invariant Tracks(file, found, loaded, old(firstpacket), old(setid))
        decreases more, if n < end then end - n else 0
      {
        ghost var at := offset;
        NotYetEnded(h, file, found, at, n, end);
        loaded, more, offset, n :=
          LoadAndAdvance(file, offset, loaded, buffersize, found, old(firstpacket), old(setid), n);
        found := found + [at];
      }
      AllScanned(h, file, found, offset, n);
      chosen := LoadedSelected(file, found, loaded, old(firstpacket), old(setid));
    }

    lemma {:induction false} LoadedSelected(file: seq<byte>, found: seq<nat>, loaded: seq<nat>, firstpacket0: bool,
                                            setid0: seq<byte>) returns (chosen: seq<nat>)
      requires Tracks(file, found, loaded, firstpacket0, setid0)
      ensures Selected(file, found, loaded, chosen, setid, types)
    {
      hide Selected, Wanted;
      chosen := WantedSelected(file, found, setid, types);
    }
  }

  function BufferSize(file: seq<byte>): (r: nat)
    ensures |file| >= HEADER ==> r >= HEADER
  {
    if BUFFER < |file| then BUFFER else |file|
  }

  /** The scan has found these packets, and after n looks stands before the one at `offset`, or at the end. */
  ghost predicate Ahead<S>(h: Compression<S>, file: seq<byte>, found: seq<nat>, more: bool, offset: nat, n: nat) {
    && Found(h, file, n) == found
    && if more then Position(h, file, n) == offset && offset + HEADER <= |file| && Accepted(h, file, offset)
       else Ended(h, file, n)
  }

  /** From the offset after n looks the program goes on to what it has found next, or to the end. */
  lemma {:induction false} LookFurther<S>(h: Compression<S>, file: seq<byte>, found: seq<nat>, n: nat, more: bool,
                                          offset: nat) returns (m: nat)
    requires Found(h, file, n) == found && IsNext(h, file, Position(h, file, n), more, offset)
    ensures n <= m && Ahead(h, file, found, more, offset, m)
  {
    hide Accepted, Position, Found;
    var p := Position(h, file, n);
    m := n;
    if more {
      SkipTo(h, file, n, offset);
      m := n + (offset - p);
    } else if p + HEADER <= |file| {
      SkipTo(h, file, n, |file| - HEADER + 1);
      m := n + (|file| - HEADER + 1 - p);
    }
  }

  lemma {:induction false} PacketAhead<S>(h: Compression<S>, file: seq<byte>, found: seq<nat>, at: nat, n: nat)
    requires Ahead(h, file, found, true, at, n)
    ensures at + HEADER <= |file| && Found(h, file, n + 1) == found + [at]
    ensures Position(h, file, n + 1) == Sum64(at, LengthField(HeaderAt(file, at)))
  {
    hide Accepted;
  }

  lemma {:induction false} EndOf<S>(h: Compression<S>, file: seq<byte>) returns (n: nat)
    requires Ends(h, file)
    ensures Ended(h, file, n)
  {
    n :| Ended(h, file, n);
  }

  lemma {:induction false} NotYetEnded<S>(h: Compression<S>, file: seq<byte>, found: seq<nat>, at: nat, n: nat,
                                          end: nat)
    requires Ahead(h, file, found, true, at, n) && Ended(h, file, end)
    ensures n < end
  {
    hide Accepted, Position, Found;
    if end <= n {
      StaysEnded(h, file, end, n);
    }
  }

  lemma {:induction false} AllScanned<S>(h: Compression<S>, file: seq<byte>, found: seq<nat>, offset: nat, n: nat)
    requires Ahead(h, file, found, false, offset, n)
    ensures Ends(h, file) && found == Scanned(h, file)
  {
    hide Accepted, Position, Found;
    ScannedIs(h, file, n);
  }

  lemma {:induction false} WantedNext(file: seq<byte>, packets: seq<nat>, p: nat, setid: seq<byte>, types: PacketTypes)
    requires p + HEADER <= |file| && forall k :: 0 <= k < |packets| ==> packets[k] + HEADER <= |file|
    ensures Wanted(file, packets + [p], setid, types) ==
            Wanted(file, packets, setid, types) +
            if Belongs(HeaderAt(file, p), setid, types) then [p] else []
  {
    assert (packets + [p])[..|packets|] == packets;
  }
}
