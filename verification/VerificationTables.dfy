/** The table of block hashes (verificationhashtable.h, verificationhashtable.cpp): buckets of binary trees
    ordered by crc and hash, with a chain of entries for each pair.  Looking up agrees with searching a plain
    list of everything inserted.

    Entries are kept in the order of their allocation, and pointers are positions in that list (-1 for
    null).  A hash is a 128-bit number: hashes are compared from their last byte to their first. */
module VerificationTables {

  const HASHES := 0x1_0000_0000_0000_0000_0000_0000_0000_0000
  const CRCS := 0x1_0000_0000
  const TOP := 0x1_0000_0000_0000_0000_0000_0000_0000_0000_0000_0000

  type Crc = n: nat | n < CRCS
  type Md5Hash = n: nat | n < HASHES

  /** What an entry is for: a block of a source file, its length, whether it is the first block, and
      its crc and hash. */
  datatype Block = Block(sourcefile: nat, length: nat, firstblock: bool, crc: Crc, hash: Md5Hash)
  {
    /** The order of entries: by crc, then by hash. */
    function Key(): nat {
      crc * HASHES + hash
    }
  }

  datatype VerificationHashEntry = VerificationHashEntry(block: Block, left: int, right: int, same: int, next: int)

  lemma {:induction false} KeyOrder(a: Block, b: Block)
    ensures a.Key() < b.Key() <==> a.crc < b.crc || (a.crc == b.crc && a.hash < b.hash)
    ensures a.Key() == b.Key() <==> a.crc == b.crc && a.hash == b.hash
    ensures 0 <= a.Key() < TOP
  {
  }

  /** Where an entry is: in a tree below a parent (-1 for the root), with bounds for the keys below it, or
      in the chain after a parent with the same key. */
  datatype Place = Place(head: bool, parent: int, lo: int, hi: int)

  /** Search trees are represented by entries, buckets and, for reasoning, the places of the entries. */
  datatype Forest = Forest(nodes: seq<VerificationHashEntry>, places: seq<Place>, table: seq<int>)
  {
    predicate Has(i: int) {
      0 <= i < |nodes| && i < |places|
    }

    function Key(i: int): nat
      requires Has(i)
    {
      nodes[i].block.Key()
    }

    function Bucket(crc: nat): nat {
      if |table| == 0 then 0 else crc % |table|
    }

    function BucketOf(i: int): nat
      requires Has(i)
    {
      Bucket(nodes[i].block.crc)
    }

    /** A tree link of entry p leads to an entry further on, with bounds on the right side of the key of p. */
    ghost predicate ChildOk(p: int, c: int, lo: int, hi: int)
      requires Has(p)
    {
      c == -1 || (p < c && Has(c) && places[p].head && places[c] == Place(true, p, lo,
          hi) && BucketOf(c) == BucketOf(p))
    }

    /** A chain link leads to an entry further on with the same key. */
    ghost predicate SameOk(p: int)
      requires Has(p)
    {
      var c := nodes[p].same;
      c == -1 || (p < c && Has(c) && !places[c].head && places[c].parent == p && Key(c) == Key(p))
    }

    /** An entry is where its place says. */
    ghost predicate PlaceOk(i: int)
      requires Has(i)
    {
      var x := places[i];
      if x.head then
        && x.lo < Key(i) < x.hi
        && (if x.parent == -1 then
              BucketOf(i) < |table| && table[BucketOf(i)] == i && x.lo == -1 && x.hi == TOP
            else
              && 0 <= x.parent < i && Has(x.parent) && places[x.parent].head
              && BucketOf(x.parent) == BucketOf(i)
              && if Key(i) < Key(x.parent) then nodes[x.parent].left == i && x.lo == places[x.parent].lo &&
                x.hi == Key(x.parent)
                 else nodes[x.parent].right == i && x.lo == Key(x.parent) && x.hi == places[x.parent].hi)
      else
        && nodes[i].left == nodes[i].right == -1
        && 0 <= x.parent < i && Has(x.parent) && nodes[x.parent].same == i && Key(x.parent) == Key(i)
    }

    ghost predicate NodeOk(i: int)
      requires Has(i)
    {
      && ChildOk(i, nodes[i].left, places[i].lo, Key(i))
      && ChildOk(i, nodes[i].right, Key(i), places[i].hi)
      && SameOk(i) && PlaceOk(i)
    }

    ghost predicate RootOk(b: int)
      requires 0 <= b < |table|
    {
      var r := table[b];
      r == -1 || (Has(r) && places[r] == Place(true, -1, -1, TOP) && BucketOf(r) == b)
    }

    ghost predicate Valid() {
      && |nodes| == |places| && 0 < |table|
      && (forall i :: 0 <= i < |nodes| ==> NodeOk(i))
      && (forall b :: 0 <= b < |table| ==> RootOk(b))
    }
  }

  // ----- Insertion -----

  /** The pointer that Insert looks through. */
  datatype Slot = Root(b: int) | Left(p: int) | Right(p: int) | Same(p: int)

  /** What the pointer is. */
  function Target(nodes: seq<VerificationHashEntry>, table: seq<int>, slot: Slot): int
    requires if slot.Root? then 0 <= slot.b < |table| else 0 <= slot.p < |nodes|
  {
    match slot
    case Root(b) => table[b]
    case Left(p) => nodes[p].left
    case Right(p) => nodes[p].right
    case Same(p) => nodes[p].same
  }

  /** The new entry may go to this slot. */
  ghost predicate Fits(F: Forest, slot: Slot, block: Block) {
    match slot
    case Root(b) => b == F.Bucket(block.crc) && 0 <= b < |F.table|
    case Left(p) => F.Has(p) && F.places[p].head && F.BucketOf(p) == F.Bucket(block.crc) &&
      F.places[p].lo < block.Key() < F.Key(p)
    case Right(p) => F.Has(p) && F.places[p].head && F.BucketOf(p) == F.Bucket(block.crc) &&
      F.Key(p) < block.Key() < F.places[p].hi
    case Same(p) => F.Has(p) && F.Key(p) == block.Key()
  }

  function NewEntry(block: Block): VerificationHashEntry {
    VerificationHashEntry(block, -1, -1, -1, -1)
  }

  /** Storing a pointer. */
  function Linked(nodes: seq<VerificationHashEntry>, slot: Slot, to: int): (r: seq<VerificationHashEntry>)
    requires slot.Root? || 0 <= slot.p < |nodes|
    ensures |r| == |nodes|
  {
    match slot
    case Root(b) => nodes
    case Left(p) => nodes[p := nodes[p].(left := to)]
    case Right(p) => nodes[p := nodes[p].(right := to)]
    case Same(p) => nodes[p := nodes[p].(same := to)]
  }

  /** The place of a new entry in a slot. */
  ghost function PlaceIn(F: Forest, slot: Slot): Place
    requires slot.Root? || F.Has(slot.p)
  {
    match slot
    case Root(b) => Place(true, -1, -1, TOP)
    case Left(p) => Place(true, p, F.places[p].lo, F.Key(p))
    case Right(p) => Place(true, p, F.Key(p), F.places[p].hi)
    case Same(p) => Place(false, p, 0, 0)
  }

  ghost function Inserted(F: Forest, slot: Slot, block: Block): Forest
    requires Fits(F, slot, block)
  {
    Forest(Linked(F.nodes, slot, |F.nodes|) + [NewEntry(block)], F.places + [PlaceIn(F, slot)],
           if slot.Root? then F.table[slot.b := |F.nodes|] else F.table)
  }

  /** Nothing about an entry changes except the pointer to the new one. */
  lemma {:induction false} OldEntry(F: Forest, slot: Slot, block: Block, i: int)
    requires F.Valid() && Fits(F, slot, block) && 0 <= i < |F.nodes|
    ensures var F' := Inserted(F, slot, block);
            && F'.Has(i) && F'.Key(i) == F.Key(i) && F'.BucketOf(i) == F.BucketOf(i) && F'.places[i] == F.places[i]
            && F'.nodes[i].left == (if slot == Left(i) then |F.nodes| else F.nodes[i].left)
            && F'.nodes[i].right == (if slot == Right(i) then |F.nodes| else F.nodes[i].right)
            && F'.nodes[i].same == (if slot == Same(i) then |F.nodes| else F.nodes[i].same)
  {
  }

  lemma {:induction false} FreshEntry(F: Forest, slot: Slot, block: Block)
    requires F.Valid() && Fits(F, slot, block)
    ensures var F', n := Inserted(F, slot, block), |F.nodes|;
            && F'.Has(n) && F'.Key(n) == block.Key() && F'.BucketOf(n) == F.Bucket(block.crc) &&
              F'.places[n] == PlaceIn(F, slot)
            && F'.nodes[n].left == F'.nodes[n].right == F'.nodes[n].same == -1
            && F'.table == (if slot.Root? then F.table[slot.b := n] else F.table)
            && |F'.nodes| == |F'.places| == n + 1
  {
  }

  /** The tree pointers of an entry stay in order. */
  lemma {:induction false} OldChildrenOk(F: Forest, slot: Slot, block: Block, i: int)
    requires F.Valid() && Fits(F, slot, block) && Target(F.nodes, F.table, slot) == -1 && 0 <= i < |F.nodes|
    ensures var F' := Inserted(F, slot, block);
            && F'.Has(i) && F'.ChildOk(i, F'.nodes[i].left, F'.places[i].lo, F'.Key(i))
            && F'.ChildOk(i, F'.nodes[i].right, F'.Key(i), F'.places[i].hi)
  {
    var F', n, node := Inserted(F, slot, block), |F.nodes|, F.nodes[i];
    assert F.NodeOk(i);
    FreshEntry(F, slot, block);
    OldEntry(F, slot, block, i);
    if node.left != -1 { OldEntry(F, slot, block, node.left); }
    if node.right != -1 { OldEntry(F, slot, block, node.right); }
    hide Block.Key;
    hide Inserted;
    hide Forest.Valid;
    hide Forest.Key;
    hide Forest.BucketOf;
    hide Forest.SameOk;
    hide Forest.PlaceOk;
  }

  /** The chain pointer of an entry stays in order, and so does its place. */
  lemma {:induction false} OldPlaceOk(F: Forest, slot: Slot, block: Block, i: int)
    requires F.Valid() && Fits(F, slot, block) && Target(F.nodes, F.table, slot) == -1 && 0 <= i < |F.nodes|
    ensures var F' := Inserted(F, slot, block); F'.Has(i) && F'.SameOk(i) && F'.PlaceOk(i)
  {
    var F', n, node := Inserted(F, slot, block), |F.nodes|, F.nodes[i];
    assert F.NodeOk(i);
    FreshEntry(F, slot, block);
    OldEntry(F, slot, block, i);
    if node.same != -1 { OldEntry(F, slot, block, node.same); }
    if F.places[i].parent >= 0 { OldEntry(F, slot, block, F.places[i].parent); }
    hide Block.Key;
    hide Inserted;
    hide Forest.Valid;
    hide Forest.Key;
    hide Forest.BucketOf;
    hide Forest.ChildOk;
  }

  /** An entry stays in order, the one whose pointer was set included. */
  lemma {:induction false} OldEntryOk(F: Forest, slot: Slot, block: Block, i: int)
    requires F.Valid() && Fits(F, slot, block) && Target(F.nodes, F.table, slot) == -1 && 0 <= i < |F.nodes|
    ensures Inserted(F, slot, block).Has(i) && Inserted(F, slot, block).NodeOk(i)
  {
    OldChildrenOk(F, slot, block, i);
    OldPlaceOk(F, slot, block, i);
    hide Inserted;
    hide Forest.Valid;
  }

  /** A new entry in an empty slot that fits keeps the trees in order. */
  lemma {:induction false} InsertKeeps(F: Forest, slot: Slot, block: Block)
    requires F.Valid() && Fits(F, slot, block) && Target(F.nodes, F.table, slot) == -1
    ensures Inserted(F, slot, block).Valid()
  {
    KeyOrder(block, block);
    var F', n := Inserted(F, slot, block), |F.nodes|;
    FreshEntry(F, slot, block);
    if !slot.Root? {
      OldEntry(F, slot, block, slot.p);
    }
    forall i | 0 <= i <= n
      ensures F'.NodeOk(i)
    {
      if i < n {
        OldEntryOk(F, slot, block, i);
      } else {
        NewEntryOk(F, slot, block);
      }
    }
    forall b | 0 <= b < |F.table|
      ensures F'.RootOk(b)
    {
      assert F.RootOk(b);
      if F.table[b] != -1 {
        OldEntry(F, slot, block, F.table[b]);
      }
    }
    hide Forest.NodeOk;
    hide Forest.RootOk;
    hide Inserted;
  }

  lemma {:induction false} NewEntryOk(F: Forest, slot: Slot, block: Block)
    requires F.Valid() && Fits(F, slot, block)
    ensures Inserted(F, slot, block).Has(|F.nodes|) && Inserted(F, slot, block).NodeOk(|F.nodes|)
  {
    KeyOrder(block, block);
    FreshEntry(F, slot, block);
    if !slot.Root? {
      OldEntry(F, slot, block, slot.p);
    }
    hide Block.Key;
    hide Inserted;
    hide Forest.Valid;
  }

  // ----- Searching -----

  /** Tree entry i is a or below a. */
  ghost predicate Below(F: Forest, i: int, a: int)
    requires F.Valid()
    decreases i
  {
    F.Has(i) && F.places[i].head &&
      (i == a || (F.places[i].parent != -1 && NodeParent(F, i) && Below(F, F.places[i].parent, a)))
  }

  /** (The parent of a tree entry is before it.) */
  ghost predicate NodeParent(F: Forest, i: int)
    requires F.Valid() && F.Has(i)
  {
    0 <= F.places[i].parent < i
  }

  /** Keys below an entry are within its bounds. */
  lemma {:induction false} BelowBounds(F: Forest, i: int, a: int)
    requires F.Valid() && Below(F, i, a)
    ensures F.Has(a) && F.places[a].head && a <= i && F.BucketOf(i) == F.BucketOf(a)
    ensures F.places[a].lo <= F.places[i].lo < F.Key(i) < F.places[i].hi <= F.places[a].hi
    decreases i
  {
    assert F.NodeOk(i);
    if i != a {
      var p := F.places[i].parent;
      BelowBounds(F, p, a);
      assert F.NodeOk(p);
    }
  }

  /** Whatever is below an entry is itself that entry, or below its left child if its key is smaller, or
      below its right child if its key is larger. */
  lemma {:induction false} BelowChild(F: Forest, i: int, a: int)
    requires F.Valid() && Below(F, i, a) && i != a
    ensures F.Has(i) && F.Has(a) && F.Key(i) != F.Key(a)
    ensures F.Key(i) < F.Key(a) ==> Below(F, i, F.nodes[a].left)
    ensures F.Key(i) > F.Key(a) ==> Below(F, i, F.nodes[a].right)
    decreases i
  {
    assert F.NodeOk(i);
    var p := F.places[i].parent;
    BelowBounds(F, p, a);
    assert F.NodeOk(p) && F.NodeOk(a);
    if p != a {
      BelowChild(F, p, a);
      var c := if F.Key(p) < F.Key(a) then F.nodes[a].left else F.nodes[a].right;
      assert Below(F, i, c);
      BelowBounds(F, i, c);
    }
  }

  /** Every tree entry is below the root of its bucket. */
  lemma {:induction false} BelowRoot(F: Forest, i: int)
    requires F.Valid() && F.Has(i) && F.places[i].head
    ensures F.BucketOf(i) < |F.table| && Below(F, i, F.table[F.BucketOf(i)])
    decreases i
  {
    assert F.NodeOk(i);
    if F.places[i].parent != -1 {
      BelowRoot(F, F.places[i].parent);
    }
  }

  /** A key occurs once in the trees. */
  lemma {:induction false} KeyOnce(F: Forest, i: int, j: int)
    requires F.Valid() && F.Has(i) && F.Has(j) && F.places[i].head && F.places[j].head && F.Key(i) == F.Key(j)
    ensures i == j
  {
    KeyOrder(F.nodes[i].block, F.nodes[j].block);
    BelowRoot(F, i);
    BelowRoot(F, j);
    BelowBounds(F, i, F.table[F.BucketOf(i)]);
    KeyOnceBelow(F, i, j, F.table[F.BucketOf(i)]);
  }

  lemma {:induction false} KeyOnceBelow(F: Forest, i: int, j: int, a: int)
    requires F.Valid() && Below(F, i, a) && Below(F, j, a) && F.Has(a) && F.Key(i) == F.Key(j)
    ensures i == j
    decreases |F.nodes| - a
  {
    if i != a && j != a {
      BelowChild(F, i, a);
      BelowChild(F, j, a);
      var c := if F.Key(i) < F.Key(a) then F.nodes[a].left else F.nodes[a].right;
      assert F.NodeOk(a);
      BelowBounds(F, i, c);
      KeyOnceBelow(F, i, j, c);
    } else if i != j {
      BelowChild(F, if i == a then j else i, a);
    }
  }

  // ----- Chains -----

  /** The chain from an entry on, following the `same` pointers. */
  ghost function Chain(F: Forest, i: int): (r: seq<int>)
    requires F.Valid() && F.Has(i)
    ensures |r| > 0 && r[0] == i
    ensures forall k :: 0 <= k < |r| ==> F.Has(r[k]) && F.Key(r[k]) == F.Key(i) && i <= r[k]
    decreases |F.nodes| - i
  {
    assert F.NodeOk(i);
    if F.nodes[i].same == -1 then [i] else [i] + Chain(F, F.nodes[i].same)
  }

  /** The chain is in the order of insertion. */
  lemma {:induction false} ChainAscends(F: Forest, i: int)
    requires F.Valid() && F.Has(i)
    ensures forall j, k :: 0 <= j < k < |Chain(F, i)| ==> Chain(F, i)[j] < Chain(F, i)[k]
    decreases |F.nodes| - i
  {
    assert F.NodeOk(i);
    if F.nodes[i].same != -1 {
      ChainAscends(F, F.nodes[i].same);
      var rest := Chain(F, F.nodes[i].same);
      assert forall k :: 0 < k < |rest| + 1 ==> Chain(F, i)[k] == rest[k - 1];
    }
  }

  /** A chain contains what the entries in it point to. */
  lemma {:induction false} ChainClosed(F: Forest, i: int, j: int)
    requires F.Valid() && F.Has(i) && F.Has(j) && j in Chain(F, i) && F.nodes[j].same != -1
    ensures F.nodes[j].same in Chain(F, i)
    decreases |F.nodes| - i
  {
    assert F.NodeOk(i);
    if i == j {
      assert Chain(F, F.nodes[i].same)[0] in Chain(F, i);
    } else {
      var rest := Chain(F, F.nodes[i].same);
      assert Chain(F, i) == [i] + rest;
      ChainClosed(F, F.nodes[i].same, j);
    }
  }

  /** The chain of a tree entry holds exactly the entries with its key. */
  lemma {:induction false} ChainComplete(F: Forest, i: int, j: int)
    requires F.Valid() && F.Has(i) && F.places[i].head && F.Has(j) && F.Key(j) == F.Key(i)
    ensures j in Chain(F, i)
    decreases j
  {
    assert F.NodeOk(j);
    if F.places[j].head {
      KeyOnce(F, i, j);
    } else {
      ChainComplete(F, i, F.places[j].parent);
      ChainClosed(F, i, F.places[j].parent);
    }
  }

  /** For every entry there is a tree entry with the same key. */
  lemma {:induction false} HeadOf(F: Forest, j: int) returns (i: int)
    requires F.Valid() && F.Has(j)
    ensures F.Has(i) && F.places[i].head && F.Key(i) == F.Key(j)
    decreases j
  {
    assert F.NodeOk(j);
    if F.places[j].head {
      i := j;
    } else {
      i := HeadOf(F, F.places[j].parent);
    }
  }

  // ----- The table -----

  /** What the scanner knows about its current window. */
  datatype Window = Window(checksum: Crc, hash: Md5Hash, shortblock: bool, blocklength: nat, offset: nat, diskfile: int,
                           shortchecksum: nat -> nat, shorthash: nat -> nat)

  /** Which blocks have been found, and in which file; and which source files are complete. */
  datatype Status = Status(found: seq<bool>, diskfile: seq<int>, complete: set<nat>)

  /** An entry of a verification packet, with the length of its block. */
  datatype VerificationEntry = VerificationEntry(length: nat, crc: Crc, hash: Md5Hash)

  /** What the entry of a block describes. */
  function BlockFor(sourcefile: nat, entries: seq<VerificationEntry>, blocknumber: nat): Block
    requires blocknumber < |entries|
  {
    var e := entries[blocknumber];
    Block(sourcefile, e.length, blocknumber == 0, e.crc, e.hash)
  }

  class VerificationHashTable {
    var nodes: seq<VerificationHashEntry>
    var hashtable: seq<int>
    ghost var places: seq<Place>

    ghost function Trees(): Forest
      reads this
    {
      Forest(nodes, places, hashtable)
    }

    ghost predicate Valid()
      reads this
    {
      Trees().Valid() && forall i :: 0 <= i < |nodes| ==> -1 <= nodes[i].next < |nodes|
    }

    /** An empty table, with a bucket for each of up to 65536 blocks. */
    constructor SetLimit(limit: nat)
      ensures Valid() && nodes == []
      ensures 256 <= |hashtable| <= 65536 && (|hashtable| >= limit || |hashtable| == 65536)
      ensures |hashtable| in {256, 512, 1024, 2048, 4096, 8192, 16384, 32768, 65536}
    {
      var size: nat := 256;
      while size < limit && size < 65536
        invariant size in {256, 512, 1024, 2048, 4096, 8192, 16384, 32768, 65536}
        decreases 65536 - size
      {
        size := 2 * size;
      }
      nodes := [];
      hashtable := seq(size, i => -1);
      places := [];
    }

    /** Insert a new entry: down the tree, and at an entry with the same key to the end of its chain. */
    method Insert(block: Block)
      requires Valid()
      modifies this
      ensures Valid() && |hashtable| == |old(hashtable)| && |nodes| == |old(nodes)| + 1
      ensures nodes[|old(nodes)|].block == block && nodes[|old(nodes)|].next == -1
      ensures forall i :: 0 <= i < |old(nodes)| ==>
                nodes[i].block == old(nodes[i].block) && nodes[i].next == old(nodes[i].next)
    {
      ghost var F := Trees();
      KeyOrder(block, block);
      var slot := FindSlot(block);
      InsertKeeps(F, slot, block);
      var entry := |nodes|;
      places := places + [PlaceIn(F, slot)];
      nodes := Linked(nodes, slot, entry) + [NewEntry(block)];
      if slot.Root? {
        hashtable := hashtable[slot.b := entry];
      }
      assert Trees() == Inserted(F, slot, block);
    }

    /** The empty pointer where a new entry belongs. */
    method FindSlot(block: Block) returns (slot: Slot)
      requires Valid()
      ensures Fits(Trees(), slot, block) && Target(nodes, hashtable, slot) == -1
    {
      ghost var F := Trees();
      slot := Descend(block);
      hide Forest.Valid;
      hide Block.Key;
      while Target(nodes, hashtable, slot) != -1
        invariant EndsOrMatches(F, slot, block)
        decreases if Target(nodes, hashtable, slot) == -1 then 0 else |nodes| - Target(nodes, hashtable, slot)
      {
        NextSame(F, Target(nodes, hashtable, slot));
        slot := Same(Target(nodes, hashtable, slot));
      }
    }

    /** Down the tree to an empty pointer or to an entry with the same key. */
    method Descend(block: Block) returns (slot: Slot)
      requires Valid()
      ensures EndsOrMatches(Trees(), slot, block)
    {
      ghost var F := Trees();
      KeyOrder(block, block);
      slot := Root(block.crc % |hashtable|);
      assert F.RootOk(slot.b);
      while Target(nodes, hashtable, slot) != -1
        invariant !slot.Same? && Fits(F, slot, block)
        invariant Target(nodes, hashtable, slot) == -1 || TargetOk(F, slot)
        decreases if Target(nodes, hashtable, slot) == -1 then 0 else |nodes| - Target(nodes, hashtable, slot)
      {
        var p := Target(nodes, hashtable, slot);
        assert F.NodeOk(p);
        KeyOrder(nodes[p].block, block);
        hide Block.Key;
        if nodes[p].block.crc < block.crc || (nodes[p].block.crc == block.crc && nodes[p].block.hash < block.hash) {
          slot := Right(p);
        } else if nodes[p].block.crc > block.crc || (nodes[p].block.crc == block.crc &&
          nodes[p].block.hash > block.hash) {
          slot := Left(p);
        } else {
          return;
        }
      }
    }

    predicate Matches(i: int, crc: Crc, hash: Md5Hash)
      requires 0 <= i < |nodes|
      reads this
    {
      nodes[i].block.crc == crc && nodes[i].block.hash == hash
    }

    /** Load the entries of a source file, and link them in sequence. */
    method Load(sourcefile: nat, entries: seq<VerificationEntry>)
      requires Valid()
      modifies this
      ensures Valid() && |nodes| == |old(nodes)| + |entries| && |hashtable| == |old(hashtable)|
      ensures forall i :: 0 <= i < |old(nodes)| ==>
                nodes[i].block == old(nodes[i].block) && nodes[i].next == old(nodes[i].next)
      ensures forall k :: |old(nodes)| <= k < |nodes| ==>
                && nodes[k].block == BlockFor(sourcefile, entries, k - |old(nodes)|)
                && nodes[k].next == if k + 1 < |nodes| then k + 1 else -1
    {
      ghost var n := |nodes|;
      var preventry := -1;
      for blocknumber := 0 to |entries|
        invariant Valid() && |nodes| == n + blocknumber && |hashtable| == |old(hashtable)|
        invariant preventry == if blocknumber == 0 then -1 else n + blocknumber - 1
        invariant forall i :: 0 <= i < n ==>
                    nodes[i].block == old(nodes[i].block) && nodes[i].next == old(nodes[i].next)
        invariant forall k :: n <= k < |nodes| ==>
          && nodes[k].block == BlockFor(sourcefile, entries, k - n)
          && nodes[k].next == if k + 1 < |nodes| then k + 1 else -1
      {
        var entry := |nodes|;
        Insert(BlockFor(sourcefile, entries, blocknumber));
        if preventry != -1 {
          NextIrrelevant(Trees(), preventry, entry);
          nodes := nodes[preventry := nodes[preventry].(next := entry)];
        }
        preventry := entry;
      }
    }

    /** Go down a tree to the highest entry with the crc. */
    method Search(entry0: int, crc: Crc) returns (entry: int)
      requires Valid() && (entry0 == -1 || (Trees().Has(entry0) && places[entry0].head))
      ensures entry == -1 || (Trees().Has(entry) && places[entry].head && nodes[entry].block.crc == crc)
      ensures entry0 != -1 ==>
                forall i :: 0 <= i < |nodes| && nodes[i].block.crc == crc && Below(Trees(), i, entry0) ==>
                                             entry != -1 && Below(Trees(), i, entry)
    {
      ghost var F := Trees();
      hide Forest.Valid;
      hide Below;
      hide Block.Key;
      entry := entry0;
      while entry != -1
        invariant entry == -1 || (F.Has(entry) && places[entry].head)
        invariant entry0 != -1 ==> forall i :: 0 <= i < |nodes| && nodes[i].block.crc == crc && Below(F, i, entry0) ==>
                                                 entry != -1 && Below(F, i, entry)
        decreases if entry == -1 then 0 else |nodes| - entry
      {
        ghost var at := entry;
        ChildrenFurther(F, entry);
        if nodes[entry].block.crc < crc {
          entry := nodes[entry].right;
        } else if nodes[entry].block.crc > crc {
          entry := nodes[entry].left;
        } else {
          break;
        }
        forall i | entry0 != -1 && 0 <= i < |nodes| && nodes[i].block.crc == crc && Below(F, i, entry0)
          ensures entry != -1 && Below(F, i, entry)
        {
          KeyOrder(nodes[i].block, nodes[at].block);
          BelowChild(F, i, at);
          BelowHas(F, i, entry);
        }
      }
    }

    /** Go on from there to the entry with the hash. */
    method SearchHash(entry0: int, hash: Md5Hash) returns (entry: int)
      requires Valid() && Trees().Has(entry0) && places[entry0].head
      ensures entry == -1 || (Trees().Has(entry) && places[entry].head &&
                              nodes[entry].block.crc == nodes[entry0].block.crc && nodes[entry].block.hash == hash)
      ensures (exists i :: 0 <= i < |nodes| && Below(Trees(), i, entry0) && Matches(i, nodes[entry0].block.crc,
          hash)) ==>
                entry != -1
    {
      ghost var F := Trees();
      hide Forest.Valid;
      hide Below;
      hide Block.Key;
      var crc := nodes[entry0].block.crc;
      entry := entry0;
      while entry != -1
        invariant entry == -1 || (F.Has(entry) && places[entry].head)
        invariant forall i :: 0 <= i < |nodes| && Matches(i, crc, hash) && Below(F, i, entry0) ==>
                                entry != -1 && Below(F, i, entry)
        decreases if entry == -1 then 0 else |nodes| - entry
      {
        ghost var at := entry;
        ChildrenFurther(F, entry);
        if nodes[entry].block.crc < crc || (nodes[entry].block.crc == crc && nodes[entry].block.hash < hash) {
          entry := nodes[entry].right;
        } else if nodes[entry].block.crc > crc || (nodes[entry].block.crc == crc && nodes[entry].block.hash > hash) {
          entry := nodes[entry].left;
        } else {
          break;
        }
        forall i | 0 <= i < |nodes| && Matches(i, crc, hash) && Below(F, i, entry0)
          ensures entry != -1 && Below(F, i, entry)
        {
          KeyOrder(nodes[i].block, nodes[at].block);
          BelowChild(F, i, at);
          BelowHas(F, i, entry);
        }
      }
    }

    /** Look up by crc, and from the entry found by hash: an entry is found exactly if one with that crc and
        hash was inserted, and its chain holds exactly those entries, in the order of insertion. */
    method Lookup(crc: Crc, hash: Md5Hash) returns (entry: int)
      requires Valid()
      ensures entry == -1 <==> forall i :: 0 <= i < |nodes| ==> !Matches(i, crc, hash)
      ensures entry != -1 ==>
                && Trees().Has(entry) && places[entry].head
                && (forall i :: i in Chain(Trees(), entry) <==> 0 <= i < |nodes| && Matches(i, crc, hash))
                && (forall j,
                    k :: 0 <= j < k < |Chain(Trees(), entry)| ==> Chain(Trees(), entry)[j] < Chain(Trees(), entry)[k])
    {
      ghost var F := Trees();
      hide Block.Key;
      var start := hashtable[crc % |hashtable|];
      assert F.RootOk(crc % |hashtable|);
      hide Forest.Valid;
      entry := Search(start, crc);
      ghost var first := entry;
      if entry != -1 {
        entry := SearchHash(entry, hash);
      }
      forall i | 0 <= i < |nodes| && Matches(i, crc, hash)
        ensures entry != -1
      {
        var h := HeadBelow(F, i);
        assert Matches(h, crc, hash);
      }
      if entry != -1 {
        assert Matches(entry, crc, hash);
        ChainIs(F, entry, crc, hash);
      }
    }

    /** The block of entry i has not been found yet, and has the right length if the window is short. */
    predicate Unused(i: int, status: Status, w: Window)
      requires 0 <= i < |nodes| <= |status.found|
      reads this
    {
      !status.found[i] && !(w.shortblock && w.blocklength != nodes[i].block.length)
    }

    /** Entry i matches the window, has not been found yet, and has the right length if the window is short; if a source
        file is preferred, it is of that file. */
    ghost predicate Usable(i: int, status: Status, w: Window, sourcefile: int)
      requires 0 <= i < |nodes| <= |status.found|
      reads this
    {
      var block := nodes[i].block;
      && block.crc == w.checksum && block.hash == w.hash
      && !status.found[i] && (w.shortblock ==> block.length == w.blocklength)
      && (sourcefile == -1 || block.sourcefile == sourcefile)
    }

    /** Entry i is the first usable one. */
    ghost predicate First(i: int, status: Status, w: Window, sourcefile: int)
      requires |nodes| <= |status.found|
      reads this
    {
      && 0 <= i < |nodes| && Usable(i, status, w, sourcefile)
      && forall j :: 0 <= j < i ==> !Usable(j, status, w, sourcefile)
    }

    ghost predicate NoneUsable(status: Status, w: Window, sourcefile: int)
      requires |nodes| <= |status.found|
      reads this
    {
      forall j :: 0 <= j < |nodes| ==> !Usable(j, status, w, sourcefile)
    }

    /** The chain of an entry that matches the window. */
    ghost predicate ChainFor(head: int, chain: seq<int>, w: Window)
      reads this
    {
      && Valid() && Trees().Has(head) && chain == Chain(Trees(), head)
      && (forall i :: i in chain <==> 0 <= i < |nodes| && Matches(i, w.checksum, w.hash))
      && (forall j, k :: 0 <= j < k < |chain| ==> chain[j] < chain[k])
    }

    /** Entry p of the chain, -1 behind its end, has been reached, and no entry before it is usable. */
    ghost predicate Passed(chain: seq<int>, p: nat, entry: int, status: Status, w: Window, sourcefile: int)
      requires |nodes| <= |status.found|
      reads this
    {
      && p <= |chain| && entry == (if p < |chain| then chain[p] else -1)
      && (forall q :: 0 <= q < |chain| ==> 0 <= chain[q] < |nodes|)
      && forall q :: 0 <= q < p ==> !Usable(chain[q], status, w, sourcefile)
    }

    lemma {:induction false} PassedNext(head: int, chain: seq<int>, p: nat, entry: int, status: Status, w: Window,
                                        sourcefile: int)
      requires ChainFor(head, chain, w) && |nodes| <= |status.found| && Passed(chain, p, entry, status, w, sourcefile)
      requires entry != -1
      ensures 0 <= entry < |nodes| && Matches(entry, w.checksum, w.hash) && p < |chain|
      ensures !Usable(entry, status, w, sourcefile) ==> Passed(chain, p + 1, nodes[entry].same, status, w, sourcefile)
      ensures Usable(entry, status, w, sourcefile) ==> First(entry, status, w, sourcefile)
    {
      hide Forest.Valid;
      ChainSame(Trees(), head, p);
      ChainMembers(chain);
      if Usable(entry, status, w, sourcefile) {
        FirstInChain(chain, p, status, w, sourcefile);
      }
    }

    lemma {:induction false} PassedAll(head: int, chain: seq<int>, p: nat, status: Status, w: Window, sourcefile: int)
      requires ChainFor(head, chain, w) && |nodes| <= |status.found| && Passed(chain, p, -1, status, w, sourcefile)
      ensures NoneUsable(status, w, sourcefile)
    {
      hide Forest.Valid;
      ChainMembers(chain);
      NoneInChain(chain, status, w, sourcefile);
    }

    lemma {:induction false} PassedStart(head: int, chain: seq<int>, status: Status, w: Window, sourcefile: int)
      requires ChainFor(head, chain, w) && |nodes| <= |status.found|
      ensures Passed(chain, 0, head, status, w, sourcefile)
    {
      hide Forest.Valid;
      ChainMembers(chain);
    }

    lemma {:induction false} PassedIn(chain: seq<int>, p: nat, entry: int, status: Status, w: Window, sourcefile: int)
      requires |nodes| <= |status.found| && Passed(chain, p, entry, status, w, sourcefile)
      ensures entry == -1 || (0 <= entry < |nodes| && p < |chain|)
    {
    }

    /** Follow the chain from an entry on to the first unused one. */
    method SkipUsed(entry0: int, status: Status, w: Window, ghost head: int, ghost chain: seq<int>, ghost p0: nat)
      returns (entry: int)
      requires ChainFor(head, chain, w) && |nodes| <= |status.found| && Passed(chain, p0, entry0, status, w, -1)
      ensures if NoneUsable(status, w, -1) then entry == -1 else First(entry, status, w, -1)
    {
      hide ChainFor;
      hide Passed;
      hide First;
      hide NoneUsable;
      entry := entry0;
      ghost var p := p0;
      PassedIn(chain, p, entry, status, w, -1);
      while entry != -1 && !Unused(entry, status, w)
        invariant Passed(chain, p, entry, status, w, -1) && (entry == -1 || (0 <= entry < |nodes| && p < |chain|))
        decreases |chain| - p
      {
        PassedNext(head, chain, p, entry, status, w, -1);
        entry := nodes[entry].same;
        p := p + 1;
        PassedIn(chain, p, entry, status, w, -1);
      }
      if entry == -1 {
        PassedAll(head, chain, p, status, w, -1);
      } else {
        PassedNext(head, chain, p, entry, status, w, -1);
        FirstIsEntry(entry, status, w, -1);
      }
    }

    /** Follow the chain to the first usable entry of a source file, remembering the first one of any file. */
    method SkipOthers(head: int, sourcefile: int, status: Status, w: Window, ghost chain: seq<int>)
      returns (currententry: int, nextentry: int)
      requires ChainFor(head, chain, w) && |nodes| <= |status.found| && 0 <= sourcefile
      ensures if NoneUsable(status, w, sourcefile) then currententry ==
                -1 else First(currententry, status, w, sourcefile)
      ensures currententry == -1 ==>
                if NoneUsable(status, w, -1) then nextentry == -1 else First(nextentry, status, w, -1)
    {
      hide ChainFor;
      hide Passed;
      hide First;
      hide NoneUsable;
      currententry, nextentry := head, -1;
      ghost var p := 0;
      PassedStart(head, chain, status, w, sourcefile);
      PassedStart(head, chain, status, w, -1);
      PassedIn(chain, 0, head, status, w, sourcefile);
      while currententry != -1 &&
        (nodes[currententry].block.sourcefile != sourcefile || !Unused(currententry, status, w))
        invariant Passed(chain, p, currententry, status, w, sourcefile)
        invariant currententry == -1 || (0 <= currententry < |nodes| && p < |chain|)
        invariant if nextentry ==
                    -1 then Passed(chain, p, currententry, status, w, -1) else First(nextentry, status, w, -1)
        decreases |chain| - p
      {
        PassedNext(head, chain, p, currententry, status, w, sourcefile);
        if nextentry == -1 {
          PassedNext(head, chain, p, currententry, status, w, -1);
        }
        if nextentry == -1 && Unused(currententry, status, w) {
          nextentry := currententry;
        }
        currententry := nodes[currententry].same;
        p := p + 1;
        PassedIn(chain, p, currententry, status, w, sourcefile);
      }
      if currententry != -1 {
        PassedNext(head, chain, p, currententry, status, w, sourcefile);
        FirstIsEntry(currententry, status, w, sourcefile);
      } else {
        PassedAll(head, chain, p, status, w, sourcefile);
        if nextentry == -1 {
          PassedAll(head, chain, p, status, w, -1);
        } else {
          FirstIsEntry(nextentry, status, w, -1);
        }
      }
    }

    /** Choose among the entries of a chain: the first usable one of the preferred source file, otherwise the
        first usable one of any file. */
    method Choose(head: int, sourcefile: int, status: Status, w: Window) returns (entry: int, duplicate: bool)
      requires Valid() && Trees().Has(head) && places[head].head && Matches(head, w.checksum, w.hash)
      requires |nodes| <= |status.found| && -1 <= sourcefile
      ensures if !NoneUsable(status, w, sourcefile) then First(entry, status, w, sourcefile)
              else if !NoneUsable(status, w, -1) then First(entry, status, w, -1)
              else entry == -1
      ensures duplicate <==> entry == -1
      ensures entry != -1 ==> 0 <= entry < |nodes| && Matches(entry, w.checksum, w.hash)
    {
      ghost var chain := Chain(Trees(), head);
      ChainIs(Trees(), head, w.checksum, w.hash);
      hide Forest.Valid;
      hide First;
      hide NoneUsable;
      var nextentry := head;
      ghost var p := 0;
      if sourcefile != -1 {
        var currententry;
        currententry, nextentry := SkipOthers(head, sourcefile, status, w, chain);
        if currententry != -1 {
          FirstIsEntry(currententry, status, w, sourcefile);
          return currententry, false;
        }
        AtFirst(chain, nextentry, status, w);
        p := if nextentry == -1 then |chain| else Position(chain, nextentry);
      }
      entry := SkipUsed(nextentry, status, w, head, chain, p);
      FirstIsEntry(entry, status, w, -1);
      duplicate := entry == -1;
    }

    /** The suggested entry is the match: the last block of a file by its short checksum and hash, any other
        one if it has not been found yet. */
    ghost predicate Suggests(suggested: int, status: Status, w: Window)
      requires suggested < |nodes| <= |status.found|
      reads this
    {
      && 0 <= suggested
      && var block := nodes[suggested].block;
         if nodes[suggested].next == -1 then
           w.shortchecksum(block.length) == block.crc && w.shorthash(block.length) == block.hash
         else !status.found[suggested] && Matches(suggested, w.checksum, w.hash)
    }

    /** Entry i is the only one that matches the window. */
    ghost predicate OnlyMatch(i: int, w: Window)
      reads this
    {
      0 <= i < |nodes| && forall j :: 0 <= j < |nodes| ==> (Matches(j, w.checksum, w.hash) <==> j == i)
    }

    ghost predicate NoMatch(w: Window)
      reads this
    {
      forall j :: 0 <= j < |nodes| ==> !Matches(j, w.checksum, w.hash)
    }

    ghost predicate Several(w: Window)
      reads this
    {
      exists i, j :: 0 <= i < j < |nodes| && Matches(i, w.checksum, w.hash) && Matches(j, w.checksum, w.hash)
    }

    /** The answer when entry i is the only match. */
    ghost predicate SingleAnswer(i: int, suggested: int, status: Status, w: Window, entry: int, duplicate: bool)
      requires 0 <= i < |nodes| && |nodes| <= |status.found| && |nodes| <= |status.diskfile|
      reads this
    {
      var block := nodes[i].block;
      if block.sourcefile in status.complete then entry == -1 && duplicate
      else if w.shortblock && w.blocklength != block.length then entry == -1 && !duplicate
      else if block.firstblock && w.offset == 0 then entry == i && !duplicate
      else if status.found[i] && (i != suggested || status.diskfile[i] == w.diskfile) then entry == -1 && duplicate
      else entry == i && !duplicate
    }

    /** The answer when there are several matches: the first usable one of the preferred file, otherwise the
        first usable one of any file. */
    ghost predicate ChainAnswer(sourcefile: int, status: Status, w: Window, entry: int, duplicate: bool)
      requires |nodes| <= |status.found|
      reads this
    {
      && (duplicate <==> entry == -1)
      && if !NoneUsable(status, w, sourcefile) then First(entry, status, w, sourcefile)
         else if !NoneUsable(status, w, -1) then First(entry, status, w, -1)
         else entry == -1
    }

    /** The answer for a window. */
    ghost predicate Answer(suggested: int, sourcefile: int, status: Status, w: Window, entry: int, duplicate: bool)
      requires -1 <= suggested < |nodes| && |nodes| <= |status.found| && |nodes| <= |status.diskfile|
      reads this
    {
      if Suggests(suggested, status, w) then entry == suggested && !duplicate
      else OtherAnswer(suggested, sourcefile, status, w, entry, duplicate)
    }

    /** The answer when no entry is expected, or the expected one does not match. */
    ghost predicate OtherAnswer(suggested: int, sourcefile: int, status: Status, w: Window, entry: int, duplicate: bool)
      requires |nodes| <= |status.found| && |nodes| <= |status.diskfile|
      reads this
    {
      && (NoMatch(w) ==> entry == -1 && !duplicate)
      && (forall i :: OnlyMatch(i, w) ==> SingleAnswer(i, suggested, status, w, entry, duplicate))
      && (Several(w) ==> ChainAnswer(sourcefile, status, w, entry, duplicate))
    }

    /** An entry that had not been suggested matches the window, and has the length of what is left of the file. */
    lemma {:induction false} AnswerFits(suggested: int, sourcefile: int, status: Status, w: Window, entry: int,
                                        duplicate: bool)
      requires -1 <= suggested < |nodes| && |nodes| <= |status.found| && |nodes| <= |status.diskfile|
      requires Answer(suggested, sourcefile, status, w, entry, duplicate) && !Suggests(suggested, status, w)
      requires -1 <= entry < |nodes| && entry != -1
      ensures Matches(entry, w.checksum, w.hash)
      ensures w.shortblock ==> w.blocklength == nodes[entry].block.length
    {
      hide NoneUsable;
      if !NoMatch(w) && !Several(w) {
        var i :| 0 <= i < |nodes| && Matches(i, w.checksum, w.hash);
        assert OnlyMatch(i, w);
      }
    }

    /** What a lookup has found says which case it is. */
    lemma {:induction false} WhichCase(entry: int, w: Window)
      requires Valid() && (entry == -1 <==> NoMatch(w))
      requires entry != -1 ==> Trees().Has(entry) && forall i :: i in Chain(Trees(), entry) <==>
                                                                   0 <= i < |nodes| && Matches(i, w.checksum, w.hash)
      ensures NoMatch(w) ==> !Several(w) && forall j :: !OnlyMatch(j, w)
      ensures entry != -1 ==> Trees().Has(entry) && Matches(entry, w.checksum, w.hash)
      ensures entry != -1 && nodes[entry].same == -1 ==> !Several(w) && forall j :: OnlyMatch(j, w) ==> j == entry
      ensures entry != -1 && nodes[entry].same != -1 ==> forall j :: !OnlyMatch(j, w)
    {
      hide Forest.Valid;
      hide Block.Key;
      if NoMatch(w) {
        forall j | 0 <= j < |nodes|
          ensures !OnlyMatch(j, w)
        {
          assert !Matches(j, w.checksum, w.hash);
        }
      }
      if entry != -1 {
        var chain := Chain(Trees(), entry);
        ChainSame(Trees(), entry, 0);
        assert chain[0] in chain;
        if nodes[entry].same == -1 {
          assert chain == [entry];
        } else {
          assert chain[1] in chain;
          SameFurther(Trees(), entry);
        }
      }
    }

    /** The answer for a window, from its checksum and its hash. */
    method FindMatch(suggested: int, sourcefile: int, status: Status, w: Window) returns (entry: int, duplicate: bool)
      requires Valid() && -1 <= suggested < |nodes| && -1 <= sourcefile
      requires |nodes| <= |status.found| && |nodes| <= |status.diskfile|
      ensures -1 <= entry < |nodes| && Answer(suggested, sourcefile, status, w, entry, duplicate)
    {
      hide Forest.Valid, OtherAnswer;
      // The entry that is expected
      if suggested != -1 {
        var block := nodes[suggested].block;
        if nodes[suggested].next == -1 {
          if w.shortchecksum(block.length) == block.crc && w.shorthash(block.length) == block.hash {
            return suggested, false;
          }
        } else if !status.found[suggested] && block.crc == w.checksum && block.hash == w.hash {
          return suggested, false;
        }
      }
      entry, duplicate := FindOther(suggested, sourcefile, status, w);
    }

    /** Look for any other match, by checksum and hash. */
    method FindOther(suggested: int, sourcefile: int, status: Status, w: Window) returns (entry: int, duplicate: bool)
      requires Valid() && -1 <= sourcefile && |nodes| <= |status.found| && |nodes| <= |status.diskfile|
      ensures -1 <= entry < |nodes| && OtherAnswer(suggested, sourcefile, status, w, entry, duplicate)
    {
      hide Forest.Valid, First, NoneUsable, Several, OnlyMatch;
      entry := Lookup(w.checksum, w.hash);
      duplicate := false;
      WhichCase(entry, w);
      hide NoMatch;
      if entry == -1 {
        return;
      }
      // One entry, or a chain of them
      if nodes[entry].same == -1 {
        entry, duplicate := Single(entry, suggested, status, w);
      } else {
        entry, duplicate := Choose(entry, sourcefile, status, w);
      }
    }

    /** What becomes of a single match.  Nothing, if its source file is complete, or if near the end of the
        data file it has another length than what is left.  A first block at the start of the data file is
        always taken.  Any other block has to be unused; the suggested one may have been used, but not in
        this data file. */
    method Single(nextentry: int, suggested: int, status: Status, w: Window) returns (entry: int, duplicate: bool)
      requires 0 <= nextentry < |nodes| && |nodes| <= |status.found| && |nodes| <= |status.diskfile|
      ensures SingleAnswer(nextentry, suggested, status, w, entry, duplicate)
    {
      var block := nodes[nextentry].block;
      if block.sourcefile in status.complete {
        return -1, true;
      }
      if w.shortblock && w.blocklength != block.length {
        return -1, false;
      }
      if block.firstblock && w.offset == 0 {
        return nextentry, false;
      }
      if nextentry == suggested {
        if status.found[nextentry] && status.diskfile[nextentry] == w.diskfile {
          return -1, true;
        }
        return nextentry, false;
      }
      if status.found[nextentry] {
        return -1, true;
      }
      return nextentry, false;
    }

    lemma {:induction false} ChainMembers(chain: seq<int>)
      ensures forall q :: 0 <= q < |chain| ==> chain[q] in chain
    {
    }

    lemma {:induction false} FirstIsEntry(entry: int, status: Status, w: Window, sourcefile: int)
      requires |nodes| <= |status.found|
      ensures First(entry, status, w, sourcefile) ==> entry != -1 && !NoneUsable(status, w, sourcefile)
      ensures First(entry, status, w, sourcefile) ==> 0 <= entry < |nodes| && Matches(entry, w.checksum, w.hash)
    {
    }

    /** The first usable entry is in the chain, behind entries that are not usable. */
    lemma {:induction false} AtFirst(chain: seq<int>, entry: int, status: Status, w: Window)
      requires |nodes| <= |status.found|
      requires forall i :: i in chain <==> 0 <= i < |nodes| && Matches(i, w.checksum, w.hash)
      requires forall j, k :: 0 <= j < k < |chain| ==> chain[j] < chain[k]
      requires if NoneUsable(status, w, -1) then entry == -1 else First(entry, status, w, -1)
      ensures entry != -1 ==> entry in chain && Passed(chain, Position(chain, entry), entry, status, w, -1)
      ensures entry == -1 ==> Passed(chain, |chain|, -1, status, w, -1)
    {
      ChainMembers(chain);
    }

    lemma {:induction false} FirstInChain(chain: seq<int>, p: nat, status: Status, w: Window, sourcefile: int)
      requires |nodes| <= |status.found| && p < |chain|
      requires forall i :: i in chain <==> 0 <= i < |nodes| && Matches(i, w.checksum, w.hash)
      requires forall j, k :: 0 <= j < k < |chain| ==> chain[j] < chain[k]
      requires forall q :: 0 <= q < p ==> chain[q] in chain && !Usable(chain[q], status, w, sourcefile)
      requires chain[p] in chain && Usable(chain[p], status, w, sourcefile)
      ensures First(chain[p], status, w, sourcefile)
    {
      forall j | 0 <= j < chain[p]
        ensures !Usable(j, status, w, sourcefile)
      {
        if Matches(j, w.checksum, w.hash) {
          var q :| 0 <= q < |chain| && chain[q] == j;
          assert q < p;
        }
      }
    }

    lemma {:induction false} NoneInChain(chain: seq<int>, status: Status, w: Window, sourcefile: int)
      requires |nodes| <= |status.found|
      requires forall i :: i in chain <==> 0 <= i < |nodes| && Matches(i, w.checksum, w.hash)
      requires forall q :: 0 <= q < |chain| ==> chain[q] in chain && !Usable(chain[q], status, w, sourcefile)
      ensures NoneUsable(status, w, sourcefile)
    {
      forall j | 0 <= j < |nodes|
        ensures !Usable(j, status, w, sourcefile)
      {
        if Matches(j, w.checksum, w.hash) {
          var q :| 0 <= q < |chain| && chain[q] == j;
        }
      }
    }
  }

  lemma {:induction false} SameFurther(F: Forest, i: int)
    requires F.Valid() && F.Has(i) && F.nodes[i].same != -1
    ensures i < F.nodes[i].same
  {
    assert F.NodeOk(i);
  }

  ghost function Position(chain: seq<int>, i: int): (p: nat)
    requires i in chain
    ensures p < |chain| && chain[p] == i
  {
    var p :| 0 <= p < |chain| && chain[p] == i;
    p
  }

  /** The `same` pointer leads to the next entry of the chain. */
  lemma {:induction false} ChainSame(F: Forest, i: int, p: nat)
    requires F.Valid() && F.Has(i) && p < |Chain(F, i)|
    ensures F.Has(Chain(F, i)[p])
    ensures F.nodes[Chain(F, i)[p]].same == if p + 1 < |Chain(F, i)| then Chain(F, i)[p + 1] else -1
    decreases p
  {
    assert F.NodeOk(i);
    if p > 0 {
      ChainSame(F, F.nodes[i].same, p - 1);
    }
  }

  /** For every entry there is one with the same crc and hash in the tree of its bucket. */
  lemma {:induction false} HeadBelow(F: Forest, i: int) returns (h: int)
    requires F.Valid() && F.Has(i)
    ensures F.BucketOf(i) < |F.table| && F.table[F.BucketOf(i)] != -1
    ensures F.Has(h) && F.places[h].head && Below(F, h, F.table[F.BucketOf(i)])
    ensures F.nodes[h].block.crc == F.nodes[i].block.crc && F.nodes[h].block.hash == F.nodes[i].block.hash
  {
    h := HeadOf(F, i);
    KeyOrder(F.nodes[i].block, F.nodes[h].block);
    BelowRoot(F, h);
    BelowHas(F, h, F.table[F.BucketOf(i)]);
  }

  /** The trees do not depend on the sequence of entries of a file. */
  lemma {:induction false} NextIrrelevant(F: Forest, i: int, next: int)
    requires F.Valid() && F.Has(i)
    ensures Forest(F.nodes[i := F.nodes[i].(next := next)], F.places, F.table).Valid()
  {
    hide Block.Key;
    var F' := Forest(F.nodes[i := F.nodes[i].(next := next)], F.places, F.table);
    forall j | 0 <= j < |F.nodes|
      ensures F'.Has(j) && F'.Key(j) == F.Key(j) && F'.BucketOf(j) == F.BucketOf(j)
    {
    }
    forall j | 0 <= j < |F.nodes|
      ensures F'.NodeOk(j)
    {
      assert F.NodeOk(j);
    }
    forall b | 0 <= b < |F.table|
      ensures F'.RootOk(b)
    {
      assert F.RootOk(b);
    }
  }

  lemma {:induction false} ChildrenFurther(F: Forest, i: int)
    requires F.Valid() && F.Has(i)
    ensures F.nodes[i].left == -1 || (F.Has(F.nodes[i].left) && i < F.nodes[i].left && F.places[F.nodes[i].left].head)
    ensures F.nodes[i].right ==
              -1 || (F.Has(F.nodes[i].right) && i < F.nodes[i].right && F.places[F.nodes[i].right].head)
  {
    assert F.NodeOk(i);
  }

  lemma {:induction false} BelowHas(F: Forest, i: int, a: int)
    requires F.Valid() && Below(F, i, a)
    ensures F.Has(i) && F.Has(a) && F.places[i].head && F.places[a].head
  {
    BelowBounds(F, i, a);
  }

  lemma {:induction false} ChainIs(F: Forest, entry: int, crc: Crc, hash: Md5Hash)
    requires F.Valid() && F.Has(entry) && F.places[entry].head
    requires F.nodes[entry].block.crc == crc && F.nodes[entry].block.hash == hash
    ensures forall i :: i in Chain(F, entry) <==>
                          0 <= i < |F.nodes| && F.nodes[i].block.crc == crc && F.nodes[i].block.hash == hash
    ensures forall j, k :: 0 <= j < k < |Chain(F, entry)| ==> Chain(F, entry)[j] < Chain(F, entry)[k]
  {
    ChainAscends(F, entry);
    forall i | F.Has(i)
      ensures F.Key(i) == F.Key(entry) <==> F.nodes[i].block.crc == crc && F.nodes[i].block.hash == hash
    {
      KeyOrder(F.nodes[i].block, F.nodes[entry].block);
    }
    hide Block.Key;
    forall i | 0 <= i < |F.nodes| && F.Key(i) == F.Key(entry)
      ensures i in Chain(F, entry)
    {
      ChainComplete(F, entry, i);
    }
  }

  /** The pointer is empty and fits, or leads to an entry with the key. */
  ghost predicate EndsOrMatches(F: Forest, slot: Slot, block: Block) {
    && F.Valid()
    && (if slot.Root? then 0 <= slot.b < |F.table| else F.Has(slot.p))
    && var c := Target(F.nodes, F.table, slot);
       if c == -1 then Fits(F, slot, block) else F.Has(c) && F.Key(c) == block.Key()
  }

  lemma {:induction false} NextSame(F: Forest, i: int)
    requires F.Valid() && F.Has(i)
    ensures F.nodes[i].same ==
              -1 || (F.Has(F.nodes[i].same) && i < F.nodes[i].same && F.Key(F.nodes[i].same) == F.Key(i))
  {
    assert F.NodeOk(i);
  }

  /** A pointer in a tree leads to a tree entry within the bounds of the pointer. */
  ghost predicate TargetOk(F: Forest, slot: Slot)
    requires if slot.Root? then 0 <= slot.b < |F.table| else F.Has(slot.p)
  {
    var c := Target(F.nodes, F.table, slot);
    F.Has(c) && F.places[c].head &&
    match slot
    case Root(b) => F.places[c].lo == -1 && F.places[c].hi == TOP && F.BucketOf(c) == b
    case Left(p) => p < c && F.places[c].lo == F.places[p].lo && F.places[c].hi == F.Key(p) &&
      F.BucketOf(c) == F.BucketOf(p)
    case Right(p) => p < c && F.places[c].lo == F.Key(p) && F.places[c].hi == F.places[p].hi &&
      F.BucketOf(c) == F.BucketOf(p)
    case Same(p) => true
  }
}
