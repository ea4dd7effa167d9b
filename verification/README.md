# A verified model of par2cmdline

par2cmdline creates and uses PAR2 recovery files: redundant data, computed over GF(2^16), from which lost or
damaged blocks of source files can be restored. Its one promise is that lost blocks come back bit for bit. This
project models the code behind that promise in Dafny, in the form it has in C++ (methods with loops over arrays and
fields where the program works step by step, functions where it computes values), and proves what it does.

`dafny verify dfyconfig.toml` checks everything.

## Main results

- **Lost bytes come back.** `FileRepair.CreateThenRepairFiles`: from source blocks on disk, through recovery blocks
  on disk, to repaired targets on disk, with any memory limit and so any chunk size, every lost block is restored
  and every found one copied, bit for bit, exactly if the matrix can be solved; with consecutive recovery blocks in
  ascending row order it always can. Underneath, for any field and any blocks: `Repair.RepairUndoesCreate`,
  `ReedSolomon.ReedSolomon.Compute` and `Elimination.GaussElim`.
- **When repair can fail.** `Compute` succeeds exactly if all leading blocks of its matrix are nonsingular.
  `Vandermonde.ConsecutiveSucceeds` gives success for every order of rows whose first k exponents are consecutive for
  every k, `Bases.Prefixes16Decide` and `Bases.Progression16Decides` the exact condition for equal spacing, and
  `Singular` exponents for which repair fails, consecutive ones in the order e, e + 3, e + 1, e + 2 among them.
- **Table arithmetic is field arithmetic.** Log and antilog tables, the split multiplication tables and the 32-bit
  loops all compute products of polynomials modulo a primitive generator (`GaloisTables`, `LongMultiply`, `ByteLanes`).
- **The sliding window is right.** Rolling checksums equal fresh ones for every run of `Start`, `Step` and `Jump`
  (`Crc`, `FileCheckSummers`), and the bytes of every window, those behind the end of the file included, are a
  function of the file and the moves (`Windows`, `ShortWindows`); the index finds exactly what was inserted
  (`VerificationTables`).
- **What a scan finds.** A match is the block in the file exactly if the file reaches that far (`ScanResults.WholeMatch`;
  for a shorter block, if its window is not a collision of both crc and hash, `ScanResults.MatchInFile`), which only an
  expected last block can miss (`ScanResults.PastTheEndExactly`); no offset is passed over except behind a match or a
  duplicate, and behind a match the next block of its file is found if it is there, however damaged the file is
  (`ScanCoverage`, `ScanSuccessors`); an undamaged file is a full match (`ScanResults.DescribeThenScan`); blocks are
  located exactly where scans have matched them, those of undamaged source files where they start, in whatever
  company the files are (`ScanRepair`, `IntactFiles`, `AnyDataFiles`); and that is what the repair reads.
- **Concurrency changes nothing.** Every interleaving of workers leaves each row the inner product of the serial loop
  (`Pipeline`, `ConcurrentRows`), down to the bytes that are written for a chunk (`ConcurrentChunks`), and files are
  hashed in order, and completely, whatever the order of arrival (`HashOrder`, `DeferredHashing`). Neither can get
  stuck: from every state that can be reached there are steps to the end (`PipelineProgress`, `HashProgress`).
- **Plans and files fit together.** Optimal block sizes (`BlockSizes`), partitions of exponents (`Volumes`), packets
  that tile their files with the room each needs (`PacketLayouts`), are written there (`RecoveryPackets`) and are
  exactly what a repair loads from the written file (`VolumeFiles`, `PacketScans`); two ways of hashing a file agree
  (`SourceFiles`, `Md5`).

## How it is built

Machine words are natural numbers with their own `Xor`, shifts and widths (`Bits`); every place where a width
matters states that the value fits or takes it modulo the width. The field arithmetic of `Elimination`, `Codes`,
`Vandermonde`, `ReedSolomon` and `Repair` works for any lawful `Field` of characteristic two, as the C++ templates
do; `GaloisFields` supplies both instances. MD5 is any iterated compression function with the padding of RFC 1321,
sections 3.1 to 3.4 (`Md5.Compression`); CRC-32 is that of section 8 of RFC 1952; packets are those of the sections
"Packet Header" and "Recovery Slice packet" of the Parity Volume Set Specification 2.0.

## Where the code differs from what it says

- The comment at reedsolomon.h:414-419 says that the matrices are never singular and that row swaps are never needed.
  Neither holds for arbitrary exponents. `Singular.SingularExample` and `Singular.RowSwapNeededExample` give inputs;
  `Vandermonde.SolvableIsNonsingular` and `Bases.Progression16Decides` say exactly when elimination succeeds.
- `FileCheckSummer::Fill` does nothing once the file has been read (filechecksummer.cpp:134-136), although `Step` and
  `Jump` have moved the buffer before (filechecksummer.h:142-171, filechecksummer.cpp:95-116). A window that reaches
  past the end of the file is then padded with stale bytes instead of zeros; in the scan of an undamaged file, with
  the end of the last block but one. `ShortWindows.PaddedExactly` says when zeros pad it, for every run.
- `FindMatch` does not compare the length of the last block of a file with what is left of the data file, if that block
  was expected (verificationhashtable.h:279-300). Stale bytes can complete it, so that a match is recorded whose block
  reaches past the end of a truncated file: `ScanResults.TruncatedFile`, for blocks of every size.
  `ScanResults.FitsExactly` and `ScanResults.PastTheEndExactly` say exactly when that happens.
- The order of recovery packets matters. The concurrent build takes them from a hash map (par2repairer.cpp:2590), which
  may give them in any order, and consecutive packets in another order than ascending can fail:
  `Singular.PermutedRunExample`.
- A header whose offset and length exceed 64 bits together is taken for a packet if its hash is that of the rest of the
  header (par2repairer.cpp:552 and 564: `PacketScans.AcceptedExactly`), and the scan then goes back (line 643). It ends
  exactly if it never comes to an offset twice (`PacketScans.EndsExactly`), which such a header can prevent:
  `PacketScans.EndlessScan`.
- The shift `1 << recoveryfilecount` (par2creator.cpp:1040) has no defined value for 31 or more files. `Volumes` takes it
  as a parameter: the loop behind it ends exactly if it is not 1 (`Volumes.EnoughExactly`).
- The `else` branch of `Jump` (filechecksummer.cpp:113-116) is never reached: some data is always left.
- `GaloisTable` is only right for a primitive generator; both generators are proved to be primitive.

## Model

| member | source | states |
|---|---|---|
| `Generators.Galois8Primitive` | galois.h:350 | X generates the multiplicative group of GF(2^8) with generator 0x11D: its first 255 powers are distinct and the 255th is 1, so the log table is filled completely. |
| `Generators.Galois16Primitive` | galois.h:351 | X generates the multiplicative group of GF(2^16) with generator 0x1100B, by an order argument over 65535 = 3 * 5 * 17 * 257. |
| `Order.Primitive16` | galois.h:144-164 | For any 16-bit generator, x^65535 = 1 and x^(65535/p) != 1 for the four primes p are enough for x to be primitive. |
| `Walk.EveryElementIsAPower` | galois.h:153-160 | The walk of the table constructor reaches every nonzero element, so log is defined on all of them. |
| `Walk.PowersDistinct` | galois.h:153-160 | No two steps of the walk reach the same element, so antilog is one-to-one. |
| `Polynomials.MulAssoc` | galois.h:180-192 | Carry-less multiplication modulo the generator is associative, for every generator of the right degree. |
| `Polynomials.MulComm` | galois.h:180-192 | That multiplication is commutative. |
| `Polynomials.MulAddRight` | galois.h:180-192 | That multiplication distributes over XOR. |
| `GaloisTables.GaloisTable.Fill` | galois.h:144-164 | The loop, which only shifts and reduces, leaves log and antilog inverse to each other on all nonzero elements, with the two sentinels at 0 and Limit. |
| `GaloisTables.GaloisTable.constructor` | galois.h:144-164 | A new table is filled that way. |
| `GaloisTables.GaloisTable.Times` | galois.h:180-192 | Table multiplication is polynomial multiplication modulo the generator for all operands, zero included, and every table index is in range. |
| `GaloisTables.GaloisTable.DividedBy` | galois.h:217-234 | Table division by a nonzero element is the quotient of the field; every table index is in range. |
| `GaloisTables.GaloisTable.RaisedTo` | galois.h:258-274 | Pow is repeated multiplication for every value and every exponent up to Limit; the product of log and exponent fits 32 bits. |
| `GaloisTables.DivMul` | galois.h:217-234 | (a / b) * b = a for every a and every nonzero b. |
| `GaloisTables.DivUnique` | galois.h:217-234 | The quotient is the only element with that property. |
| `GaloisTables.Folded` | galois.h:263-273 | One fold and one conditional subtraction turn log * exponent into an index below Limit that stands for the same power. |
| `GaloisTables.ProductFits` | galois.h:263 | Log * exponent does not overflow 32 bits. |
| `GaloisTables.PowNLimit` | galois.h:258-274 | Every nonzero element raised to Limit is 1. |
| `GaloisFields.Field8Lawful` | galois.h:350 | Addition, multiplication and division of Galois8 obey the laws of a field of characteristic two. |
| `GaloisFields.Field16Lawful` | galois.h:351 | Those of Galois16 do. |
| `LongMultiply.GaloisLongMultiplyTable.constructor` | galois.h:330-347 | The four nested loops leave, in each block of the table, the products of one byte position with another. |
| `LongMultiply.CombineTables` | reedsolomon.cpp:495-554 | Adding LL to HL and LH to HH gives two tables of 256 entries each, one for the low and one for the high byte of a lane. |
| `LongMultiply.RoundLanes` | reedsolomon.cpp:646-668 | One 32-bit round adds factor * lane to both 16-bit lanes of a word at once, without carries between them. |
| `LongMultiply.InternalProcess16` | reedsolomon.cpp:486-554 | For every factor and every size that is a multiple of four, every 16-bit lane of the output gets factor * input lane added; bytes beyond the size keep their value. |
| `LongMultiply.BuildLookup` | reedsolomon.cpp:123-140 | The 8-bit lookup table holds factor * b for every byte b. |
| `LongMultiply.Round8Bytes` | reedsolomon.cpp:148-157 | One 32-bit round looks up and adds four bytes independently. |
| `LongMultiply.InternalProcess8` | reedsolomon.cpp:113-188 | For every size, its last one to three bytes included, every output byte gets factor * input byte added. |
| `ByteLanes.Process16` | reedsolomon.h:175-187 | Process on byte buffers is scaled addition in the field, and skipping factor 0 makes no difference. |
| `ByteLanes.LanesDetermine` | reedsolomon.cpp:639-669 | Buffers with the same 16-bit lanes have the same bytes. |
| `Elimination.GaussElim` | reedsolomon.h:387-547 | Elimination without row swaps succeeds exactly if every leading square block of the right matrix is nonsingular; then the right matrix becomes the identity and left * x = right * y has the same solutions as before. |
| `Elimination.NormalisePivotRow` | reedsolomon.h:440-458 | Scaling the pivot row by its pivot, skipping zero entries, keeps the solutions and makes the pivot 1. |
| `Elimination.ClearCell` | reedsolomon.h:473-516 | Each of the three cases for the scale value keeps the solutions and clears one entry of the pivot column, in one row only. |
| `Elimination.PivotDecides` | reedsolomon.h:431-438 | The pivot met in step k is nonzero exactly if the leading block of size k + 1 is nonsingular. |
| `ReedSolomon.ReedSolomon.SetInput` | reedsolomon.cpp:198-238 | Present and missing blocks are indexed in ascending order, and each block has its base. |
| `ReedSolomon.ReedSolomon.SetOutput` | reedsolomon.h:193-212 | A row is appended for a 16-bit exponent, and the counts of present and missing rows follow. |
| `ReedSolomon.ReedSolomon.SetOutputRange` | reedsolomon.h:216-226 | One row per exponent of an inclusive, possibly empty, range, in ascending order. |
| `ReedSolomon.ReedSolomon.FillMatrices` | reedsolomon.h:249-370 | The two matrices hold powers of the bases and unit blocks in the documented layout, also when recovery blocks are to be computed in a repair. |
| `ReedSolomon.ReedSolomon.Compute` | reedsolomon.h:229-383 | It returns true exactly if there are enough recovery blocks, something to compute, and a solution by elimination; then the left matrix, applied to present data and recovery values, gives the missing data and the missing recovery values, whatever the data was. |
| `ReedSolomon.ReedSolomon.Process` | reedsolomon.h:175-187 | One output row gets factor * input added, with the factor of its row and column; other rows keep their value. |
| `ReedSolomon.ReedSolomon.ProcessData` | par2creator.cpp:1521-1591 | After all inputs, every output row is the inner product of its matrix row with the inputs, position by position. |
| `ReedSolomon.SolvedReconstructs` | reedsolomon.h:372-380 | A left matrix whose right partner has become the identity reconstructs. |
| `Codes.DataSolvesRow` | reedsolomon.h:249-262 | Every row of the documented layout is an equation that present data, missing data and recovery values satisfy. |
| `Repair.CreatedBlocks` | reedsolomon.h:229-383 | What the creator's matrix gives for whole blocks is the recovery block of each exponent. |
| `Repair.BlocksReconstructed` | reedsolomon.h:229-383 | A matrix that reconstructs single values reconstructs whole blocks. |
| `Repair.RepairUndoesCreate` | par2repairer.cpp:2527-2626 | Feed the repairer's matrix the present blocks and any created blocks whose exponents it uses, and its first rows are the lost blocks in order, the remaining ones the recovery blocks that were asked for. |
| `Vandermonde.VanishingMoments` | reedsolomon.h:414-419 | Weights on distinct points whose first n moments vanish are all zero. |
| `Vandermonde.SolvableIsNonsingular` | reedsolomon.h:414-438 | Elimination succeeds exactly if, for every k, the first k exponents and the first k missing bases give a nonsingular matrix. |
| `Vandermonde.SpacedDecides` | reedsolomon.h:414-419 | With k equally spaced exponents in any order, the matrix of powers of the first k missing bases is invertible exactly if no two of them agree in the power of the step. |
| `Vandermonde.PrefixesDecide` | reedsolomon.h:414-438 | With exponents of which the first k are equally spaced for every k, in any order and with any steps, elimination succeeds exactly if, for every k, no two of the first k missing bases agree in the power of that step. |
| `Vandermonde.ConsecutiveSucceeds` | reedsolomon.h:414-419 | With distinct nonzero bases and exponents in an order in which the first k are consecutive for every k, as in ascending or descending order, no pivot is ever zero, for any number of missing blocks. |
| `Vandermonde.ProgressionDecides` | reedsolomon.h:414-419 | With exponents that ascend in equal steps, elimination succeeds exactly if no two missing bases agree in the power of the step. |
| `Vandermonde.OneMissingSucceeds` | reedsolomon.h:414-419 | A single missing block can be restored with any one recovery block. |
| `Coprimes.gcd` | reedsolomon.cpp:39-61 | The result is the greatest common divisor, or 0 if either argument is 0. |
| `Coprimes.GcdIsOne` | reedsolomon.cpp:223-226 | Gcd(65535, l) = 1 exactly if none of 3, 5, 17 and 257 divides l. |
| `Coprimes.CoprimeCount` | reedsolomon.cpp:221-231 | Exactly 32768 logs below 65535 are coprime to it. |
| `Bases.ChooseBases16` | reedsolomon.cpp:206-235 | Base i is the antilog of the i-th log coprime to 65535; the choice fails exactly beyond 32768 blocks. |
| `Bases.ChooseBases8` | reedsolomon.cpp:63-90 | The bases count up from 1 and wrap around at 256. |
| `Bases.Bases16Good` | reedsolomon.cpp:221-234 | The bases chosen are nonzero and pairwise distinct. |
| `Bases.Bases8Good` | reedsolomon.cpp:63-90 | The 8-bit bases are nonzero and distinct exactly up to 255 blocks. |
| `Bases.Consecutive16Succeeds` | reedsolomon.h:414-438 | In PAR2, a repair with exponents of which the first k are consecutive for every k never fails. |
| `Bases.SamePower` | reedsolomon.cpp:221-232 | The antilogs of i and j agree in the n-th power exactly if 65535 divides (j - i) * n. |
| `Bases.Progression16Decides` | reedsolomon.h:414-438 | In PAR2, a repair with exponents that ascend or descend in equal steps succeeds exactly if, for no two missing blocks, 65535 divides the difference of their logs times the step. |
| `Bases.Prefixes16Decide` | reedsolomon.h:414-438 | The same for exponents in any order of which the first k are equally spaced for every k, with the step of the first k for the first k missing blocks. |
| `Singular.FirstTwoClash` | reedsolomon.h:414-438 | For arbitrary exponents in any order, elimination fails whenever 65535 divides the difference of the first two missing logs times that of the first two exponents. |
| `Singular.SingularExample` | reedsolomon.h:414-415 | A concrete repair whose matrix is singular, although the comment excludes it: blocks 0 and 2 of three missing, exponents 0 and 21845. |
| `Singular.RowSwapNeededExample` | reedsolomon.h:417-419 | A concrete repair whose matrix is invertible and yet has a zero pivot, so that row swaps would have been necessary: exponents 0, 21845, 1. |
| `Singular.PermutedRunFails` | reedsolomon.h:417-419 | Consecutive exponents in another order, e, e + 3, e + 1, e + 2: the matrix is invertible, and yet elimination fails if the logs of the first two missing blocks differ by 21845. |
| `Singular.PermutedRunExample` | reedsolomon.h:417-419 | There is such a repair for every e, of four blocks of 32768. |
| `CreateRepair.ForCreate` | par2creator.cpp:1288-1305 | For any number of source blocks, computing the creator's matrix succeeds, and it reconstructs. |
| `CreateRepair.CreateData` | par2creator.cpp:1288-1305 | Within the 65535 exponents that the creator allows, packet k carries exponent first + k and the recovery block of that exponent. |
| `CreateRepair.ForRepair` | par2repairer.cpp:2584-2625 | As many recovery packets are used as blocks are missing, in the order in which they come, each with the low 16 bits of its exponent; the matrix can be computed exactly if the problem is solvable. |
| `CreateRepair.RepairData` | par2repairer.cpp:2530-2626 | Whatever the data was, if the packets hold its recovery blocks for the low 16 bits of their exponents, then what comes out are the missing blocks in order; it fails exactly if the problem is not solvable. |
| `CreateRepair.CreateThenRepair` | par2repairer.cpp:2530-2626 | Create, lose any blocks, repair with any created packets, as many as blocks were lost: what was lost comes back, unless the problem is not solvable. |
| `CreateRepair.ConsecutiveRepair` | par2repairer.cpp:2530-2626 | For up to 32768 blocks and consecutive packets in ascending order, it always comes back. |
| `Chunks.ReadIsSlice` | datablock.cpp:51-83 | Reading any part of a block gives that part of the block padded with zeros. |
| `Chunks.AccumulatedSlice` | par2creator.cpp:401-411 | Applying the matrix to parts of blocks gives the same parts of what it gives for the blocks. |
| `Chunks.RowFinished` | par2creator.cpp:1521-1618 | A finished row of the output buffer is, in bytes, the part of the whole row that belongs to the chunk. |
| `Chunks.ProcessInput` | par2creator.cpp:1559-1566 | One input buffer goes into every row of the output buffer exactly once. |
| `Chunks.WriteTo` | par2repairer.cpp:2936-2951 | The next part of a block is written to its target, cut off at the end of the block; other targets and all other bytes keep their value. |
| `Chunks.ProcessData` | par2repairer.cpp:2816-2996 | One chunk of every block is read, copied where a target is set, processed and written, and nothing outside the targets changes. |
| `Chunks.CopyInputs` | par2repairer.cpp:2931-2982 | With nothing to reconstruct, only the blocks with a set target are read, and each is copied. |
| `Chunks.ChunkSize` | par2repairer.cpp:2629-2640 | The chunk is a multiple of four, fits the memory limit for all rows together, and is the whole block or the largest such multiple. |
| `Chunks.ProcessBlocks` | par2repairer.cpp:361-384 | However blocks are cut into chunks, the targets end up with the copies and with what the matrix gives for the whole padded blocks. |
| `FileRepair.CreateFiles` | par2creator.cpp:385-411 | Every recovery packet's data on disk ends up as the bytes of the recovery block of its exponent, whatever the memory limit. |
| `FileRepair.RepairFiles` | par2repairer.cpp:2530-2626 | Every set target ends up with the bytes of its source block, found or missing, cut to the length of the block, and nothing else changes; it fails exactly if the problem is not solvable. |
| `FileRepair.CreateThenRepairFiles` | par2repairer.cpp:357-384 | From files of bytes to files of bytes: what was lost comes back bit for bit exactly if elimination can solve the matrix of the chosen bases and the exponents of the packets that were kept, and always if those are consecutive and in ascending order. |
| `FileRepair.FileRestored` | par2creatorsourcefile.cpp:357-367 | If every block of a file holds the original bytes, so does the whole file. |
| `RecoveryPackets.RecoveryPacket.Create` | recoverypacket.cpp:48-73 | The data block follows the header directly, and the hash has taken in set id, type and exponent. |
| `RecoveryPackets.RecoveryPacket.WriteData` | recoverypacket.cpp:76-86 | What has been hashed is exactly what has been written so far, and bytes outside the data block keep their value. |
| `RecoveryPackets.RecoveryPacket.WriteHeader` | recoverypacket.cpp:89-96 | There is then a packet with the right magic, length and hash at the offset, holding set id, exponent and data. |
| `RecoveryPackets.WritePacket` | par2creator.cpp:1605-1637 | A packet written in chunks of any size is a packet that the scan accepts, and nothing else in the file has changed. |
| `RecoveryPackets.Load` | recoverypacket.cpp:105-127 | Loading succeeds exactly if there is data behind the exponent, and gives the exponent and the place of the data. |
| `RecoveryPackets.LoadPacketAt` | recoverypacket.cpp:105-127 | From a valid recovery packet, wherever it lies, loading gives its exponent and a block that holds its data, and fails exactly if the data is empty. |
| `RecoveryPackets.WriteThenLoad` | par2creator.cpp:1605-1637 | A packet that was written in chunks of any size is loaded with the exponent and the data that were written. |
| `RecoveryPackets.TilesScanned` | par2repairer.cpp:472-644 | The scan of a file whose packets follow each other from its first byte to its last, as the creator lays them out, ends and finds exactly those packets. |
| `Crc.UpdateCharIsBitwise` | crc.h:52-55 | One table step is eight bitwise steps of the reflected CRC of section 8 of RFC 1952. |
| `Crc.UpdateBlockAdd` | crc.h:58-68 | The register after a string is linear over XOR in its starting value. |
| `Crc.Leaving` | crc.h:89-92 | The window table entry of a byte is what that byte still contributes after the whole window has been shifted through. |
| `Crc.Unmasked` | crc.cpp:66-78 | The window mask turns the CRC of a string of the window's length into its register started from zero, and back. |
| `Crc.SlideIsChecksum` | crc.h:94-110 | For every window length and all bytes, one slide between two masks turns the CRC of bytes i..i+n into that of i+1..i+n+1. |
| `Crc.ChecksumFits` | crc.h:58-68 | Every CRC fits 32 bits. |
| `Crc.GenerateCRC32Table` | crc.cpp:34-47 | Entry i is eight bitwise steps from i. |
| `Crc.CRCUpdateBlock` | crc.h:58-68 | The loop over the table folds the string byte by byte. |
| `Crc.GenerateWindowTable` | crc.cpp:50-63 | Entry i is the contribution of byte i after a whole window of zeros. |
| `Crc.ComputeWindowMask` | crc.cpp:66-78 | The loop gives the mask. |
| `Md5.MD5Context.constructor` | md5.cpp:180-185 | A new context has seen nothing. |
| `Md5.MD5Context.Reset` | md5.cpp:187-192 | A context that was reset has seen nothing. |
| `Md5.MD5Context.Update` | md5.cpp:225-263 | A context that has seen s and is fed t has seen s + t, however both were split into calls; the length is counted modulo 2^64. |
| `Md5.MD5Context.UpdateZeros` | md5.cpp:195-222 | The zero form feeds that many zero bytes. |
| `Md5.MD5Context.Final` | md5.cpp:266-307 | The result is the hash of all that was fed, padded as sections 3.1 and 3.2 of RFC 1321 demand. |
| `FileCheckSummers.FileCheckSummer.Start` | filechecksummer.cpp:54-69 | The window is at the start of the file, its checksum is right, and everything read so far has been hashed. |
| `FileCheckSummers.FileCheckSummer.Step` | filechecksummer.h:136-175 | Unless at the end, the window moves by one byte and all invariants hold: pointers inside the buffer, checksum of the window right, hashes of everything read; the whole buffer is what `Windows.Moved` says, refilled or duplicated only when the window crosses its middle. |
| `FileCheckSummers.FileCheckSummer.Jump` | filechecksummer.cpp:72-128 | The window moves by at most one block, stopping at the end of the file, with the same invariants, and the whole buffer is what `Windows.Moved` says: once the file is used up, the rest of the data in front of what was there before; jumping nowhere, or from the end, fails. |
| `FileCheckSummers.FileCheckSummer.Fill` | filechecksummer.cpp:132-161 | The buffer is filled as far as the file reaches, the rest blanked, and what was read is hashed; if the file had been read to its end before, nothing at all happens, and no byte of the buffer changes. |
| `FileCheckSummers.FileCheckSummer.UpdateHashes` | filechecksummer.cpp:164-191 | In each of the three cases both hashes cover exactly what has been read, the short one up to 16384 bytes. |
| `FileCheckSummers.FileCheckSummer.GetFileHashes` | filechecksummer.cpp:194-212 | After any run that reaches the end, the hashes are those of the whole file and of its first min(16384, size) bytes. |
| `FileCheckSummers.FileCheckSummer.RollingChecksum` | filechecksummer.h:158-159 | Whenever the window lies inside the file, the rolling checksum is the CRC of the bytes of the file at the offset. |
| `FileCheckSummers.FileCheckSummer.WindowChecksum` | filechecksummer.h:158-159 | Before the end of the file, it is always the CRC of the bytes in the window. |
| `FileCheckSummers.FileCheckSummer.WindowHoldsBlock` | filechecksummer.h:118-121 | The window starts with the bytes of the file at the offset, as far as the file reaches. |
| `FileCheckSummers.FileCheckSummer.EndMeansRead` | filechecksummer.cpp:194-212 | At the end of the file all of it has been read. |
| `FileCheckSummers.FileCheckSummer.Hash` | filechecksummer.cpp:215-224 | The hash of the window, which is that of the file's bytes when the window lies inside the file. |
| `FileCheckSummers.FileCheckSummer.ShortChecksum` | filechecksummer.cpp:226-238 | For any length up to that of the block it is the CRC of that many bytes of the file, padded with zeros; for greater lengths, of what the window holds. |
| `FileCheckSummers.FileCheckSummer.ShortHash` | filechecksummer.cpp:240-255 | The same for the hash. |
| `ShortWindows.PaddedExactly` | filechecksummer.cpp:72-161 | After any steps and jumps, the window is the bytes of the file padded with zeros exactly if the bytes that `Behind` gives, computed from the file and the list of moves alone, are all zero. |
| `ShortWindows.WindowIs` | filechecksummer.cpp:72-161 | After any steps and jumps, the window is the bytes of the file at the offset and then those of `Behind`. |
| `ShortWindows.LaidOutOnce` | filechecksummer.cpp:132-161 | As long as the buffer has not been laid out again since the file was used up, zeros pad the window. |
| `ShortWindows.SteppedExactly` | filechecksummer.h:136-175 | After single steps alone, zeros pad the window exactly if the offset is not behind the last multiple of the block size inside the file, or that multiple is 0, or the bytes of the file between the two are all zero. |
| `ShortWindows.LastBlockHolds` | filechecksummer.cpp:95-128 | After jumping block by block to a last block, as in an undamaged file of several blocks, the window is the rest of the file and then the last bytes of the block before it. |
| `ShortWindows.LastBlockExactly` | filechecksummer.cpp:95-128 | So zeros pad the last window of an undamaged file exactly if those bytes are zeros. |
| `ShortWindows.JumpLeavesStale` | filechecksummer.cpp:95-128 | For the file 1, 2, 3, 4, 5, 6 and blocks of four bytes, a jump of 4 leaves the window 5, 6, 3, 4. |
| `ShortWindows.StepsLeaveStale` | filechecksummer.h:136-175 | For the same file, five steps leave the window 6, 0, 0, 5. |
| `ShortWindows.MoveAlong` | filechecksummer.cpp:54-128 | After `Start` and any list of `Step` and `Jump` inside the file, the buffer of the object is the one that these statements are about. |
| `Windows.MoveFits` | filechecksummer.cpp:95-128 | Every move keeps the data of the file in the buffer, from the window on as far as the file has been read. |
| `VerificationTables.VerificationHashTable.SetLimit` | verificationhashtable.cpp:51-65 | The table has a power of two of buckets, from 256 to 65536, and at least as many as the limit if it can. |
| `VerificationTables.VerificationHashTable.Insert` | verificationhashtable.h:131-155 | The entry is added, in the tree or at the end of a chain, and no other block or order of blocks changes. |
| `VerificationTables.VerificationHashTable.Load` | verificationhashtable.cpp:68-107 | The entries of a file are added in order, each pointing to the next one, the last to none, the first marked; entries of other files keep their value. |
| `VerificationTables.VerificationHashTable.Search` | verificationhashtable.h:158-177 | If any entry below the start has the crc, one is found, and all others with that crc are below it. |
| `VerificationTables.VerificationHashTable.SearchHash` | verificationhashtable.h:180-201 | From the entry found by crc, an entry with the hash is found if there is one below. |
| `VerificationTables.VerificationHashTable.Lookup` | verificationhashtable.h:318-332 | After any sequence of loads, an entry is found exactly if one with that crc and hash was inserted, and its chain is exactly those entries in the order of insertion. |
| `VerificationTables.VerificationHashTable.FindMatch` | verificationhashtable.h:265-443 | The expected entry is returned if it matches; a single match is returned or not by the rules for complete files, lengths, first blocks and blocks already found; of several matches, the first unused one of the right length in the preferred file, or else in any file, or else it is a duplicate. |
| `VerificationTables.VerificationHashTable.Single` | verificationhashtable.h:336-393 | What becomes of the only match: the rules for complete files, lengths, first blocks, the suggested entry and blocks already found, in that order. |
| `VerificationTables.VerificationHashTable.AnswerFits` | verificationhashtable.h:318-442 | An entry that had not been suggested has the checksum and hash of the window, and near the end of the file the length of what is left. |
| `VerificationTables.VerificationHashTable.Choose` | verificationhashtable.h:395-442 | On a chain of two or more: the first usable entry of the preferred file if there is one, otherwise the first usable entry, otherwise none and a duplicate. |
| `VerificationTables.InsertKeeps` | verificationhashtable.h:131-155 | Linking a new entry where the walk ended keeps the search order, the bounds and the chains of the whole forest. |
| `VerificationTables.KeyOrder` | verificationhashtable.h:67-80 | The comparison operators are one total order on pairs of crc and hash. |
| `VerificationTables.KeyOnce` | verificationhashtable.h:131-147 | No two tree nodes have the same crc and hash. |
| `VerificationTables.BelowChild` | verificationhashtable.h:133-142 | Every node below another one is in the subtree that its key says. |
| `VerificationTables.ChainIs` | verificationhashtable.h:149-154 | The chain from a tree node holds all entries with its crc and hash and no other, in ascending order of insertion. |
| `Scans.LookForMatch` | par2repairer.cpp:1976-1984 | The scanner shows the table checksum, hash and length of its window, which is the one that the moves so far lead to, and for the last block of a file checksum and hash of a padded part of it; the answer is that of `FindMatch` for it. |
| `Scans.AnswerHolds` | verificationhashtable.h:265-443 | An entry that is found has the crc and hash of the window, or of as much of it as the block is long and zeros; it lies in the file unless it is the one that had been expected. |
| `Scans.WholeBlock` | par2repairer.cpp:1981-1984 | A match of a whole block is the block in the file, by crc and hash of the bytes there, exactly if the file reaches that far. |
| `Scans.MatchIsData` | par2repairer.cpp:1981-1984 | A match of a block of any length, barring collisions of both crc and hash, is the block in the file exactly if the file reaches that far, and then the bytes are its data; otherwise the file ends in the start of the data, and what the window held behind it is the rest. |
| `Scans.ScanStep` | par2repairer.cpp:1951-2061 | One turn of the loop: what the window after the moves so far shows, the answer of the table, the new values of all variables of the scan, and how far the window moves. |
| `Scans.StepGood` | par2repairer.cpp:1981-2061 | Such a turn keeps all matches genuine, in order and apart, and the full-match bookkeeping right. |
| `Scans.StepOnTrack` | par2repairer.cpp:1981-2061 | In the scan of an undamaged file, such a turn finds the next block. |
| `Scans.ScanDataFile` | par2repairer.cpp:1885-2233 | The result is that of turns of the loop to the end of the file; every match was seen in a window at its offset, they do not overlap, and a match that was not expected lies in the file; the blocks recorded are exactly those matched; the hashes are those of the file; a full match is reported exactly if the turns allow it (`ScanSuccessors.FullExactly`) and count, size and both hashes agree, and then the blocks found follow each other from start to end of the file; and an undamaged file whose blocks have not been found before, or only in other data files and no other is the same, is reported with all its blocks, and as a full match if its description agrees. |
| `Scans.HashNumberDetermines` | verificationhashtable.h:67-80 | Treating hashes as numbers loses nothing. |
| `ScanResults.WholeMatch` | par2repairer.cpp:2017-2022 | Among the matches of a scan, one of a whole block is the block in the file exactly if the file reaches that far, as it does unless the match was the one expected. |
| `ScanResults.MatchInFile` | par2repairer.cpp:2017-2022 | The same for blocks of any length, if the window of the match, and as much of it as the block is long, are not a collision of both crc and hash; and then the bytes of the file are the data. |
| `ScanResults.FoundByScan` | par2repairer.cpp:2530-2570 | So the blocks recorded by scans, if they lie in their files and the bytes there are not a collision, are what `FileRepair.RepairFiles` asks for as found blocks. |
| `ScanResults.FitsExactly` | verificationhashtable.h:265-443 | An entry that is found fits what is left of the file exactly unless the last block of a source file was expected, has been suggested, and is longer. |
| `ScanResults.PastTheEndExactly` | verificationhashtable.h:279-300 | An expected last block that is longer than what is left is reported, barring a collision at this window, exactly if its data is the rest of the file and then what the moves have left behind the end. |
| `ScanResults.DescribeThenScan` | par2repairer.cpp:1885-2233 | Load the description of a file into the table and scan the unchanged file as its own target: a full match, with every block where it is. |
| `ScanResults.IntactInFile` | par2repairer.cpp:1981-1984 | The blocks of an undamaged file lie in it, without any assumption on collisions. |
| `ScanResults.TruncatedFile` | verificationhashtable.h:279-300 | For a source file of two equal blocks, of any contents and any size above one byte, cut off anywhere in the second one, the scan reports both blocks, the second one reaching past the end of the file. |
| `ScanCoverage.Covered` | par2repairer.cpp:1951-2061 | Every offset that the scan has passed has had a window, or lies inside a jump behind a match, which is reported, or a duplicate. |
| `ScanCoverage.BlockSeen` | par2repairer.cpp:1976-1981 | A window inside the file at a block that has not been found, and that no other entry is the same as, is a match, of that entry or of the expected last one of a file. |
| `ScanCoverage.Resynchronises` | par2repairer.cpp:1951-2061 | So whatever else is damaged, such a block is reported, or something at the same place is, or the scan jumped over its start. |
| `ScanSuccessors.SuccessorFound` | verificationhashtable.h:276-316 | Whatever else the file holds and the type of match so far: if a match ends inside the file and the next block of its source file is there, which is the last one of it, or has not been found yet, then the next match is that block at that place. |
| `ScanSuccessors.FullExactly` | par2repairer.cpp:1986-2052 | What is found may be a full match exactly if every turn was a match, the first one that of a first block at the start of the file and every other one that of the next block; and the source file is that of the first match. |
| `ScanRepair.VerifyDataFiles` | par2repairer.cpp:1714-1765 | Data files are scanned one after the other, and for each the blocks matched in the ones before count as found, in the last data file with a match, and exactly the source files of full matches as complete; a block is located exactly if some scan has a match of it, in the last data file whose scan has one and at the offset of its last match there, where a window has shown it; a source file that counts as complete has the size and hashes of a data file. |
| `IntactFiles.TurnsOnTrack` | par2repairer.cpp:1951-2061 | Any turns of the loop over an undamaged file have found its blocks one after the other, from the first. |
| `IntactFiles.SourcesInPlace` | par2repairer.cpp:1714-1765 | If the first data files are undamaged source files, each another one, they are found to be complete and all their blocks are located; if there are no other data files, each block in its own file, where it starts there. |
| `IntactFiles.VerifySources` | par2repairer.cpp:1543-1660 | Verifying such data files gives these locations and complete files. |
| `IntactFiles.BlockReadable` | par2repairer.cpp:2530-2570 | The blocks of such a file can be read at these locations. |
| `AnyDataFiles.NotAgain` | verificationhashtable.h:324-334 | No turn of the loop finds a block of a source file that is complete, if no other block is the same as one of it. |
| `AnyDataFiles.StillFound` | verificationhashtable.h:343-369 | Whatever blocks of an undamaged file have been found in other data files before, its scan finds them all again. |
| `AnyDataFiles.FileInPlace` | par2repairer.cpp:1714-1765 | A source file that is undamaged somewhere among the data files, and no block of which is the same as another: whatever the other data files are, unless one of them collides with it in size and both hashes, it is complete, and all its blocks are located where they start in a copy of it. |
| `AnyDataFiles.VerifyAnyFiles` | par2repairer.cpp:1543-1708 | Verifying data files among which there are such source files locates all of them. |
| `ScanRepair.RepairLocated` | par2repairer.cpp:2530-2626 | From those locations and recovery packets, barring collisions where the scans looked, the targets end up with the data of all blocks exactly if every location can be read and the matrix can be solved. |
| `PacketScans.FindMagic` | par2repairer.cpp:504-545 | The buffered search stops at the first offset with the magic, or behind the last possible header, for every buffer size. |
| `PacketScans.HashPacket` | par2repairer.cpp:558-586 | Hashing the packet from the header and then piece by piece, up to a 64-bit sum of offset and length, gives the hash of all but its first three fields. |
| `PacketScans.FindPacket` | par2repairer.cpp:473-591 | It stops at the first offset at or after the given one where the program takes something for a packet, with 64-bit sums, or behind the last one. |
| `PacketScans.AcceptedExactly` | par2repairer.cpp:549-591 | What the program takes for a packet, with 64-bit sums, is exactly a packet, or a header whose offset and length wrap around and whose hash is that of the rest of the header. |
| `PacketScans.WrapGoesBack` | par2repairer.cpp:643 | Behind such a header the offset goes back. |
| `PacketScans.SkipTo` | par2repairer.cpp:506-538 | Offsets at which nothing is taken for a packet may be skipped. |
| `PacketScans.EndsExactly` | par2repairer.cpp:472-644 | The scan ends exactly if it never comes to an offset twice. |
| `PacketScans.CleanScan` | par2repairer.cpp:472-644 | It ends and has taken for packets exactly the packets of the simple scan, if and only if that scan reaches no header that wraps around. |
| `PacketScans.EndlessScan` | par2repairer.cpp:643 | 64 zeros and a header with length 2^64 - 64 and the hash of its own last 32 bytes: it is taken for a packet, and the scan starts again at offset 0, for ever. |
| `PacketScans.PacketsApart` | par2repairer.cpp:472-644 | The packets of the simple scan are in ascending order and do not overlap. |
| `PacketScans.Par2Repairer.LoadPacketsFromFile` | par2repairer.cpp:469-644 | Whenever the scan ends, what has been handed on are, in order, exactly those of the packets it came to whose set id is that of the very first one seen and whose type is that of recovery, verification, description, main or creator packets. |
| `PacketScans.Par2Repairer.LoadAndAdvance` | par2repairer.cpp:593-643 | After a packet the scan goes on at the 64-bit sum of offset and length, and comes to the next packet of its path or to the end. |
| `Pipeline.InvStep` | par2creator.cpp:1320-1345 | Every atomic step of any worker keeps the invariant: lock word = -2 * (holders + failed attempts in flight), exclusive rows, no lost update, each input at most once per row. |
| `Pipeline.InvAlways` | par2creator.cpp:1375-1397 | It holds after every interleaving of any number of workers. |
| `Pipeline.MutualExclusion` | par2repairer.cpp:2692-2736 | After every interleaving no two workers hold the same row. |
| `Pipeline.EveryInputOnce` | par2repairer.cpp:2764-2786 | Once all workers have finished, every row has taken in every input exactly once, in some order, and every lock word is 0. |
| `PipelineProgress.FreeRowTaken` | par2creator.cpp:1320-1345 | An attempt at a row that no other worker is at work on succeeds: after four steps the row is processed with the input, its lock word is as before, and the row is no longer to be done. |
| `PipelineProgress.BusyRowPutOff` | par2creator.cpp:1320-1345 | An attempt at a row in use is undone: after two steps all rows and lock words are as before, and the worker goes on to another row that it has still to do, if there is one. |
| `PipelineProgress.CanFinish` | par2repairer.cpp:2692-2736 | After any schedule, whatever is locked and put off, the workers can still come to the end. |
| `Pipeline.WordsStep` | par2creator.cpp:1324-1330 | The subtract-2 attempt, its undo and the release keep the lock word in step with the workers. |
| `ConcurrentRows.DotInPermutation` | par2creator.cpp:1320-1345 | The order in which inputs are added makes no difference to a row. |
| `ConcurrentRows.ConcurrentEqualsSerial` | par2creator.cpp:1375-1397 | For every interleaving the finished rows are those of the serial loop, whatever was deferred. |
| `ConcurrentChunks.ConcurrentChunk` | par2repairer.cpp:2692-2786 | For every interleaving, on buffers of bytes, the rows that the concurrent loop leaves are the parts of the recovered blocks that `FileRepair` writes for the chunk. |
| `HashOrder.CreatePipelineState.TryToAcquire` | buffer.cpp:76-93 | A buffer is only handed out if nothing refers to it: it is idle and not waiting to be hashed or taken out to be. |
| `HashOrder.CreatePipelineState.BackOff` | buffer.cpp:86-92 | A failed attempt undone leaves the reference counts right. |
| `HashOrder.CreatePipelineState.Release` | buffer.cpp:107-120 | Releasing leaves the reference counts right, and deferred buffers alive. |
| `HashOrder.CreatePipelineState.Read` | par2creator.cpp:183-198 | Buffers take the blocks of all files in order, one after the other; at the end of input the buffer is kept and nothing else changes. |
| `HashOrder.CreatePipelineState.TryToUpdateHashes` | par2creator.cpp:101-177 | Without interruption, the block has then been hashed or deferred, with all blocks behind it that had been waiting, and no other block is affected. |
| `HashOrder.CreatePipelineState.Arrive` | par2creator.cpp:101-133 | A buffer that reaches the hashing stage while no thread is at work on its file starts to be hashed or is deferred with a reference of its own. |
| `HashOrder.CreatePipelineState.FlushTurn` | par2creator.cpp:124-155 | One turn of the loop of the thread at work on a file: its next block is hashed, a buffer that had been deferred is released, and the following block is taken out if it had been deferred; between the turns other threads may take any of their steps. |
| `HashOrder.CreatePipelineState.Complete` | par2creator.cpp:137-146 | Once all blocks have been read and passed, no file is left with an entry, and every file has been hashed block by block in order 0, 1, ..., n - 1, each exactly once. |
| `HashProgress.NothingDeferred` | par2creator.cpp:101-177 | When every block read so far has arrived and no thread is at work, nothing is deferred. |
| `HashProgress.RunToEnd` | pipeline.h:168-193 | The pipeline cannot get stuck: from every state that its threads can have led it to, with at least one buffer, there are steps to its end, where every block of every file has been hashed in order. |
| `HashOrder.LastTurn` | par2creator.cpp:137-146 | When the last block of a file is hashed nothing is deferred for it, and its entry can be erased. |
| `HashOrder.TurnKeeps` | par2creator.cpp:124-155 | A turn keeps references, order and data of all files right. |
| `HashOrder.TurnArrives` | par2creator.cpp:124-155 | A turn changes nothing about which blocks have arrived at the reorder buffer. |
| `HashOrder.AllHashed` | par2creator.cpp:101-177 | The conservation of blocks (unread, queued, deferred or hashed) leaves only hashed ones at the end. |
| `DeferredHashing.MakeCalls` | par2creatorsourcefile.cpp:369-411 | The calls of `UpdateHashes` in block order give the complete description of a file. |
| `DeferredHashing.HashedByPipeline` | par2creator.cpp:101-177 | So do the calls that the pipeline has made when it is done, in whatever order buffers had arrived. |
| `HashOrder.Recount` | pipeline.h:168-206 | A change of one buffer that keeps its own balance of references keeps the whole state consistent. |
| `BlockSizes.Par2Creator.ComputeBlockSizeAndBlockCount` | par2creator.cpp:454-610 | In every successful case the count is the sum of the blocks of all files and at most 32768; a given size is kept; a given count gets a multiple of four, and when it lies between the number of files and the number of words, the size whose count is closest. |
| `BlockSizes.Par2Creator.Search` | par2creator.cpp:512-595 | No block size at all has a count closer to the requested one than the size chosen; and of several closest sizes the lower bound is chosen if it is one, otherwise the upper bound if it is one. |
| `BlockSizes.BracketsDecide` | par2creator.cpp:563-592 | Once the bounds have met, the best of the sizes tried is the best of all. |
| `BlockSizes.LowerBracket` | par2creator.cpp:516 | The lower bound has at least as many blocks as requested. |
| `BlockSizes.UpperBracket` | par2creator.cpp:517 | The upper bound has at most as many. |
| `BlockSizes.CountMono` | par2creator.cpp:530-534 | Greater sizes never have more blocks. |
| `BlockSizes.CountWords` | par2creator.cpp:533 | Counting in words agrees with counting in bytes for four times the size. |
| `Volumes.ComputeRecoveryFileCount` | par2creator.cpp:670-735 | Which combinations of scheme and request are refused; otherwise without blocks there are no files, in the limited scheme as many full-sized files as leave less than two of them, but at least one, and floor(log2) + 1 for the rest, and else as many as requested, or floor(log2) + 1 of the number of blocks without a request. |
| `Volumes.DigitsBounds` | par2creator.cpp:697-700 | The loop counts floor(log2 n) + 1. |
| `Volumes.AllocateUniform` | par2creator.cpp:1018-1032 | The files partition the exponents in order, and their counts differ by at most one. |
| `Volumes.AllocateVariable` | par2creator.cpp:1034-1059 | Whatever the platform gives for `1 << n`, unless it is 1, the files partition the exponents in order, none is left over, and each has twice as many as the one before, from the smallest power of two that is enough on, or what is left. |
| `Volumes.EnoughExactly` | par2creator.cpp:1040-1045 | The loop for the number of blocks in the smallest file ends exactly if `1 << n` has not given 1, or there are no blocks. |
| `Volumes.AllocateLimited` | par2creator.cpp:1061-1100 | The files partition the exponents in order although they are allocated from both ends: files with as many blocks as the largest source file at the top, and at the bottom twice as many as the one before, from one on, or what is left; none exceeds the largest file's blocks. |
| `Volumes.ChainPartitions` | par2creator.cpp:1004-1107 | Every exponent of the range is in exactly one file, ranges ascend in file order, and no other exponent is in any. |
| `PacketLayouts.Allocate` | par2creator.cpp:1004-1107 | For every scheme the files partition the exponents from the first one on, with the numbers of blocks of that scheme, and the extra file is empty, with the exponent that the scheme leaves. |
| `PacketLayouts.OneSet` | par2creator.cpp:1171-1185 | A file without recovery blocks has one copy of every critical packet, each with the room it needs. |
| `PacketLayouts.Spread` | par2creator.cpp:1186-1227 | A file with c > 0 blocks has its recovery packets in order and floor(log2 c) + 1 copies of every critical packet, each with the room it needs, spread so that the number after each recovery packet is its fair share. |
| `PacketLayouts.AllPaid` | par2creator.cpp:1213-1225 | The accumulator ends at zero. |
| `PacketLayouts.LayOutFile` | par2creator.cpp:1163-1241 | Every packet has the room of its own length, and the packets tile the file from 0 to its size without gap or overlap, one creator packet last. |
| `PacketLayouts.LayOutFiles` | par2creator.cpp:1150-1243 | Every file is laid out like that, and over all files recovery packet k has exponent first + k, that of row k of the matrix. |
| `VolumeFiles.PacketMoves` | par2repairer.cpp:548-591 | Whether there is a packet depends on its own bytes only. |
| `VolumeFiles.WriteVolume` | par2creator.cpp:1605-1696 | Writing every packet of a layout where it was placed, recovery packets in chunks, leaves each one intact, and a scan of the file finds exactly these packets, in order. |
| `VolumeFiles.CreateVolume` | par2creator.cpp:1150-1243 | So every recovery block of a laid out file is in a packet that the scan finds, with its exponent. |
| `VolumeFiles.WriteAndLoad` | par2repairer.cpp:593-640 | From a volume whose critical packets are verification, description and main packets of the set, a repair loads every packet that was placed, in order, and has got the id of the set. |
| `SourceFiles.ReadData` | datablock.cpp:51-83 | The buffer holds the data of the block from the position on, and zeros beyond the block. |
| `SourceFiles.WriteData` | datablock.cpp:88-113 | Only bytes inside the block are written, the number written is reported, and all others keep their value. |
| `SourceFiles.BlockStarts` | par2creatorsourcefile.cpp:75 | Exactly the blocks below the count start inside the file. |
| `SourceFiles.BlocksTile` | par2creatorsourcefile.cpp:357-367 | The blocks of a file follow each other without gap from its first byte to its last, none empty. |
| `SourceFiles.InitialiseFileBlocks` | par2creatorsourcefile.cpp:357-367 | The blocks of one file are set up that way. |
| `SourceFiles.InitialiseSourceBlocks` | par2creatorsourcefile.cpp:357-367 | All files together fill exactly the planned number of blocks, in file order. |
| `SourceFiles.Par2CreatorSourceFile.HashAtOnce` | par2creatorsourcefile.cpp:178-326 | For every file and block size, hashing on opening gives the hash of the file, of its first 16k, and hash and CRC of every block padded with zeros. |
| `SourceFiles.Par2CreatorSourceFile.UseData` | par2creatorsourcefile.cpp:231-266 | A piece of the file is split over block boundaries, however it lies. |
| `SourceFiles.Par2CreatorSourceFile.HashWhole` | par2creatorsourcefile.cpp:209-229 | The 16k hash is taken in passing without disturbing the hash of the file. |
| `SourceFiles.Par2CreatorSourceFile.FinishLast` | par2creatorsourcefile.cpp:290-305 | The last short block is completed with zeros. |
| `SourceFiles.Par2CreatorSourceFile.UpdateHashes` | par2creatorsourcefile.cpp:369-396 | A padded block gives its entry, and only its bytes inside the file go into the hash of the file. |
| `SourceFiles.Par2CreatorSourceFile.FinishHashes` | par2creatorsourcefile.cpp:398-411 | The hash of the file. |
| `SourceFiles.Par2CreatorSourceFile.Hash16k` | par2creatorsourcefile.cpp:144-172 | The hash of the first 16k, or of all of a shorter file. |
| `SourceFiles.Par2CreatorSourceFile.HashLater` | par2creatorsourcefile.cpp:369-411 | Hashing block by block later gives the same description of a file. |
| `SourceFiles.RoutesAgree` | par2creatorsourcefile.cpp:144-326 | Both routes give the same hashes and CRCs. |

## Left out

- Directories, file names, Unicode, the command line, progress output and timing: plumbing around the logic. A file is a sequence or an array of bytes, and reads and writes succeed.
- Assembly, MMX, SSE and CUDA versions of the inner loops (reedsolomon.cpp:277-482, cuda.cpp): only the portable loops are modelled, for little-endian machines.
- The compression rounds of MD5 (md5.cpp:75-178): the hash is proved for any compression function in their place.
- TBB's scheduler and fairness: a schedule may let workers retry for ever. Claimed are safety, the state after completion, and that completion can be reached from every state; the read stage keeps its last buffer at the end of input.
- HashOrder.CreatePipelineState.FlushTurn: hashing a block and looking for the next one is one step; only one thread at a time is at work on a file, which the accessor of the code ensures.
- The double buffering of output rows under `DSTOUT`, which par2repairer.h:35 switches off.
- `Galois::operator^=` (galois.h:296-314), whose special case differs from `pow`; `pow` with exponents above Limit.
- Redundancy given as a percentage (par2creator.cpp:615-637): floating point.
- PAR1 repair (par1repairer.cpp): its field, bases and byte loop are here, its file handling is not.
- The fields of main, description, verification and creator packets, and what loading them checks: `PacketScans` states which packets are handed to which set, not what their bodies hold.
- `FirstBlockNumber` values (par2repairer.cpp:1322).
- PacketScans.Par2Repairer.LoadPacketsFromFile: nothing is said of what is loaded in a scan that does not end.
- Volumes.AllocateVariable: a run in which `1 << recoveryfilecount` gives 1 is not followed, since its loop does not end.
- PacketLayouts.Allocate: the same.
- VolumeFiles.WriteVolume: the packets of a file are written one after the other in the order of their places, where the code writes recovery data chunk by chunk, then recovery headers, then critical packets; and critical packets are given as bytes that are packets.
- VerificationTables.VerificationHashTable.Insert: entries are positions in a list in the order of allocation instead of heap pointers, so updates go through the list; destruction is not modelled. Which blocks have been found is a separate value, as it is in the `DataBlock` objects.
- ScanRepair.VerifyDataFiles: all source files have verification packets; matching whole files without them (par2repairer.cpp:1767-1874) is not modelled. All data files given are scanned, where the code stops with extra files once every source file is complete (par2repairer.cpp:1665).
- ScanRepair.RepairLocated: a location that cannot be read is noticed before anything is written, where the code fails at the read.
- Scans.LookForMatch: both hashes of the window are computed before the lookup, where the code computes them only if needed.
- ReedSolomon.ReedSolomon.SetInput: takes the bases as an argument; `Bases.ChooseBases16` and `Bases.ChooseBases8` are the loops that choose them.
- Chunks.ProcessData: the rows of the output buffer are separate arrays instead of parts of one allocation, and a chunk is read into a buffer of its own size.
- Chunks.ChunkSize: a positive chunk needs a memory limit of at least four bytes per row; the command line sets it in units of 1 MiB.
- CreateRepair.ForRepair: recovery packets come in the order of the hash map, which is any order; the problem solved is stated for the order given.
