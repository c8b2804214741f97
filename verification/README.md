# DECIMA-8 core: a verified model

This project models the computing core of DECIMA-8 in Dafny 4.11 and proves how it behaves: the flash step of
the tile swarm, the bake blob with its two writers and one parser, the checksum that seals it, and the tape
inspector that drives a swarm. `dafny verify dfyconfig.toml` checks everything.

How the files follow the program:

| files | part of the program |
|---|---|
| `Machine.dfy`, `Bytes.dfy` | fixed-width words, bit masks, little-endian bytes, chunks |
| `Grid.dfy`, `Activation.dfy` | routing edges forwards and backwards, the activation closure and its in-place loop |
| `TileStep.dfy`, `Winner.dfy`, `Bus.dfy` | row pipeline, decay and fuse; arbitration; bus accumulation |
| `Flash.dfy`, `Runs.dfy`, `Chain.dfy`, `Ragged.dfy` | one flash as a function of state, whole runs of flashes and resets, concrete bakes |
| `Swarm.dfy`, `Cascade.dfy` | the swarm object with its arrays and operations; machines in a row |
| `CrcTable.dfy`, `Crc.dfy`, `CrcPowers.dfy`, `CrcDeviation.dfy`, `CrcMissed.dfy` | the checksum table, its fold, the polynomial, how far the two are apart, and what that costs |
| `BakeFormat.dfy`, `BakeParser.dfy`, `BakeReader.dfy`, `Corruption.dfy` | record formats, the parser as a function, its loops, damaged blobs |
| `BakeWriter.dfy`, `Serializer.dfy`, `BlobBuffer.dfy`, `BakeSaver.dfy`, `BakeGen.dfy` | record lists, the serializer, the buffer code, baking, the generator |
| `Overrun.dfy`, `SavedOverrun.dfy`, `Runaway.dfy`, `WideViews.dfy`, `FlatRows.dfy` | blobs and saved bakes that drive the parser, the bake or the first flash into undefined behaviour, and exactly when |
| `OneByte.dfy` | single damaged bytes |
| `ByteLayout.dfy`, `BlobLayout.dfy` | the format in literal bytes and offsets, and the parser's verdicts |
| `Tape.dfy` | frames, segments, the inspection loop |

Conventions. A tile's baked fields, which the C code keeps in parallel arrays, are one record per tile; runtime
fields (`thr_cur`, `locked`, `locked_before`, `active`, `fire`, `row_out`, `v_state`) are arrays that the methods of
class `Swarm` update in place. 0/1 bytes are booleans. `bus_r_allowed` is set at exactly the places where `active`
is, so the model keeps one array for both. Every loop and every state-changing method is proved equal to a function
on values (`Flash.FlashState`, `BakeParser.Parse`, `Serializer.Serialize`, ...), and the results below are about those
functions, for every grid, every bake, every state and every byte string unless a row says otherwise. Widths,
wrap-around and saturation are written out. What those functions mean is also stated without them, in terms of the
tiles' fields, of coordinates and of literal bytes (`Grid.EdgeIsPointing`, `TileStep.UnlockedAmount`,
`Bus.WritesOnAnyRows`, `Flash.FlashOfTile`, `BakeSaver.BakedInFields`, `BlobLayout.SerializedBytes`, ...).

## What turned out to be exact conditions

* The forward and the backward view of the activation graph agree if and only if the tile count is a multiple of the
  row width or at most one row, whether all lock patterns are asked for or only those a run brings about
  (`Ragged.ViewsAgreeExactlyOnRectangles`). In a ragged grid the last tile is not allowed to write for a locked parent to
  its north-east, although that parent's south-west mask activates it; one flash of a fresh swarm shows it
  (`Ragged.RaggedDisagreement`).
* The parser's cursor stays inside every blob of a given size if and only if that size is a multiple of four or below 37
  (`Overrun.CursorSafeExactly`): it skips padding without looking whether the blob has it. It keeps to the view's arrays
  on every blob of a given size if and only if that size is below 8254 (`Overrun.ArraysSafeExactly`): it does not check
  a topology's tile count.
* Neither does baking, which copies as many entries as the last topology of an accepted blob names. All accepted blobs of
  n bytes fit the swarm's tables if and only if n is no multiple of four, below 112, or 116
  (`WideViews.AcceptedFitsExactly`). So baking keeps to its memory on all blobs of n bytes if and only if n is below 37, a
  multiple of four below 112, or 116 (`WideViews.BakeSafeExactly`).
* A baked row width is zero if and only if the topology's is and the active count is none of 0, 256, 512, 1024, 2048 and
  4096 (`FlatRows.WidthExactly`). A flash then divides by zero if and only if a locked BUS_R tile has a mask that asks
  for a column, or a BUS_W tile does not come out of the read phase locked (`Flash.WidthZeroDivides`). A blob whose bake
  does so in the first flash: `FlatRows.FlatBakeDivides`.
* A saved bake comes back if and only if its tile count is a multiple of four (and ranges, lanes, domains and readout
  mode are what the parser wants): the serializer writes no padding, the parser skips it
  (`Serializer.RoundTripExactly`). Otherwise the blob is not accepted, but not always refused either: the parser gives
  every saved bake of n tiles a verdict if and only if n is a multiple of four or at most five, and for every other n
  some saved bake drives it off the blob (`Runaway.SavedVerdictExactly`, `Runaway.RunawayOverruns`).
* Saving, baking and saving again gives the same bytes if and only if the bake is savable and its active count is not
  zero (`BakeSaver.SaveBakeSaveExactly`).
* The 16-bit decay of a locked tile is decay towards zero if and only if the subtraction does not wrap; over all
  accumulators that is so up to decay 32768 (`TileStep.DecayLockedExact`, `TileStep.DecayLockedExactForAll`). The
  contract allows decays up to 32767, so the wrap is outside it.
* Table entry 0xF5 is not the CRC-32 entry. The checksum of a message is its CRC-32 if and only if the errors of its
  lookups of that entry, each carried to the end, cancel (`CrcDeviation.IsCrc32Exactly`). Lookups within 32 consecutive
  bytes never do (`CrcDeviation.CloseLookups`), from 33 bytes on they can (`CrcDeviation.FifteenLookupsCancel`). A
  single line feed already gets a wrong checksum (`Crc.LineFeedIsNotCrc32`).
* Error detection is not that of CRC-32: there are two messages of 26 bytes that differ in two bits, have equal checksums
  and different CRC-32 values (`CrcMissed.TwoBitErrorMissed`). Two messages have equal checksums if and only if their
  CRC-32 registers differ by what their deviations differ by (`CrcMissed.CollisionExactly`); among messages that never
  look the entry up detection is that of CRC-32 (`CrcMissed.ClearCollision`). Damage within four consecutive bytes is
  always detected (`Crc.WindowDetected`).
* If one byte of a saved or generated blob that the parser accepts changes, the parser still reads the same bake if and
  only if it is one of the two bytes of the closing checksum record's flag word, and rejects the blob otherwise
  (`OneByte.WrittenOneByte`, `OneByte.SavedOneByte`, `OneByte.GeneratedOneByte`).
* After a reset of every domain the tiles cannot be told from a fresh swarm's by any tape, but the BUS can: a just-fired
  parent lets its inactive child drive the row it computed before the reset (`Chain.StaleDriveShows`). The BUS of a
  flash is independent of earlier rows if and only if every permitted writer was driven in it or the driven ones
  saturate all eight lanes by themselves (`Runs.BusForgetsExactly`).

Where the code and `docs/CONTRACT_v02.md` differ, the model follows the code: a permitted BUS_W tile may write without
being locked itself and with a row from an earlier flash; a locked tile's row is recomputed; auto-reset spares only the
winners, not their ancestors; baking keeps the runtime state and the double-strait flag.

## Model

| member | source | states |
|---|---|---|
| Activation.ActiveSetIsClosed | src/swarm.c:450-545 | the activation set contains all BUS_R tiles and everything a locked member points at |
| Activation.ActiveSetUnique | src/swarm.c:450-545 | a seeded, closed set that lies inside every other one is the activation set |
| Activation.AnyOrderReachesActiveSet | src/swarm.c:468-545 | after visits in any order, as soon as a round over all tiles in any order changes nothing the marks are the activation set |
| Activation.AnyRoundsReachActiveSet | src/swarm.c:468-545 | as many rounds as there are tiles, each over all tiles in an order of its own, always reach the activation set |
| Activation.ActiveIffRelayed | src/swarm.c:460-545 | a tile is active exactly when a chain of edges through locked tiles leads to it from a BUS_R tile |
| Activation.ActiveMonotone | src/swarm.c:468-545 | more locks never deactivate a tile |
| Activation.Touch | src/swarm.c:480-543 | one child block marks exactly its routed in-grid neighbour and raises the changed flag exactly when that is new |
| Activation.ActivateChildren | src/swarm.c:479-543 | the eight blocks mark exactly the tile's edges |
| Activation.ActivatePass | src/swarm.c:471-545 | one in-place pass is a round of visits in ascending order; it stays inside every closed set and leaves the marks closed if it changed nothing; it stops at the first active locked tile that divides by zero |
| Activation.ComputeActive | src/swarm.c:455-545 | the multi-pass loop terminates and marks exactly the activation set, or divides by zero exactly when that set has a locked tile that asks for a column of width zero |
| Grid.EdgeIsUnitStep | src/swarm.c:479-543 | an edge moves by its direction's unit step in row and column; no wrap-around |
| Grid.EdgeInRange | src/swarm.c:479-543 | both ends of an edge are active tiles |
| Grid.EdgeIsPointing | src/swarm.c:479-543 | tile p activates tile q exactly if one of p's eight masks, by its field name, points at q's row and column |
| Grid.WriteSourceExact | src/swarm.c:361-406 | the backward scan sees exactly the locked parents along forward edges, except two ragged-row edges |
| Grid.WriteSourceInCoordinates | src/swarm.c:361-406 | a tile may write exactly if it is locked or a locked tile's mask points at its row and column, less one diagonal pair in ragged grids |
| Grid.ForwardBackwardAgree | src/swarm.c:361-406 | on complete rows or a single row it is: locked itself or some locked parent |
| Ragged.RaggedDisagreement | src/swarm.c:365-390 | on every other grid a bake whose first flash from fresh locks a tile that activates the last one but does not let it write |
| Ragged.ViewsAgreeExactlyOnRectangles | src/swarm.c:361-406 | the views agree for all bakes and locks, and for all bakes and reachable locks, if and only if the tile count is a multiple of the width or at most one row |
| TileStep.ComputeRowRaw | src/swarm.c:294-333 | the 16-bit loops give the mathematical row sums and drives: nothing wraps |
| TileStep.ComputeDeltaRaw | src/swarm.c:335-344 | the 16-bit sum of the rows is the mathematical sum |
| TileStep.RowSum | src/swarm.c:303-311 | a partial row sum of k terms stays within 225 k |
| TileStep.Delta | src/swarm.c:335-344 | the sum over k rows stays within 1800 k |
| TileStep.DeltaByColumns | src/swarm.c:303-344 | the delta is the inner product of the input with the column weights |
| TileStep.DeltaIsMatrixSum | src/swarm.c:303-344 | the delta is the 64 signed weights times their inputs, entry r * 8 + i taking input i |
| TileStep.WeightSumIsRowTotal | src/swarm.c:313-321 | a drive is scaled by the eight signed weights of its row |
| TileStep.DriveIsNearest | src/swarm.c:313-331 | a drive is the scaled input divided by 56, rounded to the nearest level and capped at fifteen; rows without positive weight sum are silent |
| TileStep.DriveNeverAmplifies | src/swarm.c:313-331 | with three-bit magnitudes no lane leaves stronger than it came |
| TileStep.FullWeightsPassThrough | src/swarm.c:313-331 | full positive weights pass the input unchanged |
| TileStep.DecayLockedExact | src/swarm.c:563-578 | the 16-bit decay stops at zero exactly when it does not wrap |
| TileStep.DecayLockedExactForAll | src/swarm.c:563-578 | for all accumulators that holds exactly for decay up to 32768 |
| TileStep.ProcessTile | src/swarm.c:548-644 | the tile loop's body computes StepTile, and the fresh row whenever it drives |
| TileStep.LockedMeansInRange | src/swarm.c:580-643 | a tile that comes out locked is active, freshly driven and inside its open range; firing needs a bake id |
| TileStep.UnlockedAmount | src/swarm.c:607-626 | an unlocked accumulator takes the whole input, then goes towards zero by the decay and stops there, then is cut to 16 bits |
| TileStep.UnlockedRule | src/swarm.c:628-643 | an unlocked tile fires exactly if its new accumulator is in the open range and there was input, or decay brought it there; priority 7 counts decay only |
| TileStep.LockedAmount | src/swarm.c:562-602 | a locked accumulator goes towards zero by the decay, with the 16-bit wrap, and keeps lock and drive exactly in the range |
| TileStep.AccumulatorKeepsSide | src/swarm.c:610-626 | decay and saturation never move the accumulator across zero or away from it |
| TileStep.DrainDetector | src/swarm.c:607-643 | a priority-7 tile fires exactly when decay brings the accumulator back into the range from beyond it, away from zero |
| TileStep.ThrNormSign | src/swarm.c:246-264 | the telemetry nibble's high bit is the accumulator's sign |
| TileStep.ThrNormSize | src/swarm.c:246-264 | its size is seven times the accumulator over the larger range end, rounded half up and capped |
| TileStep.ThrNormOfNothing | src/swarm.c:251 | a range from zero to zero gives fifteen |
| Winner.WinnerExact | src/swarm.c:662-682 | the one-pass loop reports a tile exactly when it is the fired tile of greatest priority and then least id, and none exactly when none fired |
| Winner.SelectWinners | src/swarm.c:650-692 | winners and their fields, saturated counts, collision and fired bits, and the merged reset mask, in terms of the sets of fired tiles |
| Winner.WinnerInFields | src/swarm.c:662-682 | the winner by the tiles' fields: fired, with a pattern, in the domain, greatest priority, then least number |
| Winner.SelectionOfDomain | src/swarm.c:650-692 | every reported field of a domain by the tiles' fields and by the set of tiles that fired into it |
| Winner.SelectionResets | src/swarm.c:684-692 | the merged mask has exactly the bits of the winners' masks |
| Winner.CollectResets | src/swarm.c:684-692 | a bit of the auto-reset mask is set exactly when some winner's mask has it |
| Bus.BusSumAnyOrder | src/swarm.c:698-716 | visiting the permitted writers in any order gives the same lane sums |
| Bus.AccumulateBus | src/swarm.c:698-731 | each lane is the sum of the permitted writers' rows capped at 15; a clip bit is set exactly when its sum exceeds 15; it divides by zero exactly for an unlocked BUS_W tile in rows of width zero |
| Bus.WritesExactly | src/swarm.c:701-706 | on complete rows a tile writes exactly if it is a BUS_W tile that is locked or has a locked tile pointing at it |
| Bus.WritesOnAnyRows | src/swarm.c:701-706 | on any rows, less one diagonal pair |
| Bus.OnlyWritersCount | src/swarm.c:701-716 | rows of other tiles do not matter |
| Bus.NoWriterSilent | src/swarm.c:701-716 | without BUS_W tiles the BUS is silent |
| Bus.OneWriterIsBus | src/swarm.c:708-716 | a single writer's row is the BUS, lane by lane |
| Flash.WinnerStaysLocked | src/swarm.c:662-774 | a reported winner fired, is inside its range, and is still locked after auto-reset |
| Flash.FlashFuses | src/swarm.c:548-774 | after any flash every locked tile is inside its open range, and every non-winner of a reset domain is exactly zero |
| Flash.ResetKeepsFused | src/swarm.c:863-885 | a domain reset keeps that invariant |
| Flash.InactiveIsDead | src/swarm.c:555-560 | an inactive tile ends with zero accumulator, no lock and no fire |
| Flash.FlashOfTile | src/swarm.c:547-774 | each tile after a flash: its own step on the state and lock before, unless auto-reset wipes it, and the row of this flash or an earlier one |
| Flash.WipedInFields | src/swarm.c:759-774 | auto-reset wipes exactly the tiles of a domain whose bit some winner's mask has, winners excepted |
| Flash.ResetOfTile | src/swarm.c:871-882 | a domain reset zeroes exactly the active tiles whose domain's bit is in the mask, and no row |
| Flash.BusPrecedesResets | src/swarm.c:698-774 | the BUS and the fire flags of a flash do not depend on the reset masks |
| Flash.LoopsDie | src/swarm.c:460-560 | a set without BUS_R tile and without an active locked parent outside is wiped in one flash, cycles included |
| Flash.LockedRowIsFresh | src/swarm.c:591-605 | a locked tile drives the row of this flash |
| Flash.WidthZeroDivides | src/swarm.c:361-541 | when a flash with rows of width zero divides by it |
| Flash.WidthZeroFlashes | src/swarm.c:361-541 | with width zero a bake without BUS_W tiles flashes from a fresh swarm, and from every state exactly when no BUS_R tile asks for a column |
| Runs.RunFuses | src/swarm.c:548-774 | the fuse invariant over all runs that contain a flash |
| Runs.RelaySpeed | src/swarm.c:450-644 | after k flashes and any resets, a swarm that started unlocked is alive only within k - 1 hops of a BUS_R tile |
| Chain.RelaySpeedAttained | src/swarm.c:450-644 | that bound is attained for every k |
| Runs.TapeDependsOnAgreement | src/swarm.c:450-692 | accumulators, locks, fires and winners of any run depend only on accumulators and locks at its start |
| Runs.ResetErasesHistory | src/swarm.c:863-885 | after resetting all domains any tape shows what a freshly created swarm shows |
| Runs.BusForgetsExactly | src/swarm.c:698-731 | the BUS of a flash is the same whatever rows earlier flashes left if and only if every permitted writer was driven or the driven ones sum to 15 on every lane |
| Runs.BusForgetsWhenDriven | src/swarm.c:698-716 | in particular two states with equal accumulators and locks give the same BUS if every permitted writer was driven |
| Chain.StaleDriveShows | src/swarm.c:586-589 | without that, the BUS can differ after a full reset |
| Runs.LockLifetime | src/swarm.c:562-602 | unless the first decay wraps, a lock survives a run exactly when the tile stays active and unreset and its decayed accumulator is still in range |
| Runs.SilenceRunsDown | src/swarm.c:607-626 | a held unlocked tile with an empty range and no input runs down to zero by its decay per flash and never locks |
| Runs.RangeAroundZeroNeverUnlocks | src/swarm.c:562-602 | a range holding zero keeps its lock for as long as the tile is held |
| Runs.RangeAboveZeroExpires | src/swarm.c:562-602 | a range above zero keeps its lock for exactly floor((thr - lo) / decay) held flashes |
| Runs.RangeBelowZeroExpires | src/swarm.c:562-602 | the mirror image for a range below zero |
| Swarm.Swarm.constructor | src/swarm.c:200-216 | a fresh swarm is all zero with the default grid |
| Swarm.Swarm.TakeSnapshot | src/swarm.c:444-453 | locked_before copies the locks, fire is cleared |
| Swarm.Swarm.ProcessTiles | src/swarm.c:547-644 | the in-place tile loop reaches the read-phase state and fire flags |
| Swarm.Swarm.AutoResetDomains | src/swarm.c:759-774 | auto-reset zeroes exactly the wiped tiles |
| Swarm.Swarm.UpdateVState | src/swarm.c:780-786 | every active tile's v_state byte |
| Swarm.VStateFields | src/swarm.c:780-786 | the byte's nibble, locked bit and fire bit read back |
| Swarm.FlagBits | src/swarm.c:748-755 | ready, overflow and collision bits, and the collision mask in the upper half |
| Swarm.Swarm.FlashPhases | src/swarm.c:434-812 | the phases in order reach FlashState, and the snapshot reports it, unless the flash divides by zero, and exactly when it does |
| Swarm.Swarm.FlashImpl | src/swarm.c:412-820 | its guards change nothing; otherwise state, fire flags, snapshot and result are the flash's, or it divides by zero exactly when the flash does |
| Swarm.Swarm.EvFlash | src/swarm.c:826-857 | which status, code and extra for which call; a refused call changes nothing; a double-strait swarm flashes twice; which calls divide by zero |
| Swarm.Swarm.EvResetDomain | src/swarm.c:863-885 | zeroes exactly the tiles of the masked domains |
| Swarm.Swarm.EvBake | src/swarm.c:891-976 | which blobs are refused and with what status, which make it leave its memory, and that an accepted one that fits replaces the tables and nothing else |
| Cascade.Run | src/swarm.c:723-743 | a legal vector fed through any chain of baked machines on which no flash divides by zero succeeds at every stage |
| Crc.ComputeCrc32 | src/crc32_ieee.c:86-94 | the loop computes the fold |
| CrcDeviation.EmptyChecksum | src/crc32_ieee.c:86-94 | the empty message has checksum zero |
| CrcDeviation.CheckValue | src/crc32_ieee.c:86-94 | the digits 1 to 9 have checksum 0xCBF43926, by the table and by the polynomial |
| CrcTable.TableIsCrc | src/crc32_ieee.c:15-80 | every table entry is the polynomial's, except 0xF5 |
| CrcTable.TableTops | src/crc32_ieee.c:15-80 | the entries' top bytes are pairwise distinct |
| Crc.UpdateIsStandard | src/crc32_ieee.c:82-84 | a step is a bitwise CRC-32 step exactly when it does not use entry 0xF5 |
| Crc.CrcIsStandardExactly | src/crc32_ieee.c:86-94 | data and all prefixes get their CRC-32 exactly when the fold never uses that entry |
| CrcDeviation.FoldDeviates | src/crc32_ieee.c:86-94 | the fold is CRC-32 plus the sum of the gaps of entry 0xF5, each carried over the bytes after its lookup |
| CrcDeviation.IsCrc32Exactly | src/crc32_ieee.c:86-94 | the checksum of a message is its CRC-32 exactly when that sum is zero |
| CrcDeviation.CloseLookups | src/crc32_ieee.c:77-94 | if all lookups of the entry lie within 32 consecutive bytes, that is so exactly when there is none |
| CrcDeviation.Craft | src/crc32_ieee.c:82-94 | every pattern of lookups belongs to some message |
| CrcDeviation.FifteenLookupsCancel | src/crc32_ieee.c:77-94 | a message of 33 bytes with lookups and the right checksum |
| CrcMissed.CollisionExactly | src/crc32_ieee.c:86-94 | two messages have equal checksums exactly when their CRC-32 registers and their deviations differ by the same word |
| CrcMissed.ClearCollision | src/crc32_ieee.c:86-94 | if neither looks up entry 0xF5, exactly when their CRC-32 values are equal |
| CrcMissed.TwoBitErrorMissed | src/crc32_ieee.c:77-94 | two messages of 26 bytes that differ in two bits, with equal checksums and different CRC-32 values |
| Crc.LineFeedIsNotCrc32 | src/crc32_ieee.c:77 | one byte for which the checksum is not CRC-32 |
| Crc.FoldInjectiveInState | src/crc32_ieee.c:82-94 | the same data from different states ends in different states |
| Crc.WindowDetected | src/crc32_ieee.c:82-94 | corruption inside any four consecutive bytes changes the checksum |
| Corruption.AcceptedMatches | src/tlv.c:369-383 | an accepted blob carries the checksum of its covered bytes |
| Corruption.DamageIsRejected | src/tlv.c:369-383 | damage to up to four consecutive bytes of the header, of values, padding or flag words of any accepted blob is rejected |
| Corruption.DamagedTypesShow | src/tlv.c:265-397 | with record types damaged too the blob is not accepted, the cursor stays inside it, and it is rejected unless it names more tiles than the view holds |
| OneByte.OneByteExactly | src/tlv.c:265-416 | one changed byte of an accepted blob in orderly layout is ignored exactly in the closing record's flag word, and gets the blob rejected anywhere else |
| OneByte.WrittenOneByte | src/tlv.c:265-416 | the same for every accepted blob laid out by a writer |
| OneByte.SavedOneByte | src/swarm.c:1266-1548 | the same for every savable bake |
| OneByte.GeneratedOneByte | bake_gen/bake_gen.c:106-290 | the same for every generated blob |
| BakeFormat.EntryRoundTrip | src/tlv.c:99-190 | every per-tile entry decodes to exactly the fields it carries, and is refused only for an inverted range |
| BakeFormat.ListRoundTrip | src/tlv.c:89-192 | the same for whole lists, with the first refused tile |
| ByteLayout.ParamsBytes | src/swarm.c:1367-1386 | the thirteen bytes written for a tile's parameters |
| ByteLayout.RoutingBytes | src/swarm.c:1403-1413 | the two flag bytes written for its masks |
| ByteLayout.WeightBytes | src/swarm.c:1432-1447 | the forty bytes written for its weights |
| ByteLayout.MaskBytes | src/swarm.c:1457-1467 | the two bytes written for its reset mask |
| ByteLayout.ParamsFields | src/tlv.c:89-117 | which fields the thirteen bytes set, and when they are refused |
| ByteLayout.RoutingFields | src/tlv.c:119-149 | the same for the flag bytes, bit by bit |
| ByteLayout.WeightFields | src/tlv.c:151-178 | the same for nibbles and sign bits |
| ByteLayout.MaskFields | src/tlv.c:180-192 | the same for the reset mask |
| ByteLayout.RecordTypes | src/tlv.c:292-388 | the eight record types by number, and that others are skipped |
| ByteLayout.TopologyVerdict | src/tlv.c:61-87 | code and extra for every wrong topology, and the fields of a right one |
| ByteLayout.TilesVerdict | src/tlv.c:89-192 | code and extra of a refused per-tile record: missing topology, length, first bad entry |
| ByteLayout.ReadoutVerdict | src/tlv.c:194-213 | the same for the readout policy |
| ByteLayout.LimitVerdict | src/tlv.c:359-367 | the same for the tile field limit |
| ByteLayout.CrcVerdict | src/tlv.c:369-383 | the same for the checksum record |
| ByteLayout.RecordInBytes | src/tlv.c:43-57 | type, length, value and next position of the record at a position |
| ByteLayout.LoopVerdict | src/tlv.c:275-416 | code and extra when room runs out, and for the first missing record at the end |
| ByteLayout.HeaderVerdict | src/tlv.c:218-261 | each header code exactly for its bytes, in the order of the checks, with its extra; otherwise the records are read with the header's ids and flags |
| BakeParser.CursorStaysInside | src/tlv.c:265-397 | on a blob of whole words the padding is always there, from any aligned position |
| BakeParser.ParserAlignment | src/tlv.c:265-397 | such a blob never drives the cursor out, and any other size is never accepted |
| Overrun.OneRecordOverruns | src/tlv.c:390-396 | for every larger size that is not a multiple of four, a blob that drives the cursor out |
| Overrun.CursorSafeExactly | src/tlv.c:265-397 | the cursor stays inside all blobs of n bytes if and only if n is a multiple of four or below 37 |
| Overrun.SmallTablesFit | src/tlv.c:89-192 | the parser keeps to the view's arrays if every topology record names at most 4096 tiles |
| Overrun.BigTableOverruns | src/tlv.c:180-192 | for every larger size, a blob whose reset masks leave the arrays |
| Overrun.ArraysSafeExactly | src/tlv.c:265-397 | the parser keeps to the arrays on all blobs of n bytes if and only if n is below 8254 |
| WideViews.WideIsLong | src/tlv.c:265-416 | an accepted blob that names more than 4096 tiles has 112 bytes, or 120 or more |
| WideViews.WideBlobIsAccepted | src/tlv.c:292-301 | for 112 bytes and every larger multiple of four from 120 on, such a blob |
| WideViews.AcceptedFitsExactly | src/swarm.c:941-964 | all accepted blobs of n bytes fit the swarm's tables if and only if n is no multiple of four, below 112, or 116 |
| WideViews.BakeSafeExactly | src/swarm.c:891-976 | baking keeps to its memory on all blobs of n bytes if and only if n is below 37, a multiple of four below 112, or 116 |
| BakeParser.AcceptedIsSane | src/tlv.c:218-417 | what every accepted blob and view satisfies, whatever the order of the records |
| BakeReader.ParseTileParams | src/tlv.c:89-117 | the loop decodes or stops at the first inverted range |
| BakeReader.ParseRoutingFlags | src/tlv.c:119-149 | the loop decodes or stops at the first reserved bit |
| BakeReader.UnpackWeights | src/tlv.c:161-174 | sixty-four nibbles and sixty-four sign bits |
| BakeReader.ParseWeightsPacked | src/tlv.c:151-178 | the loop over tiles |
| BakeReader.ParseResetOnFire | src/tlv.c:180-192 | the loop over masks |
| BakeReader.TakeRecord | src/tlv.c:292-388 | the switch over record types |
| BakeReader.ParseRecords | src/tlv.c:265-416 | the record loop; cursor plus bytes left is always the blob's end |
| BakeReader.ParseView | src/tlv.c:218-417 | the parser computes Parse and terminates on every blob |
| BakeWriter.ParseWritten | src/tlv.c:218-417 | a blob laid out as header, aligned records and checksum is read record by record |
| Serializer.Serialize | src/swarm.c:1272-1290 | the blob has 128 + 57 n bytes for n saved tiles |
| BlobLayout.SerializedBytes | src/swarm.c:1266-1548 | a saved bake byte by byte: header, eight records at fixed offsets, what each value holds, and the checksum of everything before the last record |
| Serializer.RoundTripExactly | src/swarm.c:1266-1548 | the parser gives the saved bake back if and only if it is savable; otherwise it does not accept the blob, and rejects it if the tile count is a multiple of four |
| SavedOverrun.SmallSaved | src/tlv.c:265-397 | with one, two, three or five tiles every saved bake is rejected |
| Runaway.RunawayOverruns | src/tlv.c:390-396 | for every tile count from six on that is not a multiple of four, a saved bake that drives the cursor out |
| Runaway.SavedVerdictExactly | src/tlv.c:265-397 | all saved bakes of n tiles are accepted or rejected if and only if n is a multiple of four or at most five |
| Serializer.ViewIsFaithful | src/swarm.c:1367-1496 | the view's tiles, readout and dimensions are the saved ones |
| BlobBuffer.PutParams | src/swarm.c:1367-1386 | thirteen bytes of one tile |
| BlobBuffer.CollectFlags | src/swarm.c:1403-1413 | the ten flag statements give the packed bits |
| BlobBuffer.PutWeights | src/swarm.c:1432-1447 | nibble and sign loops of one tile |
| BlobBuffer.PutEntries | src/swarm.c:1389-1467 | a per-tile record, leaving the rest of the buffer alone |
| BakeSaver.Seal | src/swarm.c:1519-1541 | total length patched in, then the checksum of everything before it |
| BakeSaver.SerializeCurrentBake | src/swarm.c:1266-1548 | the code fills its buffer exactly with Serialize |
| BakeSaver.SaveBakeSave | src/swarm.c:891-976 | a savable bake with a count: the parser accepts its blob, and baking that over any earlier bake and saving again gives the same bytes |
| BakeSaver.SaveBakeSaveExactly | src/swarm.c:1274-1277 | exactly when the bake is savable and the active count is not zero |
| BakeSaver.StandardCountsAreRectangles | src/swarm.c:926-938 | the standard tile counts get the rectangle of that area that is two or four times as wide as high, on which both edge views agree |
| BakeSaver.BakedInFields | src/swarm.c:908-972 | what baking leaves, field by field: tiles, ids, which of three counts is the active one, and the row width and height for every count |
| BakeSaver.OneSuchRectangle | src/swarm.c:926-938 | that fixes the five standard grids |
| FlatRows.WidthExactly | src/swarm.c:922-939 | which views bake to a positive row width |
| FlatRows.FlatIsAccepted | src/tlv.c:265-416 | the parser accepts a saved bake of four tiles in rows of width zero |
| FlatRows.FlatBakeDivides | src/swarm.c:361-366 | baking it over anything leaves width zero; the first flash divides by it if the tiles are BUS_W tiles, and no flash does if they are not |
| BakeGen.EstimateOfSerializer | src/tlv.c:435-468 | the size estimate is met by the serializer exactly when the tile count is a multiple of four |
| BakeGen.GeneratorAndParserAgree | bake_gen/bake_gen.c:106-290 | a generated blob has the estimated size and is accepted exactly when lo <= hi |
| BakeGen.GeneratedTiles | bake_gen/bake_gen.c:182-191 | each generated tile has the requested thresholds and decay and nothing else |
| BakeGen.PadTo4 | bake_gen/bake_gen.c:193-196 | the padding loop |
| BakeGen.GenCustom | bake_gen/bake_gen.c:130-290 | refuses bad tile counts; otherwise writes exactly the blob and nothing beyond it |
| BlobLayout.GeneratedBytes | bake_gen/bake_gen.c:130-290 | a generated blob byte by byte, in the generator's order and with its zero padding |
| Tape.DecodeFrame | agent_cli/agent_cli.c:487-507 | packed frames always decode; a raw frame is refused exactly for a byte above 15 |
| Tape.LanesInBytes | agent_cli/agent_cli.c:487-507 | which byte and nibble each lane is |
| Tape.FrameFiresMeans | agent_cli/agent_cli.c:615-641 | when a frame is reported to fire, for single and double flashes |
| Tape.AnyPattern | agent_cli/agent_cli.c:615-641 | a label is produced exactly when a fired tile has a pattern |
| Tape.InspectTape | agent_cli/agent_cli.c:792-837 | the segments partition the tape, each resolved one ending at its only fired frame; the fired flags are those of the run, on tapes whose run does not divide by zero |
| Tape.EveryFrameOnce | agent_cli/agent_cli.c:792-837 | in such a partition every frame lies in exactly one segment |
| Tape.SegmentsStandAlone | agent_cli/agent_cli.c:815-828 | with reset-on-winner the tape after a fired frame fires as on a fresh swarm |

## Left out

- Files, argument parsing, HTML, JSON and label text: input, output and presentation. A label counts only as empty or not.
- UDP, threads, platform layers and the VSB nibble codecs (`src/udp_io.c`, `net_solver/net_solver.c`, `src/vsb.c`): foreign calls and fixed-size copying.
- The SIMD variant of the bus clamp (`src/swarm.c:131-181`): the scalar branch is modelled.
- Clock reads, cycle statistics, the shared telemetry buffer, `drive_vec` and `in_clip_bits`: they are written and never read by the core, and an accepted ingress never clips.
- `src/swarm_core.c`, getters and setters: thin wrappers.
- Null pointers and failing allocations.
- Swarm.Swarm.EvFlash: after a division by zero the C program is undefined; the model says when that happens and nothing about the state then.
- Swarm.Swarm.EvBake: when the C code would leave its memory the model stops with `LeavesBlob` or `LeavesTables` and nothing baked.
- Cascade.Run: asks of every machine that no ingress and no state make it divide by zero, which rows of positive width always meet.
- BakeParser.ParserAlignment: after the cursor has left the blob the C code reads on; the model stops there and reports `PastBlob`.
- Corruption.DamagedTypesShow: for a damaged blob that names more than 4096 tiles it leaves open whether the parser rejects it or leaves the view's arrays.
- Domain ids of 32 and more, settable only by a direct setter: the code shifts by them, which C leaves undefined.
- Contract clauses the code does not implement: reset on bake, double strait from header flags, ancestor-sparing auto-reset, R1 readout.
- The control-plane daemon of `docs/CONTROL_PLANE_v01.md` is not part of this model.
