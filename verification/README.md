# Verification model of the battery controller firmware

A Dafny project that models the parts of the firmware whose correctness is hard to see from the
code, and proves what they do for all inputs, all runs and all reachable states.

* **The settings index.** Every setting lives in a sparse hash map: a bitmap and a dense array per
  group of 32 buckets (`SparseGroups`), an array of groups (`SparseTables`), iterators over both
  (`TableIterators`), and open addressing with triangular probing, tombstones, growing, shrinking and
  rehashing (`SparseHashtables`). Each layer refines a simpler one, down to a mathematical map, and
  whole runs of operations agree with runs on the map (`HashtableRuns`). `Words` and `PopCounting`
  hold the bit arithmetic, `Slots` the abstract buckets, `Probing` the number theory of the probe
  sequence, `HashLayout` what makes a layout searchable.
* **The settings file.** Printing and parsing (`SettingsText`, and for any text `SettingsLines`), the two table-driven CRCs against the
  bit-by-bit definitions (`Crc16`, `Crc32`), the file CRC folded over 64-byte chunks (`SettingsCrc`),
  the choice between file, backup and memory (`SettingsStore`), and the page scanner (`Json`, for any
  text `JsonTexts`, with `BraceLevels` for what a matching brace is).
* **The battery control loop.** Limits from cell voltages (`CurrentThrottle`), the charge current ramp
  (`ChargeRamp`), the cut-off latch (`CutOffLatch`), the forced recharge (`Recharge`), the state of
  charge (`StateOfCharge`), the stuck-device detector (`StuckDetector`), and the alarm rules with their
  triggers, log, delays and pulses (`AlarmTriggers`, `AlarmSoc`, `AlarmRelays`, `AlarmRules`,
  `AlarmHistories`, `AlarmOutputs`).
* **The flash image merge** (`FlashMerge`).

Code that changes things in place is a class or a method with loops, proved against a specification
function; what the code promises is then proved of that function. Hash functions, iteration orders,
settings, measurements, the printing of floating-point values and the interleaving of runs and ticks are
parameters and hold for any value.

`dafny verify dfyconfig.toml` checks the whole project.

## Where the code does less than it seems to

* Assigning one hash table to another takes over the source's tombstone counter before emptying the
  target. If the target has no values but tombstones, and the source's counter is zero, the tombstones
  stay and the counter misses them. `SparseHashtables.SparseHashtable.Assign` gives the exact condition
  for an empty source and for one with fewer entries than the target has tombstones; a larger source can
  fill every tombstone by where its keys happen to fall, and there only the sufficient condition is
  stated. `HashtableRuns.AssignLeavesTombstone` builds the case.
* Carrying the CRC register from chunk to chunk treats a zero register as a fresh start. It is right
  after every chunk exactly when no chunk before the last ends with a zero register
  (`SettingsCrc.FoldRightIffNeverZero`); `SettingsCrc.ZeroStartGoesWrong` gives a family of files.
* A string setting survives saving and restarting exactly when it holds no tilde and no NUL
  (`SettingsText.RoundTripExactIff`); a number declared 32-bit unsigned is read back exactly when it
  is below 2^31 (`SettingsStore.SetThenGet`, and through the file `SettingsStore.SetSaveGet`).
* The page scanner counts braces in a byte: with objects nested less than 256 deep, arrays less than 255
  deep and a number of brackets that is no multiple of 256, an array's size is right exactly when none of
  its objects closes as the 256th, 512th, ... brace (`Json.SizeRightIff`).
* Throttling divides by zero exactly when a hundred times the voltage span is below the current span
  (`CurrentThrottle.ChargeFailsIff`, `CurrentThrottle.DischargeFailsIff`).
* The linear state of charge stays in 32 bits for every calibration and reading if and only if the
  full-battery voltage is at most 9267 mV (`StateOfCharge.FitsIff`), and for those with the highest cell
  in the working range if and only if it is at most 46341 mV (`StateOfCharge.FitsWorkingIff`).
* A permanent relay is on exactly while one of its triggers is on if and only if no trigger is selected,
  or a single one and no delay is set (`AlarmHistories.FollowsIff`). A trigger that falls does not cancel
  a running delay (`AlarmRelays.FallingDoesNotCancel`), and one that falls switches off a relay shared
  with another that is still on (`AlarmHistories.SharedRelayCleared`).
* A pulse relay with a duration below one tick never goes off again (`AlarmRelays.PulseGoesOffIff`).
* Two branches of `_resize_delta` (spp.h:2721-2722 and 2726-2743) can never be taken;
  `SparseHashtables.SparseHashtable.ResizeDelta` proves it.
* A flash image puts every binary at its address, once the overlap check has passed, exactly when the
  first address is not negative (`FlashMerge.LaidIff`).

## Model

| member | source | states |
|---|---|---|
| PopCounting.SwarCountsWord | include/sparsepp/spp_utils.h:337-342 | for every 32-bit word the shift-and-mask counter gives the number of set bits that the group bitmaps are specified with |
| Words.MaskedCountIsRank | include/sparsepp/spp.h:1170-1175 | counting the bits of the bitmap masked below a position gives the number of set bits below it |
| Words.MaskIsMod | include/sparsepp/spp.h:3018 | masking with a power of two minus one is the remainder by that power |
| Words.SelectRank | include/sparsepp/spp.h:1196-1216 | the position selected by the rank of a set bit is that bit |
| Words.RankSelect | include/sparsepp/spp.h:1196-1216 | the rank of the selected position is the offset, and the bit there is set |
| SparseGroups.SizingTable | include/sparsepp/spp.h:1094-1121 | the nested loops fill the allocation table with the size function the group's invariant uses |
| SparseGroups.SizingMeans | include/sparsepp/spp.h:1094-1121 | the sizes one by one, from no value to a full group |
| SparseGroups.ScatterInsert | include/sparsepp/spp.h:1431-1443 | opening a cell at the rank and setting the bit changes exactly the addressed bucket |
| SparseGroups.ScatterErase | include/sparsepp/spp.h:1581-1596 | closing the cell at the rank, clearing the bit and marking it erased turns exactly the addressed bucket into a tombstone |
| SparseGroups.ScatterValues | include/sparsepp/spp.h:1170-1207 | the dense array is the full buckets' values in position order, and a full bucket's rank is the number of full buckets before it |
| SparseGroups.SparseGroup.PosToOffset | include/sparsepp/spp.h:1170-1183 | the offset is the number of full buckets below the position |
| SparseGroups.SparseGroup.OffsetToPos | include/sparsepp/spp.h:1196-1216 | the bit loop finds the bucket whose value lies at the offset, and its offset is the one given |
| SparseGroups.SparseGroup.SetAux | include/sparsepp/spp.h:1373-1395 | shifting in place, with or without a larger array, puts the value at the offset and moves the later ones up by one |
| SparseGroups.SparseGroup.Set | include/sparsepp/spp.h:1431-1455 | only the addressed bucket changes, it is full with the new value, and the group's invariant holds: array length, count of bits, disjoint bitmaps |
| SparseGroups.SparseGroup.GroupErase | include/sparsepp/spp.h:1475-1501 | the dense array loses exactly the value at the offset, is shrunk when its size class changes and freed when it was the last value |
| SparseGroups.SparseGroup.Erase | include/sparsepp/spp.h:1581-1596 | a full bucket becomes a tombstone, any other stays as it is, nothing else changes |
| SparseGroups.SparseGroup.EraseAt | include/sparsepp/spp.h:1549-1573 | erasing by array offset turns the bucket that the offset stands for into a tombstone |
| SparseGroups.SparseGroup.Clear | include/sparsepp/spp.h:1269-1277 | all values go; tombstones go only when asked |
| SparseTables.FlatUpdate | include/sparsepp/spp.h:2237-2245 | changing one bucket of one group changes one bucket of the flat table |
| SparseTables.SparseTable.Set | include/sparsepp/spp.h:2237-2245 | exactly bucket i of the whole table changes, and the count of full buckets follows |
| SparseTables.SparseTable.Move | include/sparsepp/spp.h:2248-2254 | the same for the move used by rehashing |
| SparseTables.SparseTable.Erase | include/sparsepp/spp.h:2257-2265 | a full bucket becomes a tombstone and is counted off, nothing else changes |
| SparseTables.SparseTable.GetIter | include/sparsepp/spp.h:2209-2218 | the group and cell of a full bucket |
| SparseTables.SparseTable.GetPos | include/sparsepp/spp.h:2226-2232 | the position in its group that a cell stands for |
| SparseTables.SparseTable.Resize | include/sparsepp/spp.h:2077-2122 | growing keeps every bucket and adds empty ones |
| TableIterators.CellInTable | include/sparsepp/spp.h:2192-2232 | a cell of a group is the bucket of the whole table that as many full buckets precede as the iterator has passed |
| TableIterators.TwoDIterator.At | include/sparsepp/spp.h:2192-2201 | the iterator to a full bucket has passed exactly the full buckets before it |
| TableIterators.TwoDIterator.GetPos | include/sparsepp/spp.h:2226-2232 | the position is that of the bucket under the iterator, so position and iterator are inverse |
| TableIterators.TwoDIterator.AdvancePastEnd | include/sparsepp/spp.h:827-840 | skipping empty groups passes no value and ends on a value or at the end |
| TableIterators.TwoDIterator.Next | include/sparsepp/spp.h:856-862 | each step passes exactly one value, so each value is visited once and in bucket order |
| TableIterators.TwoDIterator.Deref | include/sparsepp/spp.h:781-862 | the value under the iterator is the next one in bucket order |
| TableIterators.TwoDIterator.Erase | include/sparsepp/spp.h:1549-1573 | erasing under the iterator turns its bucket into a tombstone and leaves the iterator on the next value |
| TableIterators.DestructiveIterator.Deref | include/sparsepp/spp.h:899-943 | freeing groups on the way, the iterator still delivers the values the table held at the start |
| TableIterators.DestructiveIterator.Next | include/sparsepp/spp.h:937-942 | each step passes exactly one of them |
| Probing.NextBucket | include/sparsepp/spp.h:3045-3047 | the incremental step gives the next bucket of the triangular probe sequence |
| Probing.ProbesDiffer | include/sparsepp/spp.h:2499 | on a power-of-two table two different probe numbers below the bucket count probe different buckets |
| Probing.ProbesCover | include/sparsepp/spp.h:2499 | every bucket is probed within bucket-count probes |
| HashLayout.SearchEnds | include/sparsepp/spp.h:3045-3049 | while some bucket is empty, a probe path without an empty bucket is shorter than the table, so the assertion in the loop holds |
| HashLayout.AbsentIfEmpty | include/sparsepp/spp.h:3024-3028 | a probe path that reaches an empty bucket without meeting the key shows that the key is not in the table |
| HashLayout.InsertKeeps | include/sparsepp/spp.h:3159-3172 | filling the first free bucket of a key's path keeps every key reachable and unique and adds one entry to the map |
| HashLayout.EraseKeeps | include/sparsepp/spp.h:3311-3340 | a tombstone keeps every other key reachable and removes one entry from the map |
| HashLayout.OneBucketPerKey | include/sparsepp/spp.h:3159-3186 | no key is stored in two buckets |
| SparseHashtables.MinBuckets | include/sparsepp/spp.h:443-458 | the smallest power of two, at least the minimum and the size wanted, that stays below the occupancy limit |
| SparseHashtables.ShrinkTarget | include/sparsepp/spp.h:2674-2678 | a power of two between 32 and half the old size that leaves the table less than 40 percent full, and is not too empty itself unless it is 32 |
| SparseHashtables.SparseHashtable.constructor | include/sparsepp/spp.h:2886-2901 | an empty map with room for the expected number of entries |
| SparseHashtables.SparseHashtable.LoadMeans | include/sparsepp/spp.h:409-423 | whenever the invariant holds, values and tombstones fill at most half of a power of two of buckets, and the thresholds are a half and a fifth of them |
| SparseHashtables.SparseHashtable.FindPosition | include/sparsepp/spp.h:3014-3051 | terminates; finds a key exactly if it is in the map, otherwise the first free bucket of its path, a tombstone before an empty one |
| SparseHashtables.SparseHashtable.InsertAt | include/sparsepp/spp.h:3159-3172 | one entry more in the map; a reused tombstone is counted off |
| SparseHashtables.SparseHashtable.InsertNoresize | include/sparsepp/spp.h:3175-3186 | a new key is added, a present one keeps its value |
| SparseHashtables.SparseHashtable.Erase | include/sparsepp/spp.h:3311-3340 | removes the key from the map, says whether it was there, counts the tombstone |
| SparseHashtables.SparseHashtable.Clear | include/sparsepp/spp.h:2981-2990 | the empty map; when both counters are zero the buckets stay, tombstones included |
| SparseHashtables.SparseHashtable.MoveFrom | include/sparsepp/spp.h:2792-2833 | for any minimum number of buckets the new table has the same map, no tombstone and the smallest fitting size |
| SparseHashtables.SparseHashtable.Rehash | include/sparsepp/spp.h:2745-2746 | replacing a table by its rehash keeps the map and removes every tombstone |
| SparseHashtables.SparseHashtable.MaybeShrink | include/sparsepp/spp.h:2656-2686 | shrinks exactly when below the threshold and above 32 buckets; then strictly smaller, at least 32, below 40 percent, with room for the next insertion; the map stays |
| SparseHashtables.SparseHashtable.ResizeDelta | include/sparsepp/spp.h:2692-2748 | afterwards the wanted number of insertions keeps values and tombstones below half the table; the map stays |
| SparseHashtables.SparseHashtable.Insert | include/sparsepp/spp.h:3224-3228 | adds a new key or keeps the present value; the load invariant holds again |
| SparseHashtables.SparseHashtable.FindOrInsert | include/sparsepp/spp.h:3252-3309 | the bucket of the key, which is added with the default value if it is missing |
| SparseHashtables.SparseHashtable.Put | include/sparsepp/spp.h:3811-3819 | assigning through operator[] sets the key's value in the map |
| SparseHashtables.SparseHashtable.Get | include/sparsepp/spp.h:3811-3819 | reading through operator[] gives the key's value and creates a missing key |
| SparseHashtables.SparseHashtable.Count | include/sparsepp/spp.h:3122-3126 | one if the key is in the map, zero otherwise |
| SparseHashtables.SparseHashtable.Find | include/sparsepp/spp.h:3057-3081 | the iterator to the key's entry, or the end exactly if the key is missing |
| SparseHashtables.SparseHashtable.InsertRange | include/sparsepp/spp.h:3191-3201 | all entries are inserted after one resize, the first value of a key winning |
| SparseHashtables.SparseHashtable.Resize | include/sparsepp/spp.h:2842-2849 | keeps the map and makes room for the number of entries |
| SparseHashtables.SparseHashtable.EraseIter | include/sparsepp/spp.h:3342-3351 | removes exactly the entry under the iterator, which goes to the next one |
| SparseHashtables.SparseHashtable.CopyOf | include/sparsepp/spp.h:2752-2785 | a copy has the same map, its own storage and no tombstones |
| SparseHashtables.SparseHashtable.Assign | include/sparsepp/spp.h:2951-2963 | the map is the source's; the table's invariant holds if the target was emptied, and for a source that is empty or has fewer entries than the target had tombstones only then |
| HashtableRuns.Run | include/sparsepp/spp.h:3014-3340 | every run of insertions, assignments, reads, lookups, counts, erasures, reservations and clearings gives the answers and the contents of the same run on a mathematical map |
| HashtableRuns.AssignLeavesTombstone | include/sparsepp/spp.h:2951-2963 | a target and a source for which assignment breaks the table's invariant |
| Crc16.TableIsByteStep | src/crc.cpp:10-43 | every table entry is eight shifts of its index through the polynomial |
| Crc16.ComputeCrc16 | src/crc.cpp:65-78 | the table loop computes the bit-by-bit CRC of section 6.2.2 of the MODBUS over Serial Line Specification V1.02, for every message |
| Crc16.TwoByteChangeDetected | src/crc.cpp:65-78 | changing one or both of two adjacent bytes always changes the CRC |
| Crc32.TableIsByteStep | src/crc.cpp:45-62 | every table entry is eight shifts of its index through the polynomial |
| Crc32.CalcCrc32 | src/crc.cpp:81-91 | the table loop computes the CRC model of Annex A of ISO/IEC 13818-1 |
| Crc32.CalcCrc32From | src/crc.cpp:93-104 | the register goes on from the one given, or from the start if that is zero |
| Crc32.UpdateInjective | src/crc.cpp:93-104 | over the same data different registers stay different |
| Crc32.WindowChangeDetected | src/crc.cpp:81-91 | any change inside four adjacent bytes changes the CRC |
| SettingsCrc.CalcCrc | src/WebSettings.cpp:1646-1657 | the file CRC is the fold of the chunk CRCs over the 64-byte pieces of the file |
| SettingsCrc.CopyFile | src/WebSettings.cpp:1622-1644 | the copy equals the source and the CRC returned is the copy's |
| SettingsCrc.FoldIsCrc | src/WebSettings.cpp:1646-1657 | over any split into chunks the fold is the one-shot CRC if no chunk before the last ends with a zero register |
| SettingsCrc.FoldRightIffNeverZero | src/crc.cpp:93-104 | the fold is right after every chunk if and only if no chunk before the last ends with a zero register |
| SettingsCrc.FileChangeDetected | src/WebSettings.cpp:1646-1657 | on files without such a boundary any change inside four adjacent bytes changes the file CRC |
| SettingsCrc.ZeroStartGoesWrong | src/crc.cpp:93-104 | a family of files whose CRC ignores the first 64 bytes |
| SettingsText.ShownIsRead | src/WebSettings.cpp:1143-1176 | every 32-bit number printed in decimal is read back |
| SettingsLines.ShownMeans | src/WebSettings.cpp:1541-1569 | numbers are printed with a minus sign if negative, digits only, no leading zero |
| SettingsLines.NumberMeans | src/WebSettings.cpp:1137-1176 | a number is read behind any spaces, with or without sign and leading zeros, up to the first character that is no digit, and saturates at 32 bits |
| SettingsLines.NoNumberMeans | src/WebSettings.cpp:1137-1176 | without a digit there it is zero |
| SettingsLines.PutMeans | src/WebSettings.cpp:1143-1176 | for any text: the number it starts with, with the same remainder in the width of its type, or whether it is not zero, or the text up to a NUL, under the key in one map, and nothing else changes |
| SettingsLines.TagsMean | src/WebSettings.cpp:1529-1589 | the nine types as they stand in a line |
| SettingsLines.LineMeans | src/WebSettings.cpp:1471-1484 | any line is split at its first equals sign and three characters behind it |
| SettingsLines.UnknownTypeIgnored | src/WebSettings.cpp:1476-1484 | a line with an unknown type changes nothing |
| SettingsLines.NoKeyIgnored | src/WebSettings.cpp:1471-1484 | a line of at most 256 characters without an equals sign changes nothing |
| SettingsLines.LinesMean | src/WebSettings.cpp:1465-1496 | any file is read line by line, and the last line needs no newline |
| SettingsText.LineRead | src/WebSettings.cpp:1471-1484 | a printed line is read back into the map its tag names, under its key |
| SettingsText.TextRead | src/WebSettings.cpp:1465-1496 | reading a printed file performs the stores of its lines in order |
| SettingsText.RoundTrip | src/WebSettings.cpp:1529-1589 | writing all settings, floating-point ones included, and reading the file into any state restores every entry of every map, strings and floating-point values as printing and reading leave them, in whatever order the maps are walked |
| SettingsText.TravelKeepsIff | src/WebSettings.cpp:1531-1538 | a string survives the file exactly when it holds no tilde and no NUL |
| SettingsText.RoundTripExactIff | src/WebSettings.cpp:1465-1589 | after a restart the settings are exactly those written, if and only if no string holds a tilde or a NUL and every floating-point value is read as it was printed |
| SettingsText.WalkInRange | src/WebSettings.cpp:1531-1589 | walking settings in bounds delivers entries in the range that the round trip asks for |
| SettingsStore.Settings.SetString | src/WebSettings.cpp:1137-1178 | stores the parsed and narrowed value under the 16-bit key in the map of its width, and keeps the settings in bounds |
| SettingsStore.Settings.GetInt | src/WebSettings.cpp:1240-1271 | the stored value, widened as the type says; a missing key comes into being; the settings stay in bounds |
| SettingsStore.FetchMeans | src/WebSettings.cpp:1240-1271 | a missing number reads as zero in every type, a present one as the signed or unsigned number of its width |
| SettingsStore.TouchedMeans | src/WebSettings.cpp:1240-1271 | asking for a number changes at most one map, where a missing key appears with zero and every other entry stays |
| SettingsStore.SetThenGet | src/WebSettings.cpp:1137-1271 | a number of the declared type is read back as it was set if and only if it is below 2^31 |
| SettingsStore.SetSaveGet | src/WebSettings.cpp:1137-1604 | the same after writing the file in any order, damage inside four bytes or loss of it, restarting and reading |
| SettingsStore.ParmIdExact | src/WebSettings.cpp:1386-1396 | id and group come back from the key if and only if they fit ten and six bits |
| SettingsStore.KeyOfParts | src/WebSettings.cpp:1386-1396 | every 16-bit key is the key of its parts |
| SettingsStore.Settings.WriteConfig | src/WebSettings.cpp:1511-1604 | the file holds all settings, the CRC is the file's and the backup equals the file; nothing changes if the file cannot be opened |
| SettingsStore.Settings.TakeLines | src/WebSettings.cpp:1465-1496 | the reading loop performs every line; its guard against standing still never fires |
| SettingsStore.Settings.ReadConfig | src/WebSettings.cpp:1399-1507 | a file without a stored CRC or with its own is read and becomes the backup; a missing file, or one whose stored CRC is not its own, is passed over for the backup and nothing changes; only without a backup too is memory written and read; the settings stay in bounds |
| SettingsStore.DamageRepaired | src/WebSettings.cpp:1408-1447 | after saving, damage inside four adjacent bytes or the loss of the file leads to the backup, that is to the saved file |
| SettingsStore.RestartRestores | src/WebSettings.cpp:1399-1604 | saving, such damage, restarting and reading restores what was saved, for all settings in bounds |
| SettingsStore.AlwaysInBounds | src/WebSettings.cpp:1137-1507 | whatever is set, asked for and loaded, the settings stay in bounds |
| SettingsStore.ReachableRestored | src/WebSettings.cpp:1137-1604 | so the restart restores every reachable state |
| SettingsStore.SaveAndRestart | src/WebSettings.cpp:1399-1604 | saving, damage and reading into a fresh object give the settings back |
| Json.IndexPosArray | src/Json.cpp:26-70 | for every text, index and start: the span with that index among those the byte counters meet, or zeros |
| Json.GetArraySize | src/Json.cpp:73-117 | for every text and start: the count the byte counters arrive at |
| JsonTexts.SearchMeans | src/Json.cpp:26-70 | for every text, balanced or not: the spans are those from the last opening brace that finds the counts even to each closing brace that makes them even again, counted in bytes, in their order |
| JsonTexts.CountMeans | src/Json.cpp:73-117 | for every text: the size is the number of positions with even counts since the last of which a brace was opened, up to the first at which brackets are even, or to the end |
| Json.ObjectsOrdered | src/Json.cpp:26-70 | the objects of a page lie inside it, in order and apart |
| Json.FindOutside | src/Json.cpp:26-70 | over a page nested less than 256 deep the search meets exactly its outermost objects, but for those that close as a multiple of 256 |
| Json.SizeOfArray | src/Json.cpp:73-117 | the size of an array is the number of its objects but for those, and the scan ends at the array's own bracket |
| Json.SizeRightIff | src/Json.cpp:73-117 | within the nesting limits of a byte, and with a bracket count that is no multiple of 256, the size is the number of objects if and only if none closes as a multiple of 256 |
| Json.EveryObjectFound | src/Json.cpp:26-117 | with fewer than 256 braces and brackets, for every index below the size the search gives the outermost object with that index: inside the array, behind the one before, from its opening brace to the brace that first closes it |
| Json.ObjectMatched | src/Json.cpp:26-70 | the last brace of an object is the first one that brings the level of braces back to zero |
| ChargeRamp.StepBounds | src/Canbus.cpp:600-648 | a step moves by at most 10 A, never away from the setpoint, never above both old value and setpoint, and at most 9 A below the setpoint |
| ChargeRamp.RunBounded | src/Canbus.cpp:600-648 | over any run the current stays between zero and the largest of start and setpoints |
| ChargeRamp.Settles | src/Canbus.cpp:600-648 | a constant setpoint, or zero for a negative one, is reached from any start within an explicit number of steps and kept |
| ChargeRamp.SettlingIsShort | src/Canbus.cpp:600-648 | that number is at most a tenth of the distance plus twenty |
| ChargeRamp.UndershootBound | src/Canbus.cpp:600-648 | a falling current passes a constant setpoint by 9 A at most and returns in one step |
| ChargeRamp.FallsExactly | src/Canbus.cpp:600-648 | with the setpoint at zero or below, zero is reached after exactly the number of steps that tens, fives, threes and ones make |
| ChargeRamp.ChargeCurrent.Step | src/Canbus.cpp:600-648 | the global current after a call, range by range, is the step function of the old one |
| ChargeRamp.ChargeCurrent.Cycle | src/Canbus.cpp:1033-1078 | the setpoint is the least of maximum and limits; the current never exceeds both its old value and any limit |
| CurrentThrottle.ChargeFailsIff | src/Canbus.cpp:652-692 | the charge limit divides by zero if and only if the span is too small and the voltage is inside it |
| CurrentThrottle.ChargeLimitBounds | src/Canbus.cpp:652-692 | between minimum and maximum, the minimum from the end voltage on, at most the exact linear limit, at least what twice the linear reduction leaves |
| CurrentThrottle.ChargeLimitExact | src/Canbus.cpp:675-690 | inside the span the limit is the larger of the minimum and the maximum less the amperes used up, both roundings said without dividing; at the start voltage it is the maximum |
| CurrentThrottle.ChargeLimitOutside | src/Canbus.cpp:652-692 | the maximum when switched off, below the start voltage or wrongly configured, the minimum above the end voltage |
| CurrentThrottle.ChargeLimitAntitone | src/Canbus.cpp:652-692 | a higher cell voltage never gets a higher charge limit, over the whole range |
| CurrentThrottle.DischargeFailsIff | src/Canbus.cpp:752-793 | the discharge limit divides by zero if and only if the span is too small and the voltage is inside it |
| CurrentThrottle.DischargeLimitBounds | src/Canbus.cpp:752-793 | the mirror image of the charge bounds |
| CurrentThrottle.DischargeLimitExact | src/Canbus.cpp:776-790 | the mirror image of the exact charge limit |
| CurrentThrottle.DischargeLimitOutside | src/Canbus.cpp:752-793 | the maximum when switched off, above the start voltage or wrongly configured, the minimum below the end voltage |
| CurrentThrottle.DischargeLimitMonotone | src/Canbus.cpp:752-793 | a lower cell voltage never gets a higher discharge limit, over the whole range |
| CutOffLatch.LowMeans | src/Canbus.cpp:846 | a current is low when its whole amperes, rounded towards zero, are below the limit |
| CutOffLatch.RunOutIffLatched | src/Canbus.cpp:833-877 | the timer has run out if and only if there is an earlier block of N consecutive calls with low current and high state of charge since which the state of charge has stayed high |
| CutOffLatch.CutOff.Call | src/Canbus.cpp:833-877 | the current is forced to zero exactly on the calls so latched whose own state of charge is high, and untouched on all others |
| Recharge.OverrideIffEpisode | src/Canbus.cpp:916-961 | a call sends the other state of charge if and only if it lies in an episode, where the episodes are read off the voltages alone: the first undershot minimum, the first voltage above the end after it, or above the minimum if the end is zero, the lock time, and so on |
| Recharge.ZeroEndIsMinimum | src/Canbus.cpp:930-938 | for every history and call an end voltage of zero does what the minimum would do |
| Recharge.ZeroTimeLocks | src/Canbus.cpp:941-953 | a lock time of zero keeps the next 65537 calls from sending the other state of charge, and no more |
| Recharge.LockSeparates | src/Canbus.cpp:947-954 | after an episode the next T + 1 calls send the true value, and the one after them the other one exactly if the cells are below the minimum again; T = 0 counts as 65536 |
| Recharge.EpisodesApart | src/Canbus.cpp:916-961 | two override calls with a call without override between them are at least T + 2 calls apart |
| Recharge.SocOverride.Call | src/Canbus.cpp:916-961 | the other state of charge is returned exactly on the override calls |
| StateOfCharge.LinearBetween | src/BmsData.cpp:348-353 | in the working range the value lies between the floored linear values of the lowest and the highest cell, in 0..99 |
| StateOfCharge.LinearExact | src/BmsData.cpp:348-358 | for every reading that is not latched the stored value is the percentage of the weighted voltage, both rounded towards zero and said without dividing, cut to 0..100 |
| StateOfCharge.LinearMonotone | src/BmsData.cpp:348-353 | raising a cell never lowers the value |
| StateOfCharge.NoOverflowBelow | src/BmsData.cpp:348-353 | with all cells below the working range no intermediate value leaves 32 bits up to 9267 mV |
| StateOfCharge.OverflowBelow | src/BmsData.cpp:348-353 | for every higher full-battery voltage there are a calibration and a reading that overflow |
| StateOfCharge.FitsBelowIff | src/BmsData.cpp:348-353 | with all cells below the working range every calibration and reading fits 32 bits if and only if the full-battery voltage is at most 9267 mV |
| StateOfCharge.FitsIff | src/BmsData.cpp:348-353 | the same for all readings for which the formula is evaluated |
| StateOfCharge.FitsWorkingIff | src/BmsData.cpp:348-353 | with the highest cell in the working range if and only if it is at most 46341 mV |
| StateOfCharge.NoOverflowWorking | src/BmsData.cpp:348-353 | with the highest cell in the working range no intermediate value leaves 32 bits up to 46341 mV |
| StateOfCharge.OverflowWorking | src/BmsData.cpp:348-353 | above that there are readings that overflow |
| StateOfCharge.LatchedIff | src/BmsData.cpp:331-341 | the latch is set if and only if the full voltage has been reached with no raw value below 100 since |
| StateOfCharge.HundredIff | src/BmsData.cpp:327-368 | a reading is stored as 100 exactly then |
| StateOfCharge.StoredRange | src/BmsData.cpp:327-368 | the stored value is in 0..100, linear in the working range and zero below it |
| StateOfCharge.BmsData.SetChargePercentage | src/BmsData.cpp:327-368 | a full cell or the latch stores 100; without a linear calibration a raw value is stored as it is, 100 as 99; otherwise latch and value follow the specification; Bluetooth devices pass through, other devices are untouched |
| StuckDetector.OneCellChangeDetected | src/BscSerial.cpp:443-451 | two reads that differ in exactly one cell have different CRCs |
| StuckDetector.Detector.Check | src/BscSerial.cpp:443-473 | the counter is the number of unchanged reads held at 0xFD |
| StuckDetector.OneCellChangeResets | src/BscSerial.cpp:468-473 | a read in which one cell changed restarts the count |
| StuckDetector.CounterAfterChange | src/BscSerial.cpp:443-473 | k unchanged reads later the count is k |
| AlarmTriggers.RunOutcome | src/AlarmRules.cpp:154-174 | after the rules a trigger is on if and only if a call of this run asserted it, and if and only if its cause word is not empty; the cause word holds exactly the causes asserted |
| AlarmTriggers.OrderIrrelevant | src/AlarmRules.cpp:213-245 | the order in which the rules speak does not matter |
| AlarmTriggers.Alternate | src/AlarmRules.cpp:177-199 | consecutive log entries for one trigger and cause differ |
| AlarmTriggers.FirstIsHigh | src/AlarmRules.cpp:177-199 | and the first one is high |
| AlarmRules.Alarms.SetAlarm | src/AlarmRules.cpp:154-174 | the arrays after a call are the specified ones |
| AlarmRules.Alarms.RulePhase | src/AlarmRules.cpp:213-245 | the alarms and cause words after the rules are those asserted in this run |
| AlarmRules.Alarms.HandleLog | src/AlarmRules.cpp:177-199 | the log is extended so that replaying it gives the current cause words, every entry a change |
| AlarmRules.Alarms.ServeEdges | src/AlarmRules.cpp:256-315 | every relay sees the rising and falling edges of its selected triggers, and no other |
| AlarmRules.Alarms.RunAlarmRules | src/AlarmRules.cpp:213-320 | one run: triggers, causes and relays as specified, settings resets included; trigger on iff cause, replayed log, and pulse invariant are kept |
| AlarmRules.Control | src/AlarmRules.cpp:213-422 | over any interleaving of runs and ticks the triggers are those of the last run, every relay does what the trace of its own edges and ticks says, and all invariants hold throughout |
| AlarmRules.Alarms.SetOutputs | src/AlarmRules.cpp:337-367 | every relay is set or counted down, and the pulse timer is flagged when a pulse starts |
| AlarmRules.Alarms.DoOffPulse | src/AlarmRules.cpp:379-422 | every pulse counts down by one, those that end clear their bit, the timer stays flagged exactly while one runs |
| AlarmRules.Alarms.Tick | src/AlarmRules.cpp:379-422 | the tick keeps the pulse invariant |
| AlarmSoc.MarkedIff | src/AlarmRules.cpp:955-981 | the hysteresis bit of a rule is set if and only if its switching-on value was reached and since then a pack has been online and the value has stayed beyond the switching-off value, for both directions of a rule |
| AlarmSoc.SocRules.Run | src/AlarmRules.cpp:930-987 | the triggers that a run of these rules asserts are exactly those of rules that hold them so |
| AlarmRelays.DelayExact | src/AlarmRules.cpp:286-310 | a rising edge with an idle timer and delay d of 0..254 switches the output on in the d-th run after it and not before, whatever edges and ticks come between |
| AlarmOutputs.TimerMeans | src/AlarmRules.cpp:298-303 | the delay timer before every event, read off the history of starts |
| AlarmOutputs.SwitchMeans | src/AlarmRules.cpp:286-346 | the runs that switch an output on are exactly those as many runs behind a start as the delay says, a start being a rising selected trigger with no delay under way |
| AlarmOutputs.OutputMeans | src/AlarmRules.cpp:256-422 | for every mode, delay and set of triggers: an output is on exactly if some run switched it on and, for a permanent one, no selected trigger has gone off since, or for a pulse, its ticks are not over |
| AlarmOutputs.FromStart | src/AlarmRules.cpp:66-422 | the object run from its start over any history has exactly those output bits set |
| AlarmHistories.FollowsIff | src/AlarmRules.cpp:256-315 | over all histories of runs and ticks a permanent relay is on exactly when a selected trigger is on, if and only if no trigger is selected, or exactly one and the delay is zero |
| AlarmHistories.SharedRelayCleared | src/AlarmRules.cpp:305-312 | a relay without delay shared by any two triggers is off after one of them falls, though the other is on |
| AlarmHistories.EdgeSetsOutput | src/AlarmRules.cpp:256-367 | on histories of events: a selected trigger that comes on in run n with the timer idle switches the output on in the d-th run after it, and in no run before |
| AlarmHistories.PulseLasts | src/AlarmRules.cpp:335-422 | on histories of events: a pulse not started again is on for exactly its duration in ticks |
| AlarmRelays.NeverWith255 | src/AlarmRules.cpp:298-303 | a delay of 255 never switches on |
| AlarmRelays.FallingDoesNotCancel | src/AlarmRules.cpp:300-312 | a permanent relay whose trigger falls during the delay is on with no trigger active |
| AlarmRelays.PulseAlways | src/AlarmRules.cpp:335-422 | under any interleaving of runs and ticks the bit of a pulse relay of at least 10 ms is set exactly while its counter runs |
| AlarmRelays.PulseEnds | src/AlarmRules.cpp:335-422 | a pulse not started again ends after exactly the ticks on its counter, whatever runs come between |
| AlarmRelays.PulseGoesOffIff | src/AlarmRules.cpp:335-422 | a pulse relay that is on can go off if and only if its duration is at least one tick |
| FlashMerge.MultipleBin.SortBin | scripts/merge_bin_esp.py:30-37 | bubble sort terminates with a sorted, stable permutation |
| FlashMerge.SortedUnique | scripts/merge_bin_esp.py:30-37 | there is only one sorted stable permutation |
| FlashMerge.MultipleBin.CheckIfPossible | scripts/merge_bin_esp.py:53-57 | comparing neighbours decides whether every binary ends before all later ones begin |
| FlashMerge.ApartMeansDisjoint | scripts/merge_bin_esp.py:53-57 | then no two share an address; for sorted non-empty binaries also the other way round |
| FlashMerge.ImageLaid | scripts/merge_bin_esp.py:39-51 | every binary stands at its address, 0xFF everywhere else, the length is the end of the last one |
| FlashMerge.NegativeStart | scripts/merge_bin_esp.py:39-51 | with a negative first address every binary stands as far behind the first one as its address says, from the start of the file on |
| FlashMerge.LaidIff | scripts/merge_bin_esp.py:39-51 | with the check passed that holds if and only if the first address is not negative |
| FlashMerge.MultipleBin.Merge | scripts/merge_bin_esp.py:81-83 | the whole script: refused exactly on overlap, otherwise one image with every binary that was added at its address |

## Left out

- Allocators, serialization, rvalue overloads, reverse iterators and hand-set load factors of the hash
  map; the defaults of 50 and 20 percent are integer percentages, which the float products equal for
  tables below 2^26 buckets.
- The width of `size_type` and the length errors it brings: sizes are unbounded.
- The search loop of `find`, `erase`, `count` and `find_or_insert` is written out in each of them in
  the source; the model has it once, as FindPosition.
- The array branch for values that cannot be moved bytewise (spp.h:1398-1428, 1506-1541): the same
  contents, built in a second array.
- SparseTables.SparseTable.Resize: grows only; the part that counts the buckets again after making a
  table smaller is compiled out (spp.h:2106-2119), so the source does not support it.
- SparseHashtables.SparseHashtable.MoveFrom: does not model the mode MoveDontGrow, which nothing passes.
- SparseHashtables.SparseHashtable.Assign: for a source with at least as many entries as the target has
  tombstones, says only when the invariant holds for certain, because placement decides the rest.
- SettingsText.RoundTrip: does not say which floating-point values six decimals keep; printing and
  reading them are parameters.
- SettingsStore.Settings.ReadConfig: computing CRCs, copying and writing succeed while it chooses the
  file; only opening the chosen file can fail. Files are shorter than 4 GB.
- Json: matching of names and values (Json.cpp:120-240) and braces or brackets inside quoted strings.
- CurrentThrottle.ChargeLimitBounds: 16-bit ranges of voltages and currents are not needed and not assumed.
- CutOffLatch.CutOff.Call: the settings are fixed over a run; the comparison with the limit is on reals.
- Recharge.SocOverride.Call: the settings are fixed over a run.
- AlarmRules.Alarms.RunAlarmRules: the rules are the list of calls they make, whatever they are; of the
  rules themselves only those on the state of charge are modelled. The LED bit, MQTT messages and the
  forwarding to Bluetooth devices are left out; runs and ticks are atomic steps.
- AlarmSoc.SocRules.Run: the rules are fixed over a run.
- Limits from the state of charge and the cell drift, the pack alarm bits, the CAN frames.
- The receive filter counters of the serial devices and the cell voltage filter, whose bound is a
  floating-point product.
- Web pages, REST, MQTT, Bluetooth, Wi-Fi, the main loop and all drivers.
