# Verified model of the arithmetic, buffering and concurrency core of CppDB

This Dafny project models the parts of the CppDB tree whose code decides something: the MySQL client
headers that the wrapper is built against, the multi-threaded demo, and the repeating test decorator of
the unit-test framework. `dafny verify dfyconfig.toml` checks it.

| file | models |
|---|---|
| `IntegerCodec.dfy`, `LittleEndian.dfy`, `Bits.dfy` | the machine-independent integer macros, in their x86 and their portable form |
| `HostFormats.dfy` | floating-point transfer on four host layouts; shorts and longs in host and network order |
| `Align.dfy`, `Rint.dfy`, `Doubles.dfy` | `MY_ALIGN`; the fallback `rint` on all finite doubles |
| `UlonglongDouble.dfy` | `ulonglong2double` and `double2ulonglong`, with every rounding |
| `IoCache.dfy` | the `my_b_*` macros over `IO_CACHE`, with refill and flush in chunks of any size |
| `SharedCounter.dfy` | `thread_safe_*` and `statistic_*` as interleaved atomic steps of any number of threads |
| `Timespec.dfy` | `set_timespec_nsec` |
| `DemoBarrier.dfy` | the `nThreads` barrier of the threaded demo: safety and, under fair schedules, termination |
| `RepeatedTest.dfy` | `RepeatedTest` over `TestResult` |

Code that works in place is a class or a method over arrays, proved against a function or a plain byte
sequence; concurrency is a step relation, and its theorems quantify over all schedules. Integer widths,
wrap-around and sign extension are written out. A floating-point unit is a rounding rule `real -> real`
that keeps representable results and is monotone; for `ulonglong2double`, where double rounding is the
point, it is round-to-nearest, ties-to-even.

Where the code does not do what its comments or its callers promise, the model follows the code and a
lemma says exactly when the promise is kept:

* `thread_safe_*` lose updates on Windows builds without `__NT__`, where `config-win.h` makes increment
  and decrement interlocked while `my_pthread.h` guards add and sub with the mutex; a counter that uses
  one of the two pairs only is exact (`ConservesIffCompatible`, `HeaderBuilds`).
* `ulonglong2double` rounds twice above 2^63 and can miss the nearest double (`CorrectlyRoundedIff`,
  `DoubleRoundingExample`); its top 1024 arguments come back from `double2ulonglong` as 0
  (`CollapsesToZero`).
* `my_b_write_byte` ignores the result of the flush it asks for and then lets `write_pos` pass `write_end`
  (`MyBWriteByte`, `WriteSession`); `my_b_fill_cache` skips the unread part of the buffer (`MyBFillCache`).
* `MY_ALIGN` wraps to 0 at the top of the address range (`AlignsUp`).
* `set_timespec_nsec` on Windows casts the wait to a signed number and so moves the deadline back from 2^63
  ns on (`WindowsAbstime.SetNsec`).
* The demo polls for ever when `_beginthread`, whose result it ignores, fails (`MainFinishesIff`).
* `countTestCases` is wrong for negative repeat counts (`CountIsExactIff`).

## Model

| member | source | states |
|---|---|---|
| IntegerCodec.Uint2korr | include/MySQL/my_global.h:1279-1280 | the low-byte-first value of the two bytes; the x86 cast (line 1194) and byte assembly agree on every content |
| IntegerCodec.Uint3korr | include/MySQL/my_global.h:1206 | the value of three bytes only: what the fourth byte holds that the x86 form reads does not matter, and the portable form (1281-1283) agrees |
| IntegerCodec.Low24 | include/MySQL/my_global.h:1206 | masking a four-byte word with 0xFFFFFF leaves the value of its first three bytes |
| IntegerCodec.Uint4korr | include/MySQL/my_global.h:1284-1287 | the low-byte-first value of four bytes, for the cast (1208) and the assembled form |
| IntegerCodec.Sum32 | include/MySQL/my_global.h:1288-1291 | the 32-bit partial sums inside the wider loads never wrap: the result is the value of the four bytes |
| IntegerCodec.Uint5korr | include/MySQL/my_global.h:1288-1292 | the low-byte-first value of five bytes |
| IntegerCodec.Uint6korr | include/MySQL/my_global.h:1293-1298 | the low-byte-first value of six bytes |
| IntegerCodec.Uint8korr | include/MySQL/my_global.h:1299-1307 | the low-byte-first value of eight bytes, for the cast (1220) and for two assembled halves |
| IntegerCodec.Sint2korr | include/MySQL/my_global.h:1264-1265 | the two's complement reading of two bytes, for the cast (1184) and the assembled form whatever the sign of plain `char` |
| IntegerCodec.Sint3korr | include/MySQL/my_global.h:1266-1273 | the two's complement reading of three bytes: sign extension is right for every content |
| IntegerCodec.SignExtend | include/MySQL/my_global.h:1185-1192 | or-ing shifted bytes, with a filled top byte when bit 23 is set, equals the byte sum less 2^24 |
| IntegerCodec.Sint4korr | include/MySQL/my_global.h:1274-1277 | the two's complement reading of four bytes, through plain `char` for the top byte (cast at 1193) |
| IntegerCodec.Sint8korr | include/MySQL/my_global.h:1278 | the two's complement reading of eight bytes (cast at 1221) |
| IntegerCodec.StoreWord | include/MySQL/my_global.h:1222 | a word store through a cast pointer changes exactly its own bytes, to the digits of the value |
| IntegerCodec.Int2store | include/MySQL/my_global.h:1308-1311 | both forms (x86 at 1222) write the low two bytes of the two's complement and touch nothing else |
| IntegerCodec.Int3store | include/MySQL/my_global.h:1312-1316 | both forms (x86 at 1223-1225) write the low three bytes, negative values included, and touch nothing else |
| IntegerCodec.Int4store | include/MySQL/my_global.h:1317-1320 | both forms (x86 at 1226) write the low four bytes and touch nothing else |
| IntegerCodec.Int5store | include/MySQL/my_global.h:1321-1326 | writes the low five bytes and touches nothing else |
| IntegerCodec.Int6store | include/MySQL/my_global.h:1327-1333 | writes the low six bytes and touches nothing else |
| IntegerCodec.Int8store | include/MySQL/my_global.h:1334-1336 | two 32-bit halves, like one 64-bit word (1238), write all eight bytes and touch nothing else |
| IntegerCodec.LoadOfStore | include/MySQL/my_global.h:1264-1336 | a load of any build inverts a store of the same width and signedness over the full range of that width |
| IntegerCodec.WriteRecord | include/MySQL/my_global.h:1308-1336 | fields written back to back produce the record's wire format; no earlier field and nothing outside is disturbed |
| IntegerCodec.FieldPlace | include/MySQL/my_global.h:1308-1336 | in the wire format each field has exactly its own bytes and begins where the one before ends |
| IntegerCodec.RecordRoundTrip | include/MySQL/my_global.h:1184-1307 | the loads of any build return every field of a record in order, at any address in any memory |
| IntegerCodec.OneByteMargin | include/MySQL/my_global.h:1200-1206 | one spare byte after a record is enough for all x86 loads to stay inside the memory |
| IntegerCodec.TransferRecord | include/MySQL/my_global.h:1183-1336 | a record written by one build and read by another comes back unchanged, the memory around it too |
| LittleEndian.SignedOfDigits | include/MySQL/my_global.h:1222-1238 | every value that fits the width in two's complement survives storing and signed reading |
| LittleEndian.UnsignedOfDigits | include/MySQL/my_global.h:1222-1238 | every unsigned value that fits the width survives storing and reading |
| LittleEndian.DigitsOfValue | include/MySQL/my_global.h:1220-1238 | every byte content survives loading and storing |
| HostFormats.Float8store | include/MySQL/my_global.h:1349-1356 | on each of the four layouts (also 1249-1251, 1373-1381, 1461) the bytes on the wire are the bit pattern, low byte first; byte by byte, which byte of the variable goes where |
| HostFormats.Float8get | include/MySQL/my_global.h:1358-1367 | eight wire bytes become a variable in the host's own layout, on each of the four (also 1244-1248, 1382-1391, 1460); byte by byte, which wire byte goes where |
| HostFormats.DoublestoreWords | include/MySQL/my_global.h:1249-1251 | two word stores put the eight bytes of the variable on the wire in order |
| HostFormats.DoublegetWords | include/MySQL/my_global.h:1244-1248 | two word loads fill the variable with the eight wire bytes in order |
| HostFormats.Float8storeReversed | include/MySQL/my_global.h:1349-1356 | puts the bytes of the variable on the wire reversed |
| HostFormats.DoublestoreSwapped | include/MySQL/my_global.h:1373-1381 | puts the two halves of the variable on the wire exchanged |
| HostFormats.Float8getReversed | include/MySQL/my_global.h:1358-1367 | fills the variable with the wire bytes reversed |
| HostFormats.DoublegetSwapped | include/MySQL/my_global.h:1382-1391 | fills the variable with the two halves of the wire bytes exchanged |
| HostFormats.Float4store | include/MySQL/my_global.h:1338-1341 | the wire carries the 4-byte pattern, on big-endian hosts the variable's bytes last to first, on others (1254, 1370) as they are |
| HostFormats.Float4get | include/MySQL/my_global.h:1343-1348 | four wire bytes become a variable in the host's own layout, last to first on big-endian hosts and as they are on others (also 1252, 1369) |
| HostFormats.LayoutBytes | include/MySQL/my_global.h:1338-1392 | where each byte of a pattern stands in a variable: reversed on big-endian hosts, the halves of a double exchanged on word-swapped ones, in place on others |
| HostFormats.TransferDouble | include/MySQL/my_global.h:1337-1396 | stored on any host and fetched on any other, a double keeps its bit pattern, and only its eight wire bytes change |
| HostFormats.TransferFloat | include/MySQL/my_global.h:1337-1370 | the same for a float |
| HostFormats.LayoutInjective | include/MySQL/my_global.h:1372-1392 | a host layout loses nothing, so the transfer above determines the value |
| HostFormats.Shortstore | include/MySQL/my_global.h:1432-1434 | writes the host's own 2-byte representation, the high byte first on big-endian hosts and last on others |
| HostFormats.Longstore | include/MySQL/my_global.h:1435-1438 | writes the host's own 4-byte representation, the high byte first on big-endian hosts and last on others |
| HostFormats.Ushortget | include/MySQL/my_global.h:1416-1417 | the unsigned value of two bytes, the first one high on big-endian hosts and low on others, whatever the sign of plain `char` |
| HostFormats.Shortget | include/MySQL/my_global.h:1418-1419 | the signed 16-bit number congruent to that value |
| HostFormats.Longget | include/MySQL/my_global.h:1420-1425 | the signed 32-bit number congruent to the unsigned reading of the same bytes |
| HostFormats.Ulongget | include/MySQL/my_global.h:1426-1431 | the unsigned value of four bytes, the first one high on big-endian hosts and low on others |
| HostFormats.Int4net | include/MySQL/my_global.h:1404-1407 | the signed big-endian value of four bytes, on every host |
| HostFormats.HostRoundTrip | include/MySQL/my_global.h:1414-1454 | what a host writes it reads back, modulo the width |
| HostFormats.GetsInvertStores | include/MySQL/my_global.h:1414-1454 | the four get macros invert the two stores over their full ranges, on both kinds of host |
| HostFormats.Int4netInvertsBigEndianLongstore | include/MySQL/my_global.h:1400-1407 | `int4net` recovers what a big-endian `longstore` wrote |
| HostFormats.Int4netOfReversed | include/MySQL/my_global.h:1404-1407 | `int4net` of reversed bytes is `sint4korr` of the original ones |
| Align.AlignsUp | include/MySQL/my_global.h:936 | for every power of two, word and width: the least multiple not below the argument if and only if the sum does not wrap, and 0 otherwise |
| Align.AlignTwice | include/MySQL/my_global.h:936-937 | aligning to one power of two and then to another is aligning once to the larger, for every argument, wrapping ones included |
| Rint.Rint | include/MySQL/my_global.h:1567-1584 | for every finite double the result is the nearest integer, ties to even, and is a double; the guards keep each 64-bit conversion in range |
| Rint.PartsAreDoubles | include/MySQL/my_global.h:1570-1574 | the parts of a double are doubles, and so are the neighbours of the integer part whenever there is a fraction, so rounding adds no error |
| Rint.StepAwayFromZero | include/MySQL/my_global.h:1575-1582 | the rule on fraction and parity yields round-to-nearest-even |
| Rint.RoundedUnique | include/MySQL/my_global.h:1559-1565 | exactly one integer is within one half, even on ties: the specification of `rint` has one solution |
| Rint.RoundedIsNearest | include/MySQL/my_global.h:1559-1565 | no integer is nearer, and if another is as near the result is even |
| Rint.RoundedIsOdd | include/MySQL/my_global.h:1559-1565 | rounding commutes with negation |
| Rint.RoundedIsMonotone | include/MySQL/my_global.h:1559-1565 | rounding is monotone |
| Rint.RoundedIsIdempotent | include/MySQL/my_global.h:1559-1565 | rounding leaves integers alone |
| UlonglongDouble.Ulonglong2double | include/MySQL/config-win.h:221-227 | the result is a double of at most 2^64, and is the argument if and only if that is representable; `CorrectlyRoundedIff` gives it in every other case |
| UlonglongDouble.Double2ulonglong | include/MySQL/config-win.h:231-238 | for every double on which its conversions are defined and every rounding direction: the truncated argument modulo 2^64 |
| UlonglongDouble.SubtractionDecides | include/MySQL/config-win.h:233-235 | the subtraction is exact from 2^63 on, and below it stays negative after rounding, so the branch is the right one |
| UlonglongDouble.TruncOfDifference | include/MySQL/config-win.h:235-237 | truncating the difference and adding 2^63 back in 64 bits is truncating the argument |
| UlonglongDouble.ToDoubleIsNearest | include/MySQL/config-win.h:225 | no double is nearer than the result of the integer-to-double conversion, and if one is as near, the result has the even significand and the other one has not |
| UlonglongDouble.ToDoubleUnique | include/MySQL/config-win.h:225 | the conversion used in the model is correct rounding: its result is the one double that is nearest with ties to even |
| UlonglongDouble.RepresentableIsDouble | include/MySQL/config-win.h:221-238 | an integer up to 2^64 is representable if and only if it is a binary64 value |
| UlonglongDouble.ToDoubleRepresentable | include/MySQL/config-win.h:225 | its result is itself a double |
| UlonglongDouble.RepresentableMeaning | include/MySQL/config-win.h:221-238 | representable integers are exactly those with a 53-bit significand |
| UlonglongDouble.IntermediatesAreExact | include/MySQL/config-win.h:221-227 | for a representable argument every intermediate value is a double and the result is the argument |
| UlonglongDouble.RoundTrip | include/MySQL/config-win.h:221-238 | converting there and back returns the argument if and only if it is representable |
| UlonglongDouble.CollapsesToZero | include/MySQL/config-win.h:221-238 | the round trip yields 0 exactly for 0 and for the top 1024 values |
| UlonglongDouble.CorrectlyRoundedIff | include/MySQL/config-win.h:221-227 | the nearest double results if and only if the first rounding does not create a tie that the second breaks the wrong way, a condition on the low eleven bits and the spacing; otherwise the result is the other double next to the argument |
| UlonglongDouble.DoubleRoundingExample | include/MySQL/config-win.h:226 | 2^63 + 1025 becomes 2^63 although 2^63 + 2048 is nearer |
| IoCache.DiskFile.Read | include/MySQL/my_sys.h:487 | delivers the bytes at the descriptor's offset and advances it |
| IoCache.DiskFile.Append | include/MySQL/my_sys.h:487 | appends all bytes, or any part of them when the device cannot hold all |
| IoCache.Cache.constructor | include/MySQL/my_sys.h:395-433 | a new cache stands at the descriptor's offset with nothing buffered, and what it will deliver or has written is the file |
| IoCache.Cache.PendingIsRestOfFile | include/MySQL/my_sys.h:397-408 | what is still to be delivered is the file from `my_b_tell` on |
| IoCache.Cache.Refill | include/MySQL/my_sys.h:449-457 | reading a chunk of any size into a used-up buffer changes nothing about what is still to come |
| IoCache.Cache.ReadDirect | include/MySQL/my_sys.h:449-457 | reading any part of a request past the used-up buffer delivers the next bytes and keeps position and buffer consistent |
| IoCache.Cache.Fetch | include/MySQL/my_sys.h:449-457 | drains the buffer, then reads on through it or past it as often as needed; delivers exactly the next bytes, as many as asked for or as there are |
| IoCache.Cache.ReadFunction | include/MySQL/my_sys.h:449-457 | meets the contract of the struct's comments: the next bytes, with `error` 0, or as many as there are, with their number in `error` (488-494); a request for nothing leaves something buffered unless the file is at its end |
| IoCache.Cache.MyBRead | include/MySQL/my_sys.h:528-532 | fast path or not: the next bytes of the file from the position told, which advances by as many; success exactly when the file had enough |
| IoCache.Cache.MyBGet | include/MySQL/my_sys.h:540-543 | the next byte of the file and one step of the position, or end of file without a step |
| IoCache.Cache.MyBFillCache | include/MySQL/my_sys.h:551-552 | reads on at the descriptor; the stream continues where it was if and only if the buffer had been used up; `my_b_tell` is then the descriptor's old offset, or as before at the end of the file |
| IoCache.Cache.TellIsLength | include/MySQL/my_sys.h:554-555 | on a write cache the position is the length of all that was written, and one more after an overrun |
| IoCache.Cache.Flush | include/MySQL/my_sys.h:397-424 | moves the buffer into the file, or any part of it when the device cannot hold all, reporting -1 or that part in `error`; what has been written stays the same either way |
| IoCache.Cache.WriteFunction | include/MySQL/my_sys.h:458-462 | any mix of topping up, flushing, direct writing and buffering appends exactly the bytes given; a failure has appended a prefix, whose length `my_b_tell` shows and `error` reports unless it is -1; a request for nothing makes room |
| IoCache.Cache.MyBWrite | include/MySQL/my_sys.h:534-538 | appends exactly the bytes given, or fails having appended a proper prefix of them, as long as `my_b_tell` shows; fails only when they fit neither the area nor the device |
| IoCache.Cache.MyBWriteByte | include/MySQL/my_sys.h:545-549 | appends the byte, or puts it past the write area, leaving `write_pos` one past `write_end` and `my_b_tell` one too high but file and write area as they were: this if and only if the area is full, the device cannot take what is buffered and the flush moves nothing |
| IoCache.DeliveredIsNext | include/MySQL/my_sys.h:449-457 | what a plain byte sequence answers to any list of requests is consecutive, each byte once and in order |
| IoCache.Answer | include/MySQL/my_sys.h:528-543 | one request through the macros delivers the next bytes of the file, as many as wanted or left, and is complete if and only if as many were left as wanted |
| IoCache.ReadSession | include/MySQL/my_sys.h:528-555 | any list of requests, with any refill chunks, is answered as the plain file would: each request gets the bytes after those of the earlier ones, complete if and only if enough were left, and the position is the start plus what was delivered |
| IoCache.EachServed | include/MySQL/my_sys.h:528-543 | what a plain byte sequence answers to each request of a list, by position, number and completeness |
| IoCache.Emit | include/MySQL/my_sys.h:534-549 | one write through the macros appends exactly the byte or the bytes given, or for lack of room a proper prefix; only a single byte can overrun |
| IoCache.WriteSession | include/MySQL/my_sys.h:534-555 | file plus write area grow by exactly the writes that went through, each byte of each at its own place, and a prefix of the one that failed; the cache stays in order unless a single byte overran; all go through when the device has room |
| IoCache.WrittenPlace | include/MySQL/my_sys.h:534-549 | each write stands in what is written right after the writes before it |
| IoCache.WriteThenRead | include/MySQL/my_sys.h:528-555 | what one cache writes and flushes another reads back, byte for byte and request for request, for any two buffer sizes |
| SharedCounter.AloneResult | include/MySQL/my_pthread.h:735-769 | undisturbed, an increment, decrement, addition or subtraction leaves the start value plus 1, minus 1, plus c or minus c, modulo the range, in every way of compiling it, and leaves the mutex free |
| SharedCounter.AloneSteps | include/MySQL/my_pthread.h:735-745 | the steps in between: lock, load, store, unlock under a mutex, load and store without, and the counter changes only with the store |
| SharedCounter.LogStep | include/MySQL/my_pthread.h:735-745 | a stored operation changes the sums of what was meant to be added and subtracted by its own amount and direction |
| SharedCounter.EveryStartIsStored | include/MySQL/my_pthread.h:735-769 | in every interleaving each thread has stored exactly the operations the schedule started in it, in order, but for the one in progress |
| SharedCounter.StepKeepsExact | include/MySQL/my_pthread.h:735-745 | every atomic step keeps: only the mutex owner is inside a locking macro, what any thread loaded is current, the counter is the start value with all stored operations |
| SharedCounter.CompatibleIsExact | include/MySQL/my_pthread.h:735-745 | operations that cannot interfere keep that in every interleaving of any number of threads: the counter is the start value plus stored increments, minus stored decrements, plus stored additions, minus stored subtractions, modulo the range |
| SharedCounter.NoEffect | include/MySQL/my_pthread.h:735-745 | an operation leaves the counter alone if and only if it adds a multiple of its range |
| SharedCounter.ConservesIffCompatible | include/MySQL/my_pthread.h:725-747 | for any set of operations, over all schedules and start values: nothing is lost if and only if no operation with an effect can store between the load and the store of another |
| SharedCounter.ConservesIffOneMechanism | include/MySQL/my_pthread.h:725-747 | when each of them has an effect, that means one exclusive mechanism for all |
| SharedCounter.ConservesIffUniform | include/MySQL/my_pthread.h:725-747 | a build loses nothing with any of its operations if and only if it compiles all of them to one exclusive mechanism |
| SharedCounter.HeaderBuilds | include/MySQL/config-win.h:343-349 | which of the four builds of the headers conserve the counter and which do not, and which pairs of operations the mixed one still conserves |
| SharedCounter.LostUpdate | include/MySQL/my_pthread.h:756-769 | a load and a store with a foreign store between them lose that store's effect, for each pair of mechanisms that do not exclude each other |
| SharedCounter.OwnerReleases | include/MySQL/my_pthread.h:735-738 | whoever holds the mutex frees it within three of its own steps |
| SharedCounter.AlwaysBounded | include/MySQL/my_pthread.h:756-769 | whatever the build and the schedule, the counter stays between what was meant to be subtracted and added |
| SharedCounter.RunKeepsCountedUp | include/MySQL/my_pthread.h:767 | with increments only, at least one counts as soon as one has stored |
| SharedCounter.UnlockedIncrements | include/MySQL/my_pthread.h:767 | after n > 0 unlocked increments the reachable values are exactly those from one to n above the start |
| SharedCounter.LosingSchedule | include/MySQL/my_pthread.h:767 | for each of these values a schedule that leaves it |
| Timespec.Abstime.SetNsec | include/MySQL/my_pthread.h:446-452 | always normalised; exact to the nanosecond unless the 64-bit sum wraps, and then early by 2^64 clock units |
| Timespec.WindowsAbstime.SetNsec | include/MySQL/my_pthread.h:101-105 | the deadline is early by less than one clock unit if and only if the wait is below 2^63 ns and the signed sum does not wrap, with the exact deadline otherwise; the wait is the milliseconds as a 32-bit `long`, right exactly when they fit |
| DemoBarrier.StepKeepsDiscipline | Demos/CppDBDemoMT.cpp:172-188 | every step of main or a worker keeps: one worker at a time, and the counter is 1 exactly from main's store to that worker's |
| DemoBarrier.AlwaysDisciplined | Demos/CppDBDemoMT.cpp:172-228 | so does every schedule of any number of phases |
| DemoBarrier.BarrierIsSafe | Demos/CppDBDemoMT.cpp:172-228 | the counter is 0 or 1, at most one worker runs and only in its own phase, its split decrement loses nothing, and earlier workers have all finished |
| DemoBarrier.WorkerAdvances | Demos/CppDBDemoMT.cpp:93-123 | a started worker takes exactly one step in each of its turns until it is gone, and none outside them |
| DemoBarrier.DecrementComesLast | Demos/CppDBDemoMT.cpp:93-123 | before it loads, stores or is gone a worker has had a turn for every step of its try block, for leaving it and, if it throws, for the handler; so a phase that is over has given its worker all of them and the decrement |
| DemoBarrier.MainWaitsLast | Demos/CppDBDemoMT.cpp:172-188 | before main polls in a phase it has had a turn for setting the counter, starting the thread, every step of its own update and, if that throws, the handler, in this phase and in all earlier ones |
| DemoBarrier.StepTowardsEnd | Demos/CppDBDemoMT.cpp:84-90 | no step raises the rank, and the step of whoever main depends on lowers it |
| DemoBarrier.RankFalls | Demos/CppDBDemoMT.cpp:188 | under a fair schedule the rank falls again and again while main is not done |
| DemoBarrier.ReachesEnd | Demos/CppDBDemoMT.cpp:172-230 | under a fair schedule main leaves every wait |
| DemoBarrier.MainFinishesIff | Demos/CppDBDemoMT.cpp:172-230 | under every fair schedule main finishes if and only if every thread it asked for was started |
| DemoBarrier.TakingTurnsIsFair | Demos/CppDBDemoMT.cpp:188 | fair schedules exist |
| RepeatedTest.TestResult.constructor | thirdparty/include/CppUnit/TestResult.h:115-119 | a new result has run nothing and is not stopped |
| RepeatedTest.TestResult.StartTest | thirdparty/include/CppUnit/TestResult.h:141-145 | counts one more run and leaves the stop flag alone |
| RepeatedTest.TestResult.Stop | thirdparty/include/CppUnit/TestResult.h:212-216 | sets the stop flag and leaves the count alone |
| RepeatedTest.TestResult.ShouldStop | thirdparty/include/CppUnit/TestResult.h:204-208 | tells whether `stop` has been called |
| RepeatedTest.Run | thirdparty/include/CppUnit/RepeatedTest.h:62-71 | the loop with its break performs exactly the run that the lemmas below are about, for any nesting and any calls of `stop` |
| RepeatedTest.Uninterrupted | thirdparty/include/CppUnit/RepeatedTest.h:62-71 | without `stop` a run adds the product of the positive repeat counts and the cases, or nothing |
| RepeatedTest.CountIsExactIff | thirdparty/include/CppUnit/RepeatedTest.h:48-51 | the predicted count is the number of runs if and only if no repeat count is negative or some factor is zero |
| RepeatedTest.CountZero | thirdparty/include/CppUnit/RepeatedTest.h:48-51 | prediction and performance are zero exactly when a factor is zero (or, for the performance, negative) |
| RepeatedTest.NegativeRepeatExample | thirdparty/include/CppUnit/RepeatedTest.h:48-71 | two negative repeat counts predict six cases and run none |
| RepeatedTest.StopEndsTheRun | thirdparty/include/CppUnit/RepeatedTest.h:62-71 | the exact count at which a run ends when `stop` is first called at a given one: the end of the batch then running |
| RepeatedTest.StoppedRunsNothing | thirdparty/include/CppUnit/RepeatedTest.h:62-71 | a decorator whose result is already stopped runs nothing |
| RepeatedTest.NeverMoreThanPerformed | thirdparty/include/CppUnit/RepeatedTest.h:62-71 | whoever calls `stop` and when, no more cases run than without |

## Left out

- The bodies of `_my_b_read`, `_my_b_get`, `_my_b_write` and `flush_io_cache` are not part of the headers.
  `ReadFunction`, `WriteFunction` and `Flush` are of our own making and meet the struct's comments, with every
  chunk size and every partial transfer left open. That a transfer fails only when the device cannot hold it,
  and that bytes which did go out leave the buffer, is our reading of these comments.
- `SEQ_READ_APPEND`, `READ_NET`, shared and asynchronous caches, `my_b_seek`, the read callbacks and
  `my_off_t` overflow; a buffer of size 0; the pointer `current_pos`, for which `Tell` chooses by cache type.
- IoCache.Cache.MyBWriteByte: does not model the memory that a byte past the end of the buffer lands on, nor
  calls on a cache that a byte has overrun.
- The purify variant of `uint3korr`, which is the portable one; shift counts beyond the argument's width,
  so `int5store`, `int6store` and `int8store` take a 64-bit argument.
- C undefined behaviour, alignment, aliasing of a value with its target, and textual substitution of macro
  arguments (`NSEC/100` is read as a division of the whole argument).
- NaN, infinities and the sign of zero; extended-precision evaluation; rounding directions other than to
  nearest in `ulonglong2double`.
- Truncation of the seconds to a 32-bit `time_t`.
- `thread_safe_*` on counters wider than a machine word, weak memory ordering, and the lock types whose
  functions have no body here.
- In the demo: that a compiler may keep the plain global `nThreads` in a register, exceptions other than
  `CppDBException`, `LongQueryThreadProc`, real time, and the database calls, each of which is a step that
  returns or throws.
- `TestDecorator::run` and `TestCase::run` have no bodies in the headers: a decorator is assumed to forward,
  and a test to report one `startTest` for each case it counts. Errors, failures, the `ExclusiveZone` lock,
  `TestSuite` and the overflow of the predicted count are not modelled.
- The wrapper classes themselves (`CppDB`, `CppSQLite3`, `CppMySQL`), the declarations of `sqlite3.h` and
  of the MySQL client structures, tables of error codes and options.
