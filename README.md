# A verified model of a minimal file-backed blockchain

The program keeps a chain of blocks in one append-only binary file. It has a
small command-line front end: `a` appends a block holding the remaining
arguments joined by spaces, `i` and `h` look a block up by index or by
digest, `r` re-validates the whole chain and `d` dumps it. Each block has:

- a 64-bit index and a 64-bit millisecond timestamp;
- the hex SHA-256 digest of the previous block (empty for the root);
- an opaque payload;
- its own digest, computed over the payload alone.

A record on disk is the index and the timestamp as 8 bytes each, then three
strings, each a 4-byte length followed by that many bytes. The program writes
these integers in the host's byte order; the model fixes little-endian.

The model has seven modules:

- `Primitives` (`primitives.dfy`): bytes, fixed-width unsigned integers, their
  little-endian encoding, narrowing to 32 bits, and `Result`, the outcome of a
  read that may hit the end of the file.
- `Blockchain` (`blockchain.dfy`): the block record and `new_block`. The digest
  function is a parameter (`Hasher`).
- `Chain` (`chain.dfy`): the validation rules on a sequence of blocks:
  - the root check;
  - the per-link check;
  - `ValidChain`;
  - the first failing block;
  - the 64-bit block counter.
- `Records` (`records.dfy`): the on-disk format, as pure functions:
  - encoding and decoding of records;
  - the decoding of a whole file (`Parse`);
  - the lookup scan (`Find`);
  - the validation scan, as written and corrected.

  The round trips between encoding and decoding, and the effect of appending,
  are proved here.
- `Storage` (`storage.dfy`): the `storage` class. Its stream becomes the fields
  `file` (the file's bytes) and `pos` (the stream position). Every read, write
  and scan method is proved against the `Records` functions, including where
  it leaves the position.
- `Cli` (`cli.dfy`): `add_block`, `get_by_idx`, `get_by_hash`, `dump` and
  `main`. A run of the program is specified by the function `Outcome`, which
  gives the exit status and the file afterwards.
- `Helpers` (`helpers.dfy`): the leap-year rule and `time_t_to_tm`, specified
  by the calendar predicate `CalendarOf`. `CalendarUnique` proves that this
  predicate determines the broken-down time uniquely.

A read that finds fewer bytes than it asks for trips an `assert` in the
program. The model represents that as `ShortRead`, and `main` then ends with
`Abort`.

## Model

| member | source | states |
|---|---|---|
| Primitives.Trunc32IsMod | storage.hpp:204 | storing a string length into a 32-bit size keeps it modulo 2^32 |
| Primitives.LittleEndian | storage.hpp:211-212 | an integer below 256^w is written as exactly w bytes that read back as the same integer |
| Primitives.LittleEndianOfDecoded | storage.hpp:230-231 | re-encoding the integer read from any w bytes gives back those bytes |
| Blockchain.NewBlock | blockchain.hpp:24-34 | the new block carries the given index, the clock value, the given previous digest, the first `size` bytes of the buffer, and the digest of that payload |
| Blockchain.DigestIgnoresLinkage | blockchain.hpp:31 | a block's digest depends on its payload alone: index, timestamp and previous digest do not change it |
| Chain.LinkFailureFrom | storage.hpp:165-182 | checking the links from block k on passes iff every link from k is sound, and otherwise reports the first failing block's error and index |
| Chain.FirstFailureIsFirst | storage.hpp:143-185 | a chain passes validation iff it is `ValidChain`; a failure names the first bad block, with its index and a code other than `ok` |
| Chain.Inc | storage.hpp:46 | `++` on a 64-bit counter wraps 2^64 - 1 round to 0 |
| Chain.CountedSnoc | storage.hpp:55-60 | one more block read bumps the counter once more |
| Chain.CountedIsSum | storage.hpp:42-47 | a counter started at n0 and bumped once per block holds n0 plus the number of blocks, modulo 2^64 |
| Chain.ValidChainIndex | storage.hpp:171-174 | in a valid chain, block i has index i modulo 2^64 |
| Chain.AppendKeepsValid | main.cpp:27-38 | appending a block whose index is the chain length, whose link is the last digest and whose digest matches its payload keeps the chain valid |
| Records.EncodeString | storage.hpp:203-207 | a string shorter than 2^32 is written as its 4-byte length followed by its bytes |
| Records.EncodeBlock | storage.hpp:208-216 | a block record takes 28 bytes plus the lengths of its three strings |
| Records.ReadUIntAt | storage.hpp:230-231 | a fixed-width read succeeds iff that many bytes remain, and advances by the width |
| Records.ReadStringAt | storage.hpp:218-226 | a string read consumes its 4-byte length and then that many bytes, which must all be present |
| Records.ReadBlockAt | storage.hpp:227-237 | a decoded record is at least 28 bytes long and lies inside the file |
| Records.ReadBlockAtEncoded | storage.hpp:208-237 | a record written for a block decodes to that same block at any offset, ending right after the record |
| Records.ReadBlockAtIsEncoding | storage.hpp:227-237 | whatever decodes at an offset is exactly the encoding of the block it decodes to |
| Records.ReadBlockAtExtend | storage.hpp:65-67 | appending bytes does not change a record that already decodes |
| Records.ParseFromStep | storage.hpp:44-47 | the scan from a record is that record followed by the scan from the next one |
| Records.ParseFromShort | storage.hpp:227-237 | a record that does not decode leaves the file undecodable from that point |
| Records.ParseFromEncodable | storage.hpp:227-237 | every block read back from a file has strings shorter than 2^32 |
| Records.ParseAppend | storage.hpp:65-67 | appending a block's record to a file that decodes gives a file that decodes to the old blocks followed by that block |
| Records.ParseEncodeAll | storage.hpp:208-237 | a file made of the records of a list of blocks decodes to exactly that list |
| Records.FindFromFirstMatch | storage.hpp:76-85 | a scan from a record finds the first matching block after it |
| Records.FindFromNoMatch | storage.hpp:76-89 | with no match, a scan reports not found with the last block read, or a short read |
| Records.FindIsFirstMatch | storage.hpp:69-112 | a lookup returns the first block matching the key; with no match it reports not found, or a short read on a file that does not decode |
| Records.FindStopIsAfterMatch | storage.hpp:69-112 | a lookup leaves the position just past the first matching record, so the rest of the file decodes to the blocks after it; with no match the position ends at the end of the file |
| Records.GuardedRecheckFromIsLinkFailure | storage.hpp:165-182 | the corrected link loop over the rest of the file is the first link failure of the decoded blocks, or a short read |
| Records.GuardedRecheckIsFirstFailure | storage.hpp:143-185 | the corrected validation reports the first failing block of the decoded chain; it passes iff the file decodes completely to a valid chain |
| Records.RecheckStopIsAfterFailure | storage.hpp:143-182 | validation leaves the position just past the first failing record, so the rest of the file decodes to the blocks after it |
| Records.RecheckStopAllPass | storage.hpp:143-185 | when no decoded block fails, validation leaves the position at the end of the file |
| Records.RecheckFromIsGuarded | storage.hpp:165-182 | when another record follows, the do/while loop agrees with the corrected loop |
| Records.SingleGoodRootIsValid | storage.hpp:143-163 | a file holding a single good root block decodes completely to a valid one-block chain |
| Records.RecheckScanAsWritten | storage.hpp:143-185 | the validation as written agrees with the corrected one, except on a file holding a single good root block, where it reads past the end |
| Storage.CountOfScan | storage.hpp:37-50 | a counter bumped once per block of a complete scan equals the number of blocks modulo 2^64 |
| Storage.Storage.constructor | storage.hpp:13-19 | a freshly opened store holds the file's bytes with the position at 0 |
| Storage.Storage.Open | storage.hpp:13-19 | opening fails exactly when the file can be neither opened nor created |
| Storage.Storage.FSize | storage.hpp:188-195 | the size is the file length, and the position is restored |
| Storage.Storage.Empty | storage.hpp:24-28 | true iff the file has no bytes; the position is unchanged |
| Storage.Storage.AtEnd | storage.hpp:30-35 | true iff the position is the end of the file; the position is unchanged |
| Storage.Storage.SeekToBegin | storage.hpp:196-198 | the position becomes 0 |
| Storage.Storage.SeekToEnd | storage.hpp:199-201 | the position becomes the file length |
| Storage.Storage.ReadUInt | storage.hpp:230-231 | reads the fixed-width integer at the position and advances past it; a short read leaves the position at the end |
| Storage.Storage.ReadString | storage.hpp:218-226 | reads the length-prefixed string at the position and advances past it, or reports a short read |
| Storage.Storage.ReadBlock | storage.hpp:227-237 | reads the record at the position, field by field, and advances past it, or reports a short read |
| Storage.Storage.First | storage.hpp:114-119 | reads the record at offset 0 |
| Storage.Storage.Next | storage.hpp:120-124 | reads the record at the current position |
| Storage.Storage.ScanStep | storage.hpp:44-47 | one read-then-`at_end` step of a scan keeps the blocks read so far plus the rest of the scan equal to the file's decoding; a short read or the last record leaves the position at the end |
| Storage.Storage.WriteUInt | storage.hpp:211-212 | appends the integer's little-endian bytes |
| Storage.Storage.WriteString | storage.hpp:203-207 | appends the 32-bit length and as many bytes of the string as that length says |
| Storage.Storage.WriteBlock | storage.hpp:208-216 | seeks to the end and appends exactly the block's record |
| Storage.Storage.Add | storage.hpp:65-67 | appends the record and keeps the old bytes; on a file that decodes, the new file decodes to the old blocks followed by the new one |
| Storage.Storage.Blocks | storage.hpp:37-50 | the number of blocks modulo 2^64 (0 on an empty file), or a short read on a file that does not decode; the position ends at the end of the file |
| Storage.Storage.LastBlock | storage.hpp:51-63 | the last decoded block, with the counter bumped once per block; a short read on an empty or undecodable file; the position ends at the end of the file |
| Storage.Storage.Search | storage.hpp:69-112 | the result of the lookup scan `Find` on the file, with the position where `FindStop` puts it |
| Storage.Storage.GetByIdx | storage.hpp:69-90 | the lookup by index, with the position where that lookup leaves it |
| Storage.Storage.GetByHash | storage.hpp:91-112 | the lookup by digest, with the position where that lookup leaves it |
| Storage.Storage.FormatError | storage.hpp:133-142 | the message is "ok" exactly for the `ok` code |
| Storage.Storage.Recheck | storage.hpp:143-185 | the validation as written: its code and bad index are those of the as-written scan, and the position ends at `RecheckStop` |
| Storage.Storage.RecheckGuarded | storage.hpp:143-185 | the corrected validation: the code is `ok` iff the file decodes completely to a valid chain, and a failure names the first bad block; the position ends at `RecheckStop` |
| Cli.JoinLength | main.cpp:96-108 | the joined payload is as long as the words plus one separator between each pair |
| Cli.JoinCons | main.cpp:102-107 | the payload is the first word, a space, and the join of the rest |
| Cli.JoinArgs | main.cpp:96-108 | the loop builds the words after the command joined by single spaces |
| Cli.NextBlockExtendsChain | main.cpp:27-38 | the block `add_block` builds extends a valid chain: root index 0 with an empty link, or the last index plus one linked to the last digest |
| Cli.NextOf | main.cpp:28-35 | the block to append is built from the decoded chain, or the run stops at a short read; the position ends at the end of the file |
| Cli.AddBlock | main.cpp:27-38 | appends exactly that block's record and writes nothing after a short read; the position ends at the end of the file either way; on a payload shorter than 2^32 the file then decodes to the old blocks plus that block |
| Cli.GetByIdx | main.cpp:40-50 | succeeds iff a block with that index is found; the position ends where that lookup leaves it |
| Cli.GetByHash | main.cpp:52-62 | succeeds iff a block with that digest is found; the position ends where that lookup leaves it |
| Cli.Dumped | main.cpp:69-81 | the dump lists the decoded blocks in file order, or stops at a short read |
| Cli.Dump | main.cpp:69-81 | the blocks visited are exactly the file's decoded blocks; the position ends at the end of the file |
| Cli.Outcome | main.cpp:85-175 | only the `a` command changes the store, it only appends, and it then exits with success |
| Cli.RecheckCommand | main.cpp:141-153 | `r` as written: success only on a file that decodes to a valid chain, and on every such file except one holding a single good root block, which aborts; the file is unchanged |
| Cli.GuardedRecheckCommand | main.cpp:141-153 | with the corrected validation pass, `r` would succeed exactly on a file that decodes to a valid chain, and abort only on one that does not decode |
| Cli.AddCommandKeepsChain | main.cpp:96-113 | `a` with a payload shorter than 2^32 bytes, on a valid chain, gives a valid chain one block longer, with the old blocks unchanged |
| Cli.Run | main.cpp:85-175 | the exit status and the resulting file are those `Outcome` specifies |
| Helpers.DaysInYear | helpers.hpp:23-24 | a year has 366 days iff it is divisible by 4 and either not by 100 or by 400 |
| Helpers.DaysInMonth | helpers.hpp:28-42 | months have 28 to 31 days, and 29 only for February of a leap year |
| Helpers.MonthStartIsSum | helpers.hpp:28-42 | the cumulative table, shifted by one day after February in a leap year, is the running total of the month lengths |
| Helpers.MonthStartNext | helpers.hpp:28-42 | each month starts where the previous one ends, and the twelve fill the year |
| Helpers.MonthSearch | helpers.hpp:67-76 | after the leap-day adjustment, the backwards table search picks the month holding the day, and the day number lies within it |
| Helpers.DaysBeforeGrows | helpers.hpp:57-63 | a later year starts at least the length of the earlier year after the earlier one starts |
| Helpers.TimeToTm | helpers.hpp:26-79 | the conversion gives a valid time of day matching t mod 86400, the weekday counted from a Thursday, and a year, day of year, month and day that add up to t / 86400 days since 1970; 29 February only in leap years |
| Helpers.CalendarSameDay | helpers.hpp:57-63 | two broken-down times of the same t have the same year and day of the year |
| Helpers.MonthOfDayUnique | helpers.hpp:67-76 | a day of the year lies in at most one month, at at most one day of it (`Helpers.MonthSearch` finds one) |
| Helpers.CalendarUnique | helpers.hpp:26-79 | at most one broken-down time satisfies that description for each t |
| Helpers.Epoch | helpers.hpp:46-78 | second 0 is Thursday 1 January 1970, 00:00:00 |

## Left out

- The SHA-256 implementation is not part of this model. The digest function is the parameter `hash`.
- The system clock (`timestamp()`) is the parameter `clock`.
- The program's file is the bytes `file`, its stream position is `pos`, and opening it is `Storage.Open` on an optional byte string. `FILE*` buffering, I/O errors and `fclose` are not modelled.
- Builds with `NDEBUG` are not modelled. They drop the `assert`s around reads and writes. The model always treats a short read as fatal (`ShortRead`, then `Abort`) and a write as succeeding.
- Terminal output is not modelled: `usage`, the texts printed by `main`, `dump(std::ostream&, const block&)` and `format_timestamp`. `Cli.Dump` returns the blocks it would print.
- `Cli.Dump`: the blocks printed before a short read stops the dump are not returned. It reads with the same read and `at_end` sequence as `first()` and `next()`.
- `std::stoul` is the parameter `stoul`. `None` stands for the exception it throws.
- The exception that constructing a string from a missing `argv[2]` raises is modelled only as a failed exit. Exception messages are not modelled.
- The model fixes little-endian byte order; the program writes integers in the host's native byte order. Big-endian hosts are not modelled.
- `Helpers.TimeToTm`: only non-negative `t` is modelled. For negative `t`, C++ `%` and `/` truncate and the year loop does not handle them.
- `Helpers.TimeToTm`: the narrowing of years beyond 2^31 into `int tm_year` is not modelled, because `t` is unbounded here.
- `tm_isdst` and the other fields that `time_t_to_tm` leaves zeroed are not modelled.

## Findings

| source | as written | input that shows it | evidently intended | confidence | as-written member | corrected member |
|---|---|---|---|---|---|---|
| storage.hpp:165-182 | after checking the root, `recheck` reads the next block in a do/while loop before it tests `at_end()` | a file holding exactly one record: index 0, empty previous digest, digest matching its payload; the loop reads past the end and the read assertion fires, so `r` aborts on a valid chain (`Cli.RecheckCommand`, `Records.SingleGoodRootIsValid`) | a `while (!at_end())` loop, so that a single good root block is reported `ok` | not executed | Records.RecheckScanAsWritten | Storage.Storage.RecheckGuarded |
