# MASQ, verified

A model in Dafny of the parts of MASQ that are hardest to get right, and proofs of what
they promise.

- **IP addresses to countries** (`masq-node-mobile/ip_country`). Blocks of addresses are
  coalesced, serialised as differences between start addresses into a bit queue, packed
  into 64-bit words, loaded, decoded and searched. `Coalescing.Parse` and
  `Pipeline.BuildFinder` state the whole way: what a lookup answers for any address is
  read off the ranges that went in. The bit queue is an imperative class over bytes,
  proved to be a first-in first-out queue of bits over every history of calls.
- **Subverting Windows DNS** (`masq-node-mobile/dns_utility`). Subvert and revert walk
  the interfaces of the registry, may fail at any call, and roll back. `WinDns.Run`
  states what holds over every run.
- **Subverting resolv.conf** (same crate). `NameserverScan` spells out the three regular
  expressions as a scanner, and proves what they find after an edit; `NameserverEdits`
  does so for directives that were commented out already; `ResolvConf` has the two
  operations, and says exactly when they fail and when they undo each other.
- **Opening the browser** (`masq-mobile`). The screens, the opens and closes under way and
  the native queue of routing requests are one state machine over every interleaving.
  `BrowserSession` proves that traffic never goes another way than the screen says, that
  closing blocks it, and which steps an open must have got through to be shown.
- **Writing amounts** (`masq-mobile/src/core/walletBalance.ts`). `FormatUnits` proves that
  what is shown is the amount, rounded down, in the one form without needless zeros.

`Seqs` and `Words` hold what is needed about sequences, shifts, masks and bits, `Wrappers`
the types for missing values and errors.
`dafny verify dfyconfig.toml` checks everything.

Code and comments disagree in two places, and the model follows the code:

- `masq-node-mobile/ip_country/src/bit_queue.rs:9` calls the unused bits of the front byte
  its low-order ones. Taking shifts the byte right, so they are its high-order ones.
- `masq-node-mobile/ip_country/src/country_block_serde.rs:30-32` has the deserializer
  invent a leading block. It does not; the serializer writes one (lines 256-266).

Four properties do not hold without a condition, and are stated with the exact one:

- Reverting a resolv.conf undoes subverting it, but for one line break, exactly when no
  directive was commented out before (`RoundTrip`). Subverting hides every other name
  server, and keeps its own result when repeated, exactly when no bare `#` stands on a
  line above a directive (`OnlyMasqIsActive`, `SubvertTwice`): the new `#` goes in front
  of the bare one, and the directive below stays active (`BareHashFails`, with 1.1.1.1
  and 8.8.8.8 among its addresses).
- `revert` is meant to leave a resolv.conf alone that was not subverted. It looks for any
  active address that starts with 127.0.0.1, so it does so exactly when there is none
  (`RevertLeavesAlone`, `RevertLeavesEveryLine`; 127.0.0.12 falls under
  `LooserThanSubvert`).
- A country's index survives the stream exactly when it is below 512
  (`CountryFieldIsExact`); a larger one also spills into the record behind it
  (`SurplusSpills`, `SpilledCount`).
- The open functions of `masq-mobile/App.tsx` have no guard against opening one browser
  while the other is on screen. The home screen alone offers opens, which is enough
  (`Orderly`) for `ModeSafety`; `DisorderBreaksSafety` shows that without it traffic can
  go the wrong way. `FailClosed`, `BackgroundHides` and `DirectNeedsShutdown` need no
  such condition.

## Model

| member | source | states |
|---|---|---|
| `BitQueues.Replay` | masq-node-mobile/ip_country/src/bit_queue.rs:28-103 | Over every history of calls that add at most 64 bits of data fitting its count or take at most 64 bits, the answers are those of a plain first-in first-out queue of bits, and no internal panic is reached |
| `BitQueues.BitQueue.constructor` | masq-node-mobile/ip_country/src/bit_queue.rs:19-26 | A new queue holds no bits and nothing in its blank bits |
| `BitQueues.BitQueue.Len` | masq-node-mobile/ip_country/src/bit_queue.rs:28-30 | The length computed from bytes and blank counts is the number of bits held, in every valid shape, the drained one-byte shape too |
| `BitQueues.BitQueue.IsEmpty` | masq-node-mobile/ip_country/src/bit_queue.rs:32-34 | Empty exactly when no bit is held |
| `BitQueues.BitQueue.AddBits` | masq-node-mobile/ip_country/src/bit_queue.rs:37-56 | From any valid state and with any data: what is appended is the low `count` bits of the data ored with what lay in the blank bits of the back byte, least significant first, and what lies there afterwards is exactly the surplus; in a clean queue that is the data itself |
| `BitQueues.BitQueue.AddFirst` | masq-node-mobile/ip_country/src/bit_queue.rs:44-49 | Front part and whole bytes append a prefix of those bits and leave fewer than eight for a back byte with room for them, so the final count check never panics |
| `BitQueues.BitQueue.TakeBits` | masq-node-mobile/ip_country/src/bit_queue.rs:59-103 | None exactly when too few bits are held, and then nothing changes; otherwise the oldest `count` bits leave the queue and are returned as a number, least significant first |
| `BitQueues.BitQueue.AddSomeBackBits` | masq-node-mobile/ip_country/src/bit_queue.rs:117-135 | Appends as many bits as the back byte has room for, and leaves a fresh back byte when it is filled |
| `BitQueues.BitQueue.AddBackBytes` | masq-node-mobile/ip_country/src/bit_queue.rs:137-165 | Appends all whole bytes of the count; needs an empty back byte only when there is a whole byte to add, so its panic is unreachable from `AddBits` |
| `BitQueues.BitQueue.PushBytes` | masq-node-mobile/ip_country/src/bit_queue.rs:158-163 | The pushed bytes hold exactly the low bits of the data, in order |
| `BitQueues.BitQueue.TakeSomeFrontBits` | masq-node-mobile/ip_country/src/bit_queue.rs:167-192 | What it takes is a prefix of the bits held; taking less than asked leaves the front byte whole or empty |
| `BitQueues.BitQueue.TakeFrontBytes` | masq-node-mobile/ip_country/src/bit_queue.rs:194-229 | Takes all whole bytes of the count as a prefix of the bits held, from a front byte that is whole or empty, without running out of bytes |
| `BitQueues.BitQueue.PopBytes` | masq-node-mobile/ip_country/src/bit_queue.rs:215-223 | The popped bytes, joined by shifts below 64, are the number their bits stand for |
| `BitQueues.BitQueue.TakeFromFront` | masq-node-mobile/ip_country/src/bit_queue.rs:70-81 | Front bits at position 0 and whole bytes at a position of at most 8 together are a prefix of the bits held that leaves fewer than eight bits to take |
| `BitQueues.BitQueue.TakeRemainder` | masq-node-mobile/ip_country/src/bit_queue.rs:83-101 | The remaining bits, from the front byte or else the back byte, are always all there and join the word so far at the position reached, which stays below 64 for every shift made; the final count check never panics |
| `BitQueues.BitQueue.TakeSomeBackBits` | masq-node-mobile/ip_country/src/bit_queue.rs:231-251 | With the front byte empty and nothing in between, the back byte's low bits are the next bits of the queue |
| `BitQueues.LowByte` | masq-node-mobile/ip_country/src/bit_queue.rs:159-159 | Masking with eight ones keeps exactly the low eight bits of the word |
| `BitQueues.MaskLow` | masq-node-mobile/ip_country/src/bit_queue.rs:180-180 | The masked low bits of a byte are the number its first `k` bits stand for, for `k` up to 8 |
| `BitQueues.OrIntoByte` | masq-node-mobile/ip_country/src/bit_queue.rs:123-128 | Oring shifted data into a byte keeps its live bits and ors the data's bits onto those above them |
| `BitQueues.Merge` | masq-node-mobile/ip_country/src/bit_queue.rs:73-95 | Oring a part, shifted to any position below 64, onto the word so far appends its bits, an empty part too |
| `BitQueues.ResidueIsZero` | masq-node-mobile/ip_country/src/bit_queue.rs:122-133 | An addition leaves nothing behind its bits exactly when the data's next bits above the count are zero; data that fits its count always qualifies |
| `Words.LowOrderOnes` | masq-node-mobile/ip_country/src/bit_queue.rs:113-115 | The mask of `count` ones is 2^count - 1 for every count below 64 |
| `Addresses.PlusMinusInverse` | masq-node-mobile/ip_country/src/country_block_serde.rs:382-407 | Wrapping successor and predecessor of an address undo each other over the whole address space, at both ends too |
| `Addresses.IntegerFromIp` | masq-node-mobile/ip_country/src/country_block_serde.rs:409-423 | Shifting the octets in one by one gives back the address as a number, with no overflow in 32 or 128 bits |
| `Addresses.SegmentsRoundTrip` | masq-node-mobile/ip_country/src/country_block_serde.rs:358-380 | An address is recovered from its segments, each of which fits its width |
| `Addresses.DifferenceCodec` | masq-node-mobile/ip_country/src/country_block_serde.rs:305-322 | For every two addresses the differences list exactly the segments that differ, each once and in ascending order, fit their bit fields, and applied to the first address give the second; none are listed exactly when the addresses are equal |
| `Addresses.ApplyKeepsDigits` | masq-node-mobile/ip_country/src/country_block_serde.rs:661-675 | Whatever differences are read off a stream, the segments stay within their width, so the conversion never fails |
| `StreamFormat.CountryFieldIsExact` | masq-node-mobile/ip_country/src/country_block_serde.rs:276-276 | The nine-bit field gives a country's index back exactly when it is below 512; 512 itself reads as 0 |
| `StreamFormat.RecordLayout` | masq-node-mobile/ip_country/src/country_block_serde.rs:267-276 | A record is as long as the number of segments that differ calls for and no longer; it starts with that number less one and ends with nine bits of country |
| `StreamFormat.RecordField` | masq-node-mobile/ip_country/src/country_block_serde.rs:271-275 | Each difference stands at its own place in the record, index first and then value |
| `StreamFormat.InitialSegments` | masq-node-mobile/ip_country/src/country_block_serde.rs:158-173 | The start before the first record has all bits set but the lowest |
| `StreamFormat.FirstRecordIsFull` | masq-node-mobile/ip_country/src/country_block_serde.rs:267-276 | So the first record, from address 0, lists every segment |
| `Serializer.SurplusSpills` | masq-node-mobile/ip_country/src/country_block_serde.rs:269-276 | In the queue an index of any size appends its low nine bits, and the difference count of the record behind it comes out ored with as many of the index's higher bits as the back byte had room for |
| `Serializer.SpilledCount` | masq-node-mobile/ip_country/src/country_block_serde.rs:269-276 | Behind an index of 512 a record's difference count is read right exactly when it is even |
| `StreamFormat.ReadsDifferences` | masq-node-mobile/ip_country/src/country_block_serde.rs:602-616 | Reading the written differences gives them back and leaves the bits behind them |
| `StreamFormat.ReadsRecord` | masq-node-mobile/ip_country/src/country_block_serde.rs:548-564 | Reading a written record gives back its start and country and leaves exactly the bits behind it |
| `StreamFormat.TooShortToRead` | masq-node-mobile/ip_country/src/country_block_serde.rs:553-558 | No record comes out of fewer bits than its difference count calls for |
| `StreamFormat.CutRecordIsNotRead` | masq-node-mobile/ip_country/src/country_block_serde.rs:548-564 | A record cut off after any number of bits is not read |
| `StreamFormat.ChainAppend` | masq-node-mobile/ip_country/src/country_block_serde.rs:267-278 | Writing one more record appends its bits to the stream |
| `StreamFormat.WholeRecordsIsLargest` | masq-node-mobile/ip_country/src/country_block_serde.rs:548-564 | The number of whole records in the first `n` bits is the largest whose encoding fits into them |
| `StreamFormat.DecodePrefix` | masq-node-mobile/ip_country/src/country_block_serde.rs:548-600 | A stream cut off after any number of bits decodes to exactly its whole records |
| `StreamFormat.DecodeEncode` | masq-node-mobile/ip_country/src/country_block_serde.rs:548-617 | Decoding inverts encoding for every chain of records |
| `Serializer.AddDifferences` | masq-node-mobile/ip_country/src/country_block_serde.rs:271-275 | The loop appends the encoding of the whole difference list |
| `Serializer.AddRecord` | masq-node-mobile/ip_country/src/country_block_serde.rs:267-276 | Appends exactly the encoding of the record; the difference list is never empty, so the count minus one does not underflow |
| `Serializer.VersionedIpSerializer.constructor` | masq-node-mobile/ip_country/src/country_block_serde.rs:290-303 | Starts without blocks, as if the last block had ended at the largest address |
| `Serializer.VersionedIpSerializer.AddFollowing` | masq-node-mobile/ip_country/src/country_block_serde.rs:267-279 | Writes one block; the queue stays the encoding of all blocks written, and the count their number |
| `Serializer.VersionedIpSerializer.AddIp` | masq-node-mobile/ip_country/src/country_block_serde.rs:247-281 | Writes the block, after one filler of country 0 when it does not follow on; the recursion is at most one deep, and the precondition is just what keeps the difference list from being empty |
| `CountryBlockSerializers.OrderedStep` | masq-node-mobile/ip_country/src/country_block_serde.rs:256-268 | For blocks in order the filler is exactly the gap, and there is always a difference to write |
| `CountryBlockSerializers.FinishStep` | masq-node-mobile/ip_country/src/country_block_serde.rs:187-194 | Finishing fills exactly the gap behind the last block, and does nothing when there is none or no block was given |
| `CountryBlockSerializers.CountryBlockSerializer.constructor` | masq-node-mobile/ip_country/src/country_block_serde.rs:158-173 | Both families start without blocks |
| `CountryBlockSerializers.CountryBlockSerializer.Add` | masq-node-mobile/ip_country/src/country_block_serde.rs:175-180 | A block above all earlier ones of its family is added to that family and leaves the other alone |
| `CountryBlockSerializers.CountryBlockSerializer.Finish` | masq-node-mobile/ip_country/src/country_block_serde.rs:182-209 | Each queue holds the encoding of its family's blocks with every gap filled, at the front and at the tail too, and the count is the number of those records; a family without blocks stays empty |
| `Tiling.CoveredTiles` | masq-node-mobile/ip_country/src/country_block_serde.rs:182-194 | Sorted, disjoint blocks with their gaps filled start at address 0, follow on from one another and end at the largest address |
| `Tiling.CoveredMeansTheSame` | masq-node-mobile/ip_country/src/country_block_serde.rs:256-266 | Filling the gaps changes no address's country |
| `Tiling.BlocksOfStarts` | masq-node-mobile/ip_country/src/country_block_serde.rs:29-34 | The starts alone determine blocks that tile: each ends just before the next, the last at the largest address |
| `Tiling.FilledAppend` | masq-node-mobile/ip_country/src/country_block_serde.rs:256-266 | Adding a block in order appends it to the written blocks, behind the filler of its gap |
| `Tiling.FilledThenTail` | masq-node-mobile/ip_country/src/country_block_serde.rs:187-194 | Filling behind the last block makes the written blocks cover everything |
| `WordPacking.Drain` | masq-node-mobile/ip_country/src/ip_country.rs:138-155 | The words hold exactly the bits of the queue and are as few as possible, the bit count is its length, and the queue ends empty |
| `WordPacking.WriteValue` | masq-node-mobile/ip_country/src/ip_country.rs:166-183 | Moves the next bits of the queue into one more word and loses none; they are always there |
| `WordPacking.Load` | masq-node-mobile/ip_country/src/country_block_serde.rs:690-701 | A fresh queue holds exactly the counted bits of the words, whatever the last word holds beyond them |
| `Countries.FindSentinel` | masq-node-mobile/ip_country/src/countries.rs:31-38 | Finds the first sentinel; removing it gives the pairs without it |
| `Countries.SortByCode` | masq-node-mobile/ip_country/src/countries.rs:39-39 | The result is sorted by code and has the same pairs |
| `Countries.AtMostIs` | masq-node-mobile/ip_country/src/countries.rs:39-39 | The order of codes: one is the beginning of the other, or smaller at the first place where they differ |
| `Countries.FromVec` | masq-node-mobile/ip_country/src/countries.rs:13-24 | The map has exactly the codes of the countries, and leads to a country of that code when each carries its position as index |
| `Countries.New` | masq-node-mobile/ip_country/src/countries.rs:27-48 | For every list of pairs: sentinel first, the other pairs all there and sorted by code, each with its position as index; distinct codes stay distinct |
| `Countries.CodeAndIndexAgree` | masq-node-mobile/ip_country/src/countries.rs:50-73 | In a table with distinct codes every country with an upper-case code is found both by its code and by its index |
| `Countries.FoundByCode` | masq-node-mobile/ip_country/src/countries.rs:50-62 | For every code: a country is found exactly when the table has the code in upper case, it has that code, and with distinct codes it is the only one |
| `Deserializer.ReadDifferencesFrom` | masq-node-mobile/ip_country/src/country_block_serde.rs:602-616 | From any bits, the loop reads what the format's definition reads and leaves the same bits, failed attempts included |
| `Deserializer.NewStart` | masq-node-mobile/ip_country/src/country_block_serde.rs:661-675 | Updating the segments in place, in order, gives the start that the differences stand for |
| `Deserializer.GetRecord` | masq-node-mobile/ip_country/src/country_block_serde.rs:548-564 | From any bits at all, reads what the format's definition reads and leaves the same bits |
| `Deserializer.CountryBlockDeserializer.constructor` | masq-node-mobile/ip_country/src/country_block_serde.rs:528-546 | Holds the records that the words decode to, the first read ahead; needs one, as the source panics without |
| `Deserializer.CountryBlockDeserializer.Next` | masq-node-mobile/ip_country/src/country_block_serde.rs:566-600 | Yields the next record's block, ending just before the following start or at the largest address, and afterwards None for ever |
| `Deserializer.CountryBlockDeserializer.CollectVec` | masq-node-mobile/ip_country/src/country_finder.rs:33-38 | Collects the blocks of all pending records, in order |
| `CountryBlocks.OrderingByRange` | masq-node-mobile/ip_country/src/country_block_stream.rs:76-104 | Compares as equal exactly when the range contains the address |
| `CountryFinder.SearchAgreement` | masq-node-mobile/ip_country/src/country_block_stream.rs:41-109 | Over sorted, disjoint blocks of one family, with or without gaps, binary search finds exactly what a linear scan with `contains` finds |
| `CountryFinder.OrderingIsMonotone` | masq-node-mobile/ip_country/src/country_finder.rs:47-48 | The comparison partitions sorted blocks as `binary_search_by` asks for, with at most one that is equal |
| `CountryFinder.AnySearchAgrees` | masq-node-mobile/ip_country/src/country_finder.rs:47-48 | Every answer that meets the promise of `binary_search_by` is the one the model computes, whichever way the library halves |
| `CountryFinder.SentinelIsThere` | masq-node-mobile/ip_country/src/country_finder.rs:51-54 | A table built by `New` has the sentinel to fall back on, so the lookup of `ZZ` never panics |
| `CountryFinder.FindCountryIsLookup` | masq-node-mobile/ip_country/src/country_finder.rs:42-60 | An address gets the country of the block that contains it, None when that is the sentinel, and None when no block does |
| `Pipeline.TilesChain` | masq-node-mobile/ip_country/src/country_block_serde.rs:267-268 | Records of blocks that tile always differ from the one before, so each can be written |
| `Pipeline.Truncation` | masq-node-mobile/ip_country/src/country_block_serde.rs:548-600 | Of any tiling stream cut off after `n` bits exactly the whole records are decoded, and their blocks are the original ones, the last extended to the largest address |
| `Pipeline.ReadCut` | masq-node-mobile/ip_country/src/country_block_serde.rs:528-600 | The deserializer run on the words of such a cut stream, with at least one whole record, yields exactly those blocks and then None |
| `Pipeline.YieldOfCovered` | masq-node-mobile/ip_country/src/country_block_serde.rs:566-600 | The records of the filled blocks yield exactly those blocks with their countries |
| `Pipeline.ThereAndBack` | masq-node-mobile/ip_country/src/country_finder.rs:33-38 | Packing a finished queue, loading and decoding it gives back the input blocks with every gap filled |
| `Pipeline.FinderAnswers` | masq-node-mobile/ip_country/src/country_finder.rs:42-60 | A finder built from blocks answers each address with the visible country that its block has in the table |
| `Pipeline.Serialize` | masq-node-mobile/ip_country/src/ip_country_mmdb.rs:87-92 | Adding blocks of both families in any interleaving leaves each family's encoded, covered blocks and their count |
| `Pipeline.BuildFinder` | masq-node-mobile/ip_country/src/country_finder.rs:26-60 | End to end: for all blocks sorted and disjoint per family, every address is answered with the country of the input block that contains it, and None exactly when no block does or that block is the sentinel; the finder holds as many blocks as the serializer counted |
| `Coalescing.AddOrCoalesce` | masq-node-mobile/ip_country/src/ip_country_mmdb.rs:109-130 | Keeps the ranges sorted, with no two left that could be one, and changes no address's code |
| `Coalescing.Coalesce` | masq-node-mobile/ip_country/src/ip_country_mmdb.rs:108-130 | For all sorted ranges: the result is sorted, fully coalesced, and gives every address the same code |
| `Coalescing.MakeCountryBlocks` | masq-node-mobile/ip_country/src/ip_country_mmdb.rs:64-86 | Every range gets a country of its code, in whichever case it is written, and the sentinel exactly when the table does not have the code or it is the sentinel's own; all blocks agree with the table |
| `Coalescing.CountryAnswersCode` | masq-node-mobile/ip_country/src/ip_country_mmdb.rs:70-80 | For every code and table: nothing is shown exactly for a code that is not there and for the sentinel, and otherwise a country of the table that has the code |
| `Coalescing.CodeAtSorted` | masq-node-mobile/ip_country/src/ip_country_mmdb.rs:108-130 | Among sorted ranges the code of an address is that of whichever range contains it |
| `Coalescing.Parse` | masq-node-mobile/ip_country/src/ip_country_mmdb.rs:50-95 | From coded ranges to answers: an address in a range is answered with the table's country of that range's code, and with None exactly when no range contains it, the table does not have the code, or it is the sentinel's |
| `Coalescing.NamedIsOwnCountry` | masq-node-mobile/ip_country/src/countries.rs:50-62 | With distinct codes that answer is the very country of that code, in whichever case it is written |
| `WinDns.SubvertedMakesNoSense` | masq-node-mobile/dns_utility/src/win_dns_modifier.rs:374-380 | A list that counts as subverted also contains the local address, so the order of the two checks matters |
| `WinDns.SplitJoins` | masq-node-mobile/dns_utility/src/win_dns_modifier.rs:378-380 | Splitting at commas loses nothing and leaves no comma in a part |
| `WinDns.PartIff` | masq-node-mobile/dns_utility/src/win_dns_modifier.rs:378-380 | A word without comma is one of the parts exactly when it stands in the list between commas or ends |
| `WinDns.ChecksAre` | masq-node-mobile/dns_utility/src/win_dns_modifier.rs:374-380 | For every list: it makes no sense exactly when 127.0.0.1 stands in it anywhere, and counts as subverted exactly when it stands first |
| `WinDns.GatewayIs` | masq-node-mobile/dns_utility/src/win_dns_modifier.rs:382-397 | The default gateway is the one from DHCP, without that the other one, and none when it is empty |
| `WinDns.InterfacesToSubvert` | masq-node-mobile/dns_utility/src/win_dns_modifier.rs:142-180 | Finds interfaces exactly when some openable one has a gateway and a name server and all such have the same gateway; then all of them, in order |
| `WinDns.WinDnsModifier.SubvertInterface` | masq-node-mobile/dns_utility/src/win_dns_modifier.rs:238-262 | Success backs up and replaces a list without 127.0.0.1, or leaves a subverted one; failure leaves the interface as it was or with a backup added, and without a failed registry call occurs only when 127.0.0.1 stands in the list, and not first |
| `WinDns.WinDnsModifier.RollBackSubvert` | masq-node-mobile/dns_utility/src/win_dns_modifier.rs:299-315 | Restores from the backup and deletes it, for that interface only |
| `WinDns.RollBackFromAnywhere` | masq-node-mobile/dns_utility/src/win_dns_modifier.rs:299-315 | Rolling back gives the same interface however far subverting it had got |
| `WinDns.RollBackRestoresIff` | masq-node-mobile/dns_utility/src/win_dns_modifier.rs:299-315 | Rolling back leaves an interface alone exactly when it had no backup before, and never loses its original list |
| `WinDns.RollBackIs` | masq-node-mobile/dns_utility/src/win_dns_modifier.rs:299-315 | Rolling back deletes the backup, gives the list back exactly in place of one that starts with 127.0.0.1, and keeps the rest |
| `WinDns.RevertIs` | masq-node-mobile/dns_utility/src/win_dns_modifier.rs:317-339 | Reverting deletes the backup, puts it back where there is a list, creates none where there is none, and keeps the rest |
| `WinDns.RollForwardRestores` | masq-node-mobile/dns_utility/src/win_dns_modifier.rs:341-358 | Rolling a reversion back restores a subverted interface from wherever the reversion had got |
| `WinDns.WinDnsModifier.SubvertAll` | masq-node-mobile/dns_utility/src/win_dns_modifier.rs:32-53 | Success subverts every interface found; failure rolls back all that were tried, and touches no other; without a failed registry call it fails only over an interface that has 127.0.0.1 in its list behind another |
| `WinDns.WinDnsModifier.RollBackAll` | masq-node-mobile/dns_utility/src/win_dns_modifier.rs:46-49 | Rolls back all interfaces tried, each wherever it had got |
| `WinDns.WinDnsModifier.Subvert` | masq-node-mobile/dns_utility/src/win_dns_modifier.rs:28-54 | All interfaces found are subverted, or else those tried are rolled back, which from a state without partial subversion restores every interface; without a failed registry call it fails only when no interfaces are found or one has 127.0.0.1 behind another |
| `WinDns.WinDnsModifier.RevertInterface` | masq-node-mobile/dns_utility/src/win_dns_modifier.rs:317-339 | Success puts the old list back and deletes the backup; failure leaves the interface as it was or with the old list and its backup |
| `WinDns.WinDnsModifier.RollBackRevert` | masq-node-mobile/dns_utility/src/win_dns_modifier.rs:341-358 | Subverts the interface again unless it is already or has no list |
| `WinDns.WinDnsModifier.Revert` | masq-node-mobile/dns_utility/src/win_dns_modifier.rs:56-82 | All interfaces with a backup are reverted, or else every interface is exactly as before, and that only when a registry call fails |
| `WinDns.SubvertKeepsReachable` | masq-node-mobile/dns_utility/src/win_dns_modifier.rs:28-54 | A successful subvert keeps every original list, and pairs each backup with exactly the local address |
| `WinDns.RevertKeepsReachable` | masq-node-mobile/dns_utility/src/win_dns_modifier.rs:56-82 | A successful revert keeps every original list and leaves no backup |
| `WinDns.Run` | masq-node-mobile/dns_utility/src/win_dns_modifier.rs:28-82 | Over every run of calls failing anywhere, from a state without backups: no original list changes, a backup implies exactly 127.0.0.1, interfaces are subverted together or not at all, a failed call changes nothing, a successful subvert subverts all, a successful revert restores the first state; without a failed registry call a revert succeeds, and a subvert unless none are found or one is refused |
| `BrowserSession.StartKeeps` | masq-mobile/App.tsx:133-144 | Starting an open keeps the protocol's invariant |
| `BrowserSession.GoOnKeeps` | masq-mobile/App.tsx:143-236 | Every continuation of an open, whatever it waited for and however that came out, keeps the invariant |
| `BrowserSession.AnswerKeeps` | masq-mobile/android/app/src/main/java/com/masqmobile/MasqCoreModule.kt:767-990 | Every answer of the native side to its oldest request keeps the invariant: applied, blocked instead, failed before or after the mode took effect |
| `BrowserSession.AfterPrepareKeeps` | masq-mobile/src/core/browserSession.ts:13-31 | A prepared session is shown, superseded or checked further only with its own mode applied or traffic blocked |
| `BrowserSession.StepKeeps` | masq-mobile/App.tsx:77-273 | Every event keeps the invariant: opens, continuations, answers, refusals, closes, background, navigation, foreign blocks |
| `BrowserSession.AlwaysInv` | masq-mobile/App.tsx:77-273 | The invariant holds after every history in which no open starts while the other mode is on screen |
| `BrowserSession.ModeSafety` | masq-mobile/App.tsx:154-155 | After every such history, while the screen shows a mode the native routing mode is that mode or blocked |
| `BrowserSession.AlwaysQueues` | masq-mobile/App.tsx:77-273 | In every history the native queue holds at most one request of the open under way, for what it waits for, and otherwise only requests for `blocked` |
| `BrowserSession.CloseRequestsBlocked` | masq-mobile/App.tsx:267-269 | In every history, closing, going to the background and the controller's own blocking put a request for `blocked` last in the queue; the first two also supersede the open under way, the third changes nothing else |
| `BrowserSession.CloseBlocks` | masq-mobile/App.tsx:78-83 | In every history without an open under way or to come: once a request queued at such a step is answered other than by failing without effect, traffic is blocked, and stays so whatever follows |
| `BrowserSession.CloseLeads` | masq-mobile/App.tsx:267-273 | A close that runs through leaves the home screen and no browser |
| `BrowserSession.BackgroundLeads` | masq-mobile/App.tsx:78-99 | Going to the background takes the browser off the screen, leads home from it and from an open, and from no other screen |
| `BrowserSession.NeverShown` | masq-mobile/App.tsx:145-153 | An open under way at a close or a move to the background is never shown, whatever follows |
| `BrowserSession.NoFurther` | masq-mobile/App.tsx:145-217 | In every history, an open under way at a close or a move to the background starts no shutdown, preparation or refresh that it had not started; one that was not preparing never requests its mode |
| `BrowserSession.EndOnScreen` | masq-mobile/App.tsx:156-171 | In every history, an open that ends unshown leaves no browser mode if nothing superseded it, and otherwise leaves the screen alone |
| `BrowserSession.StepIsSound` | masq-mobile/App.tsx:77-273 | Whatever event comes in whatever state, what an open last requested fits how far it has got |
| `BrowserSession.AlwaysSound` | masq-mobile/App.tsx:77-273 | That holds after every history, orderly or not |
| `BrowserSession.FailClosed` | masq-mobile/App.tsx:143-171 | After every history, every open that is over either was shown, with nothing having superseded it and its own mode as its last request, or had `blocked` as its last request |
| `BrowserSession.BackgroundHides` | masq-mobile/App.tsx:77-103 | Once the app has been in the background, in every history, the screen shows a mode only if an open that started later displayed it |
| `BrowserSession.StepAcknowledges` | masq-mobile/App.tsx:194-213 | A step marks an open as acknowledged only on a confirmed shutdown of that very open |
| `BrowserSession.DirectNeedsShutdown` | masq-mobile/App.tsx:187-213 | In every history, `direct` is requested only by an open that earlier got a shutdown with an idle phase, no neighbours and no proxy |
| `BrowserSession.ShownGotThrough` | masq-mobile/App.tsx:143-218 | In every history, an open that is shown got a successful result of every step on its way: tunnel, stop and confirmed shutdown for direct, preflight and refresh for MASQ, and for both the requests for `blocked` and for its mode |
| `BrowserSession.RequestGotThrough` | masq-mobile/src/core/browserSession.ts:17-19 | In every history, a mode other than `blocked` is requested only by an open that got through all steps before that |
| `BrowserSession.OpenSucceeds` | masq-mobile/App.tsx:133-218 | From every state without an open under way, each open can go on to where its mode is on screen and in effect, whatever waits in the queue |
| `BrowserSession.DisorderBreaksSafety` | masq-mobile/App.tsx:133-182 | The condition on opens is exact: from every state of the invariant, an open started while the other mode is on screen has a continuation in which traffic goes the wrong way |
| `NameserverScan.JoinScan` | masq-node-mobile/dns_utility/src/resolv_conf_dns_modifier.rs:176-196 | The matches and what lies between them are the whole text, for all three patterns and every text |
| `NameserverScan.NothingFoundIff` | masq-node-mobile/dns_utility/src/resolv_conf_dns_modifier.rs:176-219 | For every text and pattern: no match exactly when the pattern fits at the start of no line |
| `NameserverScan.FirstIsLeftmost` | masq-node-mobile/dns_utility/src/resolv_conf_dns_modifier.rs:176-219 | For every text and pattern: the first match stands behind the start of a line, and no other line's comes before it |
| `NameserverScan.ActiveIs` | masq-node-mobile/dns_utility/src/resolv_conf_dns_modifier.rs:177-177 | The pattern for active directives takes exactly keyword, spaces and all of one word, which may be missing at the end of the text |
| `NameserverScan.ExistingIs` | masq-node-mobile/dns_utility/src/resolv_conf_dns_modifier.rs:188-188 | That for existing ones takes the same, behind nothing or a `#` and spaces |
| `NameserverScan.MasqLineIs` | masq-node-mobile/dns_utility/src/resolv_conf_dns_modifier.rs:211-212 | That for MASQ's line takes exactly keyword, spaces, 127.0.0.1, and a line break when there is one |
| `NameserverScan.FirstGap` | masq-node-mobile/dns_utility/src/resolv_conf_dns_modifier.rs:176-196 | A directive is found only at the start of the text or behind a space |
| `NameserverScan.DirectiveOver` | masq-node-mobile/dns_utility/src/resolv_conf_dns_modifier.rs:188-188 | Where a directive ends does not depend on the text behind it |
| `NameserverScan.PieceParts` | masq-node-mobile/dns_utility/src/resolv_conf_dns_modifier.rs:187-196 | Every directive found is nothing or a `#` with spaces, and then keyword, spaces and address |
| `NameserverScan.NothingAhead` | masq-node-mobile/dns_utility/src/resolv_conf_dns_modifier.rs:187-196 | Commenting anything out makes no pattern match in front of it |
| `NameserverScan.SkipCommented` | masq-node-mobile/dns_utility/src/resolv_conf_dns_modifier.rs:176-185 | A directive commented out on its own line is passed over by the patterns for active ones, on further lines of it too |
| `NameserverScan.Rescan` | masq-node-mobile/dns_utility/src/resolv_conf_dns_modifier.rs:187-196 | Where all were active, exactly the same directives are found in the same places once commented out |
| `NameserverScan.ActiveIsExisting` | masq-node-mobile/dns_utility/src/resolv_conf_dns_modifier.rs:176-196 | Where no directive is commented out, both patterns find the same |
| `NameserverScan.FindsAppended` | masq-node-mobile/dns_utility/src/resolv_conf_dns_modifier.rs:176-185 | In a text whose directives are all commented out, each on its own line, the appended line is the only match |
| `NameserverScan.WithoutNewline` | masq-node-mobile/dns_utility/src/resolv_conf_dns_modifier.rs:121-121 | The line break added at the end changes no match when every directive has its address |
| `NameserverEdits.AllWellFormed` | masq-node-mobile/dns_utility/src/resolv_conf_dns_modifier.rs:187-196 | In every text, each directive found starts with the keyword or with a single `#` |
| `NameserverEdits.FrontScan` | masq-node-mobile/dns_utility/src/resolv_conf_dns_modifier.rs:187-196 | After commenting out, up to the first directive that had a `#` the commented ones are found in their places, and its `##` is not, whatever text follows |
| `NameserverEdits.FrontSkip` | masq-node-mobile/dns_utility/src/resolv_conf_dns_modifier.rs:176-219 | Up to there the patterns for active lines find nothing, whatever text follows |
| `NameserverEdits.StillActive` | masq-node-mobile/dns_utility/src/resolv_conf_dns_modifier.rs:114-121 | After commenting out, the first directive below a bare `#` is the first active one |
| `NameserverEdits.WasActive` | masq-node-mobile/dns_utility/src/resolv_conf_dns_modifier.rs:176-185 | That directive was active before, too |
| `ResolvConf.EditPoint` | masq-node-mobile/dns_utility/src/resolv_conf_dns_modifier.rs:116-120 | An edit at one directive leaves the offsets of all earlier ones valid |
| `ResolvConf.CommentOut` | masq-node-mobile/dns_utility/src/resolv_conf_dns_modifier.rs:114-120 | Inserting from the last offset to the first comments out every directive where it was found |
| `ResolvConf.CommentIn` | masq-node-mobile/dns_utility/src/resolv_conf_dns_modifier.rs:138-142 | Removing from the last offset to the first takes the first character off every directive, and never runs past the text |
| `ResolvConf.CheckForNonsense` | masq-node-mobile/dns_utility/src/resolv_conf_dns_modifier.rs:263-274 | Reports whether any active entry is 127.0.0.1 |
| `ResolvConf.MasqIpIs` | masq-node-mobile/dns_utility/src/resolv_conf_dns_modifier.rs:198-207 | The two patterns that an entry has to match ask together for 127.0.0.1 and then the end or a `#` |
| `ResolvConf.SubvertContents` | masq-node-mobile/dns_utility/src/resolv_conf_dns_modifier.rs:107-123 | All outcomes for every text: no active server, already subverted, nonsense, or every directive commented out and one line appended |
| `ResolvConf.FindMasqNameserver` | masq-node-mobile/dns_utility/src/resolv_conf_dns_modifier.rs:209-227 | Nothing, the position and length of the one match, or an error when there are several |
| `ResolvConf.RemoveSpan` | masq-node-mobile/dns_utility/src/resolv_conf_dns_modifier.rs:276-281 | Removes exactly the span and joins what is around it |
| `ResolvConf.RevertContents` | masq-node-mobile/dns_utility/src/resolv_conf_dns_modifier.rs:125-144 | All outcomes for every text: nothing to do, nonsense, nothing to revert to, or the line removed and every directive commented in |
| `ResolvConf.SubvertFails` | masq-node-mobile/dns_utility/src/resolv_conf_dns_modifier.rs:107-113 | For every text: subverting fails exactly when no line has an active directive, or when one is 127.0.0.1 behind a first that is not, each with its message |
| `ResolvConf.RevertFails` | masq-node-mobile/dns_utility/src/resolv_conf_dns_modifier.rs:125-137 | For every text: reverting fails exactly when MASQ's line is found more than once, or when no line is left with a directive once it is out, each with its message |
| `ResolvConf.RevertKeepsDirective` | masq-node-mobile/dns_utility/src/resolv_conf_dns_modifier.rs:125-144 | A text that reverting changes had MASQ's line once, still has a directive at the start of a line without it, and loses one character of each directive, commented out or not |
| `ResolvConf.EffectIff` | masq-node-mobile/dns_utility/src/resolv_conf_dns_modifier.rs:107-123 | Subverting changes a text exactly when it has an active directive and none of them is 127.0.0.1 |
| `ResolvConf.SubvertedIs` | masq-node-mobile/dns_utility/src/resolv_conf_dns_modifier.rs:107-123 | What it leaves is the text with a line break, every directive commented out, and the appended line |
| `ResolvConf.OnlyMasqIsActive` | masq-node-mobile/dns_utility/src/resolv_conf_dns_modifier.rs:107-123 | For every text it changes whose directives have their addresses: 127.0.0.1 is the one active name server afterwards exactly when no directive had a bare `#` on a line above it |
| `ResolvConf.SubvertTwice` | masq-node-mobile/dns_utility/src/resolv_conf_dns_modifier.rs:107-123 | For the same texts: subverting again changes nothing exactly when no directive had a bare `#` above it |
| `ResolvConf.RoundTrip` | masq-node-mobile/dns_utility/src/resolv_conf_dns_modifier.rs:107-144 | For the same texts: reverting what subverting left gives the text and one line break exactly when no directive was commented out before |
| `ResolvConf.BareHashFails` | masq-node-mobile/dns_utility/src/resolv_conf_dns_modifier.rs:107-144 | With a bare `#` on the line between two directives, whatever their addresses, all three fail |
| `ResolvConf.MasqLinesFound` | masq-node-mobile/dns_utility/src/resolv_conf_dns_modifier.rs:209-219 | The line to remove is found exactly where an active address starts with 127.0.0.1, commented-out directives or not |
| `ResolvConf.RevertLeavesAlone` | masq-node-mobile/dns_utility/src/resolv_conf_dns_modifier.rs:125-130 | Reverting leaves a text alone exactly when no active address starts with 127.0.0.1 |
| `ResolvConf.RevertLeavesEveryLine` | masq-node-mobile/dns_utility/src/resolv_conf_dns_modifier.rs:125-130 | For every text whatever: exactly when no line starts with the keyword and an address that starts with 127.0.0.1 |
| `ResolvConf.LooserThanSubvert` | masq-node-mobile/dns_utility/src/resolv_conf_dns_modifier.rs:198-213 | Every address that only starts with 127.0.0.1 counts as not subverted, and reverting still changes the text or fails |
| `ResolvConf.SuchAddresses` | masq-node-mobile/dns_utility/src/resolv_conf_dns_modifier.rs:198-213 | 1.1.1.1, 8.8.8.8 and 127.0.0.12 are addresses as those results speak of |
| `FormatUnits.KeptDigits` | masq-mobile/src/core/walletBalance.ts:164-165 | The kept digits of the fraction stand for the fraction rounded down, and do not end in zero |
| `FormatUnits.ExactTruncation` | masq-mobile/src/core/walletBalance.ts:157-167 | For all amounts, decimals and visible places: the output is a decimal without leading or trailing zeros whose value is the amount rounded down to the lesser number of places |
| `FormatUnits.OnlyOutput` | masq-mobile/src/core/walletBalance.ts:157-167 | Every such decimal of that value is the output, so the two conditions determine it |
| `FormatUnits.Monotone` | masq-mobile/src/core/walletBalance.ts:157-167 | A larger amount is never shown as a smaller one |

## Left out

- Reading CSV and MMDB files, their error messages, and the text of the generated Rust file: the model starts from parsed ranges and packs words, not their hexadecimal spelling.
- Neighbouring ranges of one code in different families: asking whether they are consecutive panics, so `Coalesce` requires that they do not occur.
- A family without any block: its empty stream makes the deserializer panic, so `BuildFinder` requires one block of each.
- Tables of more than 512 countries: their indices do not fit the stream (`CountryFieldIsExact`).
- The names of countries in the shipped table and the shipped data itself: constants.
- The standard library's sort and binary search: modelled by an insertion sort and by halving; `AnySearchAgrees` covers every search that keeps the library's promise.
- `usize` overflow of lengths and counts: machine words are modelled where bits are shifted, not where things are counted.
- Registry reads that fail, and rollback calls that fail, in `WinDnsModifier`: the source panics there. Forward calls fail at will, and a failed call has no effect.
- The error texts of the Windows modifier, and `inspect` of both modifiers.
- The file handling of the resolv.conf modifier: the model maps contents to contents.
- Byte offsets in resolv.conf: positions count characters, where the source counts UTF-8 bytes. Both cut at the same places, since every offset comes from a match.
- ResolvConf.RoundTrip: says nothing of texts in which a directive has no address, or in which the word on the next line that is taken for its address is itself `nameserver`.
- ResolvConf.OnlyMasqIsActive: leaves out the same texts.
- ResolvConf.SubvertTwice: leaves out the same texts.
- ResolvConf.RevertLeavesAlone: leaves out texts in which the word taken for an active address stands on the next line and is itself `nameserver`; `RevertLeavesEveryLine` covers them.
- ResolvConf.IsMasqIp: applies to entries that were matched, which have no space behind the address, and takes `\d` as the ASCII digits, the only ones it can match where 127.0.0.1 is asked for as well.
- dynamic_store_dns_modifier.rs: calls into a foreign framework around a copy of a list, which would only add easy members.
- App.tsx is modelled as a state machine over its steps between awaits, not as a class: the interleaving is what the properties are about. State that React keeps is taken to change at once, and a close may go on before its request is answered, which only adds behaviours.
- Status polling, retry delays, issue classification and the other screens of the app.
- URL resolution, ENS names and host checks: they rest on a URL parser that is not part of this model.
- fetchWalletBalance and its requests: input and output. Amounts are not negative, as they are parsed from unsigned quantities.
- automap, the command line and the message types of masq_lib: sockets, threads and thin wrappers.
