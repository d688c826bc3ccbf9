# SensorForge core: a verified model

SensorForge moves sensor streams from ROS2 nodes over a network, logs them and replays them, and injects faults on the
way. This project models the part of it that does not talk to ROS2 or to the operating system, in Dafny, and proves what
that part promises. `dafny verify dfyconfig.toml` checks everything.

## What is modelled

- **Checksums and codecs** (`Bytes`, `Crc32c`, `CrcVector`, `RecordCodec`, `FrameCodec`, `FrameDecoder`). CRC32C is the
  Castagnoli code of section 12.1 of RFC 3720, pinned by its published check value. Bitwise operations are arithmetic on
  naturals: xor is defined digit by digit, a right shift is a division. From two facts, that the shift step respects xor
  and loses nothing, follow the equality of the bit-serial, table and eight-byte forms and the detection of all damage
  within 32 adjacent bits, at any bit offset. The frame and record codecs are proved two-way inverses with every field at
  its offset, and the stateful decoder is characterised over whole traces.
- **The write-ahead log** (`Segment`, `Sorting`, `ReplayIndex`, `WalScan`, `WalDamage`, `WalWriter`, `WalReader`,
  `WalWrap`). The disk is a map from file names to bytes, fresh at the start, and writes succeed. The log proofs use the
  record format and the file names only through the properties collected in `GoodCodec`, which `RecordFormatIsGood`
  establishes for the real ones with any checksum function.
- **Concurrent primitives** (`Seqlock`, `SpscRing`, `SpscInterleaving`, `WeakMemory`, `SeqlockViews`, `SpscViews`). Each
  is a class, run alone, and a step system for its interleavings: a run is any list of actions, where an action out of
  turn changes nothing. Each also has a second step system over a memory of messages and views, with relaxed, acquire and
  release accesses and fences (section 31.11 of ISO/IEC 14882:2020), that says which of them the code needs.
- **The fault engine** (`FaultTypes`, `TokenBucket`, `FaultPipeline`, `FaultRuns`, `FaultDelays`, `RestartHook`,
  `BandwidthRuns`, `FaultEngine`, `FaultOrder`). Random draws and clock readings are inputs; times and tokens are reals.
  `FaultPipeline` is the step system of the calling thread, the worker and flush; `FaultEngine` is the class, and what
  its methods do are runs of the pipeline. A frame carries the number of its input and, once queued, the reading and the
  rules of its dispatch, so that what becomes of it can be stated.
- **Stream state** (`TcpReassembler`, `TfBuffer`, `SubscriptionManager`).

## Where the code and what is said of it part

- The rate bound of the token bucket can fail if the clock reads exactly 0, since 0 stands for "never refilled"
  (faults/fault_engine.cpp:106-109). At a whole number of bytes per second it fails for some frame sizes exactly if a
  reading of 0 is followed within a second (`TokenBucket.RateBoundExactly`). At any rate, on clocks that do not go below
  0, it fails for some sizes and some continuation of the clock exactly if the first reading is 0 and by the second less
  has flowed in than the whole bytes of a full bucket (`TokenBucket.AnyRateExactly`); below one byte per second it never
  fails.
- Segment ids are 32 bits wide. The 2^32-th segment gets id 0, whose file the reader ignores, and the next one truncates
  the first (src/replay/wal_writer.cpp:37-40, src/replay/wal_reader.cpp:44-47). `WalWrapping.RoundTripExactly` shows that
  a log reads back if and only if it took fewer segments, and `WalWrapping.LogLost` names a log that does not: 2^32 copies
  of any record small enough, in segments of one record each.
- The release fence after the byte stores of the seqlock is not needed for loads not to tear; the other two fences are
  (`SeqlockViews.FencesNeeded`).
- A frame of an older version is accepted and re-encodes with the current version, so it is its own encoding only if the
  versions agree (`FrameCodec.EncodedOfDecode`). Such frames exist for every payload (`FrameCodec.OldVersionNotItself`).
- The restart hook is described as firing once at window start (faults/fault_engine.hpp:15). It is armed again only by a
  frame of the stream that finds no rule active at all (faults/fault_engine.cpp:74). With a window taken as a stretch of
  time in which some restart rule is active for the stream, the description holds for all runs if and only if the stream
  has no second window (`RestartHook.OncePerWindowExactly`): restarts from 0 to 1 and from 5 to 6 with frames at 0.5 and
  5.5 seconds fire once (`RestartHook.SecondWindowUnseen`). For the runs in which a frame falls into every gap between
  windows, it holds if and only if in no gap there is a moment at which other rules are active
  (`RestartHook.OncePerSeenWindowExactly`): under a delay from 0 to 10 a frame at 3 seconds does not help
  (`RestartHook.SecondWindowMissed`).
- A blocked callback clears the stale flag before it waits. If the ring is drained meanwhile, its frame is queued in the
  end but called stale (`Subscriptions.BlockedFrameLooksStale`, on a ring of any size). The flag means an empty ring, for
  all runs, exactly under policies other than the blocking one (`Subscriptions.StaleExactly`).
- If messages may be empty, has_data does not mean that get_data hands out data, in two ways: an empty frame is handed out
  as valid (`Subscriptions.EmptyMessageHandedOut`), and once it has been taken out and stale data is published, has_data
  stays true while get_data reports no valid data (`Subscriptions.EmptyMessageRefused`). Either takes the bridge's "should
  not happen" branch (src/network_bridge.cpp:423). It is kept exactly for messages that leave out the empty one
  (`Subscriptions.HasDataExactly`).

## Model

| member | source | states |
|---|---|---|
| `FrameCodec.BurstRejected` | src/protocol/frame_codec.cpp:117-178 | No encoded frame, of any payload length and whatever follows it, is accepted after damage confined to 32 adjacent bits, at whatever bit they start: in the header, its checksum, the payload or across them |
| `RecordCodec.BurstRejected` | include/sensorforge/replay/record.hpp:156-196 | No encoded log record so damaged is ever accepted, whatever bytes follow it |
| `FrameCodec.HeaderDamage` | src/protocol/frame_codec.cpp:163-167 | Damage that reaches the header or its checksum makes the header checksum fail |
| `FrameCodec.PayloadDamage` | src/protocol/frame_codec.cpp:169-175 | Damage that leaves the header and its checksum alone makes the payload checksum fail |
| `RecordCodec.DamagedLengths` | include/sensorforge/replay/record.hpp:168-193 | Thirty-two damaged bits cannot reach both length fields, so an accepted damaged record keeps its lengths and its record checksum must fit the damaged bytes |
| `Crc32c.BurstDetected` | include/sensorforge/protocol/crc32c.hpp:126-139 | A message followed by its checksum, damaged inside any 32 adjacent bits, never carries a fitting checksum: the checksum of the damaged message is not the damaged checksum |
| `Crc32c.DetectionExactly` | include/sensorforge/protocol/crc32c.hpp:126-139 | All damage within w adjacent bits of a message and its checksum is detected if and only if w is at most 32 |
| `Crc32c.WiderUndetected` | include/sensorforge/protocol/crc32c.hpp:126-139 | Every message has damage within 33 adjacent bits that its checksum does not notice: the generator added to its first bits |
| `Crc32c.BytesAreBurst` | include/sensorforge/protocol/crc32c.hpp:126-139 | Damage to four adjacent bytes is a case of damage within 32 adjacent bits |
| `Crc32c.Residue` | include/sensorforge/protocol/crc32c.hpp:126-139 | A message followed by its own little-endian checksum always leaves the register at one fixed value, and only the right checksum does |
| `Crc32c.BurstChangesRun` | include/sensorforge/protocol/crc32c.hpp:56-62 | From equal registers, two messages of one length that differ only inside 32 adjacent bits leave different registers |
| `Crc32c.WindowInjective` | include/sensorforge/protocol/crc32c.hpp:56-62 | Up to 32 bits are determined by the register before and the register after them |
| `Crc32c.FeedInjective` | include/sensorforge/protocol/crc32c.hpp:56-62 | The same bits take different registers to different registers, and equal ones to equal ones |
| `Crc32c.ShiftInjective` | include/sensorforge/protocol/crc32c.hpp:46-48 | The shift step loses nothing: different words shift to different words |
| `Crc32c.TableStep` | include/sensorforge/protocol/crc32c.hpp:56-60 | One table lookup equals eight bit-serial steps of reflected division, for every register and byte |
| `Crc32c.MakeTable` | include/sensorforge/protocol/crc32c.hpp:41-52 | The generated table holds, at every index, that index shifted eight times |
| `Crc32c.Crc32cSoftware` | include/sensorforge/protocol/crc32c.hpp:56-62 | The table loop computes the bit-serial register run, for every buffer and start value |
| `Crc32c.WordIsBytes` | include/sensorforge/protocol/crc32c.hpp:84-88 | Sixty-four bit-serial steps on a little-endian word equal feeding its eight bytes one by one |
| `Crc32c.Crc32cHw` | include/sensorforge/protocol/crc32c.hpp:81-93 | The eight-bytes-at-a-time loop with its byte tail computes the same run, for every length |
| `Crc32c.Crc32c` | include/sensorforge/protocol/crc32c.hpp:126-139 | Either path gives the one checksum function, which `CrcVector.PublishedVector` pins to CRC-32C |
| `CrcVector.PublishedVector` | include/sensorforge/protocol/crc32c.hpp:117-124 | Which code it is: the checksum of the nine bytes of "123456789" is 0xE3069283 |
| `Seqlocks.NoTornLoad` | include/sensorforge/core/seqlock.hpp:82-99 | Under every interleaving of byte stores and byte loads, what a load hands back is the initial value or the whole argument of a store that the actions call and complete, no older than the last completed when the load began, and the value published at the moment it returns |
| `Seqlocks.StoreTakes` | include/sensorforge/core/seqlock.hpp:108-116 | From the actions alone: a store that finds the writer resting and runs to its end, whatever readers do meanwhile, publishes exactly the value it was called with and leaves it in the bytes |
| `Seqlocks.PublishedWereStored` | include/sensorforge/core/seqlock.hpp:108-116 | In every run the published values are the initial one and the arguments of completed stores |
| `Seqlocks.LoadIsFresh` | include/sensorforge/core/seqlock.hpp:82-99 | What a load hands back was published when the load began or later |
| `Seqlocks.LoadSucceeds` | include/sensorforge/core/seqlock.hpp:82-99 | A load that no store disturbs hands back the published value at its first attempt, whatever other readers do |
| `Seqlocks.StoreThenLoad` | include/sensorforge/core/seqlock.hpp:82-116 | A load after a completed store, with no other store called since, hands back that store's argument |
| `Seqlocks.RecheckReturnsCurrent` | include/sensorforge/core/seqlock.hpp:96-98 | A recheck that succeeds hands back the value published right then |
| `Seqlocks.RunKeeps` | include/sensorforge/core/seqlock.hpp:82-138 | Every reachable state keeps the counter in step with the completed stores, the bytes a prefix of the new value on the old one, and every snapshot a prefix of the current value while the counter stands |
| `Seqlocks.PublishedStays` | include/sensorforge/core/seqlock.hpp:108-116 | Over any run what has been published stays published, in order |
| `SeqlockViews.FencesNeeded` | include/sensorforge/core/seqlock.hpp:82-116 | Over a weak memory where loads may return old messages, no run tears a load if and only if the program has the fence before the byte stores and the fence in load; the fence after the byte stores is not needed |
| `SeqlockViews.NoTornLoad` | include/sensorforge/core/seqlock.hpp:82-99 | With those fences a load hands back the whole value of store seq0 / 2, the initial one or the argument of a call, whose closing counter store has happened, no older than any store its reader had seen complete; one reader's loads never go back |
| `SeqlockViews.StoreTakes` | include/sensorforge/core/seqlock.hpp:108-129 | A store that runs to its end adds one message to each byte, of exactly the value it was called with, and two to the counter, under any fences |
| `SeqlockViews.LoadTears` | include/sensorforge/core/seqlock.hpp:108-116 | With either fence missing there is a run that hands back the first byte of one store and the second byte of another |
| `SeqlockViews.RecheckKeeps` | include/sensorforge/core/seqlock.hpp:95-98 | After the fence, a recheck that finds the old counter proves that every byte came from the snapshot's store |
| `SeqlockViews.WriterKeeps` | include/sensorforge/core/seqlock.hpp:108-129 | Every even counter message carries all bytes of its store, and every byte message carries the odd counter message of its store |
| `Seqlocks.Seqlock.Store` | include/sensorforge/core/seqlock.hpp:108-116 | Alone, a store leaves its value in the bytes and moves the counter by two |
| `Seqlocks.Seqlock.TryLoad` | include/sensorforge/core/seqlock.hpp:87-97 | Alone, one pass of the load loop returns the contents, and fails only on an odd counter |
| `Seqlocks.Seqlock.WriteRelaxed` | include/sensorforge/core/seqlock.hpp:122-129 | Byte by byte the whole value is copied in |
| `Seqlocks.Seqlock.ReadRelaxed` | include/sensorforge/core/seqlock.hpp:131-138 | Byte by byte the whole value is copied out |
| `Seqlocks.Seqlock.constructor` | include/sensorforge/core/seqlock.hpp:58-67 | The counter starts at 0 over the initial value |
| `WalWrapping.RoundTripExactly` | src/replay/wal_writer.cpp:31-73 | For any records and any segment size, loading a freshly written log gives back every accepted record if and only if the log took fewer than 2^32 segments; else it gives back fewer records |
| `WalWrapping.SegmentOfEach` | src/replay/wal_writer.cpp:47-60 | With a segment size of one byte every record gets its own segment, so any number of segments is reached |
| `WalWrapping.LogLost` | src/replay/wal_writer.cpp:37-40 | 2^32 copies of any record small enough, in such segments, do not read back |
| `WalWrapping.LoadLostLog` | src/replay/wal_reader.cpp:28-114 | A reader on that log's directory holds fewer records than were accepted |
| `WalReading.RoundTrip` | src/replay/wal_reader.cpp:28-114 | The load recovers exactly the accepted records in order and the writer's index entry by entry, with no corrupt run, no skipped byte, and every segment read, across all rollovers |
| `WalReading.RoundTripRecordFormat` | src/replay/wal_reader.cpp:51-102 | The same for the record format and its file names, with any checksum function: every record comes back with its own payload, time, sequence and sensor type |
| `WalReading.IndexLocates` | src/replay/wal_writer.cpp:62-70 | Every entry of the writer's index leads, by segment file, offset and length, to the bytes of its record |
| `WalReading.LoadAccounting` | src/replay/wal_reader.cpp:69-101 | A load of any directory accounts for every byte of every segment: accepted lengths and skipped bytes add up, and each gap between records counts as one corruption |
| `WalReading.WriteThenLoad` | src/replay/wal_reader.cpp:22-26 | Writer and reader run after each other: the records loaded are the accepted ones by time, at equal times by sequence, and equal in both as written; the index is the writer's stably sorted by time, nothing was skipped |
| `WalWriting.WriterLayout` | src/replay/wal_writer.cpp:43-73 | Any run of appends leaves files that are the encoded records of a layout of exactly the accepted records, an index that names every one of them, and segments within the limit or of one record, none left while it had room for the next |
| `WalWriting.AppendExactly` | src/replay/wal_writer.cpp:43-73 | What an append does to files, counters and index, by its three cases: refused, rolled over, or at the end of the current segment |
| `WalWriting.AppendKeepsLayout` | src/replay/wal_writer.cpp:47-72 | One append adds its record at the end of the layout, opening a segment exactly when the current one is not empty and would overflow; a record too large changes nothing |
| `WalWriting.WalWriter.AppendRecord` | src/replay/wal_writer.cpp:43-73 | Succeeds exactly for a record small enough with a segment open or about to be opened, and leaves the state the layout is proved about |
| `WalWriting.WalWriter.OpenNewSegment` | src/replay/wal_writer.cpp:31-41 | Opens and truncates the next id, a 32-bit counter that wraps |
| `WalWriting.WalWriter.constructor` | src/replay/wal_writer.cpp:18-24 | A size of 0 means 64 MiB; the first segment is opened at once |
| `WalWrapping.VisibleAtMost` | src/replay/wal_reader.cpp:44-47 | Whatever the number of segments, what the reader sees and what sits in segments of id 0 is together no more than what was accepted |
| `WalWrapping.WrapHidesSome` | src/replay/wal_writer.cpp:37-40 | From the 2^32-th segment on, some record sits where the reader does not look |
| `WalReading.WalReader.Load` | src/replay/wal_reader.cpp:28-114 | On any directory: records are the scanned ones by time, at equal times by sequence number, and equal in both in scan order; the index is the scanned entries stably sorted by time, the counts are those of the scans |
| `WalReading.WalReader.constructor` | src/replay/wal_reader.cpp:22-26 | The same for the load at construction |
| `WalReading.ListSegments` | src/replay/wal_reader.cpp:38-49 | Exactly the files whose names parse to a non-zero id, in ascending order of id and name, whatever order the directory yields them |
| `WalReading.StringLessExactly` | src/replay/wal_reader.cpp:49 | Names compare lexicographically |
| `WalReading.SortedInReplayOrder` | src/replay/wal_reader.cpp:105-112 | The replay order in field names: by time, at equal times by sequence number, and equal in both as scanned |
| `WalReading.SortsAgree` | src/replay/wal_reader.cpp:104-113 | After both sorts, by different keys, records and index have equal timestamps at every position, in ascending order |
| `WalReading.WalReader.Replay` | src/replay/wal_reader.cpp:116-148 | Delivers exactly the records at or after the start time, in order: a suffix of the loaded ones, everything before it being earlier |
| `WalReading.DeliverFrom` | src/replay/wal_reader.cpp:126-147 | The loop from the lower bound delivers exactly the records at or after the time, in order |
| `WalReading.WalReader.LoadSegment` | src/replay/wal_reader.cpp:66-101 | Appends one segment's records, index entries and counts to what was loaded before |
| `WalScan.ScanIsGreedy` | src/replay/wal_reader.cpp:71-94 | The accepted spans are the unique leftmost-greedy ones: the next record is accepted at the first position that decodes |
| `WalScan.ScanOrdered` | src/replay/wal_reader.cpp:71-94 | Accepted spans are disjoint, increasing and inside the segment |
| `WalScan.Accounting` | src/replay/wal_reader.cpp:95-101 | Accepted lengths and skipped bytes add up to the segment, on arbitrary bytes |
| `WalScan.RunsAreGaps` | src/replay/wal_reader.cpp:88-91 | The maximal runs of skipped bytes are the gaps before, between and behind the accepted records |
| `WalScan.ScanBuffer` | src/replay/wal_reader.cpp:69-101 | The loop terminates on arbitrary bytes and its counts are the accepted spans, the skipped bytes and the maximal skipped runs, short tail included |
| `WalScan.ScanSegment` | src/replay/wal_reader.cpp:69-101 | The same for one segment's bytes under the record format |
| `WalScan.RecordFormatIsGood` | include/sensorforge/replay/record.hpp:125-196 | The record format and the segment names satisfy everything the log proofs use, for any checksum function |
| `WalScan.RecordDecodes` | include/sensorforge/replay/record.hpp:156-196 | What the scan accepts has the fields and the payload that stand at their offsets |
| `WalDamage.DamageContained` | src/replay/wal_reader.cpp:71-94 | With a region of whole records overwritten, all records before it are recovered, and those after it at their offsets if and only if no span accepted inside the region crosses its end |
| `WalDamage.DamageContainedIfNothingStraddles` | src/replay/wal_reader.cpp:71-94 | In particular if nothing starting in the region decodes past its end |
| `WalDamage.TruncationKeepsComplete` | src/replay/wal_reader.cpp:95-101 | Cut anywhere, a segment still yields every complete record |
| `WalDamage.CleanSegment` | src/replay/wal_reader.cpp:71-94 | A segment of encoded records scans to exactly them, at their offsets, with nothing skipped |
| `WalDamage.RegionContained` | src/replay/wal_reader.cpp:71-94 | The same containment for any decoder and any tiling, with the exact condition |
| `ReplayIndexing.ReplayIndex.Add` | include/sensorforge/replay/replay_index.hpp:32-39 | Appends, and keeps the sorted flag true exactly while timestamps ascend |
| `ReplayIndexing.ReplayIndex.Finalize` | include/sensorforge/replay/replay_index.hpp:42-52 | Leaves the stable sort by timestamp, also when the flag let it skip the sort |
| `ReplayIndexing.ReplayIndex.FirstAtOrAfter` | include/sensorforge/replay/replay_index.hpp:55-61 | Once the entries ascend: everything before the position is earlier, everything from it on is not |
| `Sorting.SortIsStable` | src/replay/wal_reader.cpp:105-112 | The sort is an ordered permutation that keeps the order of equivalent elements |
| `Sorting.StableSortUnique` | src/replay/wal_reader.cpp:105-112 | There is only one stable sort, so the library's is this one |
| `Sorting.SortOfSorted` | include/sensorforge/replay/replay_index.hpp:44 | Sorting what is sorted changes nothing |
| `Sorting.LowerBoundSplits` | include/sensorforge/replay/replay_index.hpp:57-60 | The lower bound of an ascending list splits it |
| `Segment.FilenameRoundTrip` | include/sensorforge/replay/segment.hpp:28-62 | Every 32-bit id survives being printed and parsed, however many digits it takes |
| `Segment.FilenameExactly` | include/sensorforge/replay/segment.hpp:28-33 | A name is segment-, the decimal digits of the id padded with zeros to six and no further, .sflog |
| `Segment.FilenameExample` | include/sensorforge/replay/segment.hpp:27 | Segment 12 is segment-000012.sflog |
| `Segment.OtherNames` | include/sensorforge/replay/segment.hpp:36-62 | A name of another prefix or suffix, with nothing between, or with a character that is no digit parses to 0 |
| `Segment.NameDigits` | include/sensorforge/replay/segment.hpp:49-61 | Any digits between them parse to their value modulo 2^32 |
| `Segment.SegmentIdFromFilename` | include/sensorforge/replay/segment.hpp:36-62 | The digits as a 32-bit number for a well-shaped name, 0 for any other |
| `RecordCodec.DecodeOfEncoded` | include/sensorforge/replay/record.hpp:125-196 | An encoded record followed by anything decodes to itself |
| `RecordCodec.EncodedOfDecode` | include/sensorforge/replay/record.hpp:156-196 | A buffer that is accepted starts with exactly the encoding of the record it carries |
| `RecordCodec.DiskLayout` | include/sensorforge/replay/record.hpp:6-22 | Every field of an encoded record stands at its offset, little-endian, and its checksums cover the payload and all that is before them |
| `RecordCodec.DecodedExactly` | include/sensorforge/replay/record.hpp:156-196 | Each error is reported exactly when its check, in terms of the bytes, is the first to fail; else the fields are those at their offsets |
| `RecordCodec.EncodeRecord` | include/sensorforge/replay/record.hpp:125-147 | The encoder's bytes, with lengths truncated to 32 bits as it does |
| `RecordCodec.GetLe` | include/sensorforge/replay/record.hpp:104-118 | Little-endian reads of any width give the number the bytes denote |
| `RecordCodec.PutLe` | include/sensorforge/replay/record.hpp:91-103 | Little-endian writes append the bytes of the number |
| `FrameCodec.DecodeOfEncoded` | src/protocol/frame_codec.cpp:79-178 | An encoded frame followed by anything decodes to itself |
| `FrameCodec.EncodedOfDecode` | src/protocol/frame_codec.cpp:117-178 | An accepted frame re-encodes to its own bytes if and only if its version is the current one |
| `FrameCodec.OldVersionNotItself` | src/protocol/frame_codec.cpp:129-132 | For every payload and older version there is a frame that is accepted and does not re-encode to itself |
| `FrameCodec.WireLayout` | include/sensorforge/protocol/frame.hpp:6-24 | Every field of an encoded frame stands at its offset, the magic bytes, version and header size literally, and the checksums cover the payload and the first 36 bytes |
| `FrameCodec.DecodedExactly` | src/protocol/frame_codec.cpp:117-178 | Each error is reported exactly when its check, in terms of the bytes, is the first to fail; else the fields are those at their offsets |
| `FrameCodec.EncodeFrame` | src/protocol/frame_codec.cpp:79-115 | The encoder's bytes, or the length error exactly above the payload limit |
| `Bytes.LeValOfLe` | src/protocol/frame_codec.cpp:35-40 | Reading back what was written little-endian |
| `Bytes.LeOfLeVal` | src/protocol/frame_codec.cpp:56-63 | Writing back what was read little-endian |
| `FrameDecoding.AcceptedMonotone` | src/protocol/frame_codec.cpp:180-201 | Over any trace, accepted frames of one key never go down in sequence or timestamp |
| `FrameDecoding.RejectedIffOlder` | src/protocol/frame_codec.cpp:188-196 | A well-formed frame is rejected exactly if an accepted one of its key before it was newer in sequence or time; rejected frames leave no trace |
| `FrameDecoding.VerdictExactly` | src/protocol/frame_codec.cpp:180-201 | Over any trace: a frame that fails on its own keeps its error; a valid one has gone back in sequence exactly if some accepted frame of its key is ahead, else in time exactly if some is later, and else is handed on as decoded |
| `FrameDecoding.KeysIndependent` | src/protocol/frame_codec.cpp:188-196 | The verdicts for a key depend only on that key's frames |
| `FrameDecoding.FrameDecoder.Decode` | src/protocol/frame_codec.cpp:180-201 | Gives the verdict of the trace functions and keeps their history |
| `SpscInterleaving.FifoPrefix` | include/sensorforge/core/spsc_ring.hpp:66-107 | In every interleaving, with index loads that may be stale, popped items are in order a prefix of the pushed ones, none read half written, and at most capacity - 1 are queued |
| `SpscInterleaving.NoSlotRace` | include/sensorforge/core/spsc_ring.hpp:73-104 | The producer never writes the slot the consumer is reading |
| `SpscInterleaving.FailuresAreTrue` | include/sensorforge/core/spsc_ring.hpp:70-102 | A push fails exactly when the ring was full as of the tail it loaded, a pop exactly when empty as of the head it loaded; with a current load, exactly when full and when empty |
| `SpscInterleaving.PushTakes` | include/sensorforge/core/spsc_ring.hpp:66-76 | A push that finds the ring short of full adds its own item and no other, whatever the consumer does meanwhile |
| `SpscInterleaving.PopTakes` | include/sensorforge/core/spsc_ring.hpp:98-107 | A pop that finds an item hands out the oldest one queued, whatever the producer does meanwhile |
| `SpscInterleaving.RunKeeps` | include/sensorforge/core/spsc_ring.hpp:66-107 | Every reachable state keeps indices equal to the operation counts modulo the capacity and every queued item in its slot |
| `SpscViews.HeadOrdersNeeded` | include/sensorforge/core/spsc_ring.hpp:66-107 | Over a weak memory, on a ring of any size: in all runs pops hand out what was pushed, in order, and in all runs no pop reads a slot whose write it has not seen, each if and only if the head is stored with release and loaded with acquire |
| `SpscViews.TailOrdersNeeded` | include/sensorforge/core/spsc_ring.hpp:66-107 | In all runs no push overwrites a slot whose move out it has not seen, if and only if the tail is stored with release and loaded with acquire |
| `SpscViews.FifoPrefix` | include/sensorforge/core/spsc_ring.hpp:66-107 | With the orders the ring has: popped items are a prefix of the pushed ones, at most capacity - 1 are queued, and neither side races |
| `SpscViews.PushTakes` | include/sensorforge/core/spsc_ring.hpp:66-76 | Under any orders a push that finds the ring short of full adds its own item and no other, whatever the consumer does meanwhile |
| `SpscViews.PopPassesCheck` | include/sensorforge/core/spsc_ring.hpp:98-103 | A pop passes its check when the head it loads counts more pushes than there were pops |
| `SpscViews.PopTakes` | include/sensorforge/core/spsc_ring.hpp:104-106 | Past its check a pop hands out the message its read of the slot picks |
| `SpscViews.ConsumerMisreads` | include/sensorforge/core/spsc_ring.hpp:98-107 | With a head order missing there is a run on a ring of any size that pops what was in the slot before the push |
| `SpscViews.ProducerRaces` | include/sensorforge/core/spsc_ring.hpp:66-76 | With a tail order missing there is a run that comes round to a slot without having seen the move out of it |
| `SpscViews.RunCounts` | include/sensorforge/core/spsc_ring.hpp:66-107 | Under any orders the indices count the operations modulo the capacity and the ring is never overfull |
| `Spsc.AndMask` | include/sensorforge/core/spsc_ring.hpp:146 | Masking by a power of two less one is the remainder |
| `Spsc.WrapThenMask` | include/sensorforge/core/spsc_ring.hpp:136-141 | Unsigned 64-bit wrap-around before the mask makes no difference |
| `Spsc.SpscRing.TryPush` | include/sensorforge/core/spsc_ring.hpp:66-76 | Fails exactly on a full ring; else the item is at the end |
| `Spsc.SpscRing.TryPop` | include/sensorforge/core/spsc_ring.hpp:98-107 | Fails exactly on an empty ring; else hands out the oldest |
| `Spsc.SpscRing.ForcePushOverwrite` | include/sensorforge/core/spsc_ring.hpp:121-133 | Always stores the item; a full ring loses exactly its oldest |
| `Spsc.SpscRing.SizeApprox` | include/sensorforge/core/spsc_ring.hpp:136-141 | The occupancy, across the wrap of the unsigned difference |
| `Spsc.SpscRing.EmptyApprox` | include/sensorforge/core/spsc_ring.hpp:143 | True exactly on an empty ring |
| `Spsc.SpscRing.constructor` | include/sensorforge/core/spsc_ring.hpp:55-61 | Starts empty |
| `TcpReassembly.ReassemblerRefinesParser` | include/sensorforge/transport/tcp_reassembler.hpp:41-116 | For every stream and every chunking the automaton emits exactly the payloads, and counts the resyncs, that a parser over the whole stream reads |
| `TcpReassembly.ResyncsPastGarbage` | include/sensorforge/transport/tcp_reassembler.hpp:60-116 | Garbage without a start marker, which may end in a first start byte, then any frames up to the limit: exactly those payloads come out |
| `TcpReassembly.ChunkingIrrelevant` | include/sensorforge/transport/tcp_reassembler.hpp:41-46 | How the stream is cut makes no difference |
| `TcpReassembly.RunIsParse` | include/sensorforge/transport/tcp_reassembler.hpp:60-116 | From any position where the automaton is idle it does what the parser does |
| `TcpReassembly.TcpReassembler.FeedByte` | include/sensorforge/transport/tcp_reassembler.hpp:60-116 | One byte is one step of the automaton; bytes held back never exceed the limit |
| `TcpReassembly.TcpReassembler.FeedBytes` | include/sensorforge/transport/tcp_reassembler.hpp:41-46 | A chunk is its bytes in order |
| `TcpReassembly.TcpReassembler.constructor` | include/sensorforge/transport/tcp_reassembler.hpp:37-38 | Starts idle with nothing emitted |
| `FaultRuns.Conservation` | faults/fault_engine.cpp:49-228 | Over all interleavings of process, worker and flush, input by input: what came in and was copied is what was written, dropped or is still inside; and the counters add up |
| `FaultRuns.PayloadsKept` | faults/fault_engine.cpp:122-134 | Every payload anywhere has its input's length, and is its input unless a corrupt rule exists |
| `FaultRuns.PayloadConservation` | faults/fault_engine.cpp:49-228 | In every run without corrupt rules, payload by payload: what came in and what was copied is what was written, dropped or is still inside |
| `FaultRuns.ReleaseOrder` | faults/fault_engine.cpp:172-228 | Until a flush no delayed frame is released before its due time, releases are in due order over the whole run, and the worker's writes, with the frame in its hands, are the released frames in that order; an uninterrupted flush releases the rest in due order |
| `FaultDelays.DispatchExactly` | faults/fault_engine.cpp:172-194 | In any run: a frame dispatched at a reading, for a call that found rules active, is written at once if none of them delays and else queued, due at that reading plus the longest of their delays |
| `FaultDelays.DelaysKept` | faults/fault_engine.cpp:172-216 | Without a flush every released frame was dispatched by one of the actions, was due one delay of its call's rules later, and is released no earlier than every one of them says |
| `FaultDelays.DelayedUntil` | faults/fault_engine.cpp:172-216 | A delayed frame stays queued, or has been released later than its dispatch by no less than any delay that was active |
| `FaultDelays.WorkerTakes` | faults/fault_engine.cpp:196-216 | Once the top of the queue is due the worker can take it and writes it |
| `FaultDelays.DelayedCounted` | faults/fault_engine.cpp:189-192 | In every run the counter of delayed frames is the number queued and released |
| `FaultRuns.WorkerWritesReleases` | faults/fault_engine.cpp:196-216 | Without a flush the frames the worker has written, and the one in its hands, are the released frames in the order of release |
| `RestartHook.HookExactly` | faults/fault_engine.cpp:60-79 | In every run the hook has been called for exactly these frames, in order: those that find a restart rule active and, since any earlier frame of their stream that did, come after one of the stream with no rule active |
| `RestartHook.OncePerWindowExactly` | faults/fault_engine.hpp:15 | For any rules and any stream whose frames come in time order: the hook fires exactly at the first frame in every window, a window ending where no restart rule is active, in all runs, if and only if the stream has no second window |
| `RestartHook.SecondWindowUnseen` | faults/fault_engine.cpp:73-79 | With restarts in [0,1) and [5,6) and nothing else, frames at 0.5 and 5.5 seconds fire the hook once, though the second starts a window |
| `RestartHook.OncePerSeenWindowExactly` | faults/fault_engine.cpp:60-79 | In the runs in which a frame falls into every gap between windows, the hook fires exactly at their first frames if and only if no moment between two windows has other rules active |
| `RestartHook.SecondWindowMissed` | faults/fault_engine.cpp:73-79 | With those restarts and a delay in [0,10), frames at 0.5, 3 and 5.5 seconds fire the hook once, though the last starts a window |
| `FaultOrder.ReorderSwapsPairs` | faults/fault_engine.cpp:136-158 | In every run, worker and flush included, whose calls find only reorder rules active: what has been written and the rest of the call in progress are the frames in swapped pairs, and exactly an odd last one is kept back |
| `FaultOrder.DuplicatesInTurn` | faults/fault_engine.cpp:160-169 | In every run whose calls find no rule but duplicate rules active, every frame goes out in turn, once and once more per rule; with no rule active the engine changes nothing |
| `FaultOrder.SuchCallBegins` | faults/fault_engine.cpp:49-170 | Rules that only reorder or only duplicate drop nothing, change no payload and delay nothing |
| `FaultOrder.CallBegins` | faults/fault_engine.cpp:49-170 | Any call: the frame is lost exactly if the link is cut, a burst loss is on, a drop draw is below its rate or the bandwidth stage refuses; else it is held, swapped with the held one, or sent with a copy for every duplicate rule, reordering first |
| `TokenBucket.RateBoundExactly` | faults/fault_engine.cpp:101-120 | For a whole number of bytes per second the rate bound holds for all frame sizes if and only if no clock reading of exactly 0 is followed within a second |
| `TokenBucket.AnyRateExactly` | faults/fault_engine.cpp:101-120 | At any rate, fractional ones included, on clocks not below 0: the bound holds for all frame sizes and continuations of the clock if and only if the first reading is not 0 or the whole bytes of a full bucket have flowed in by the second |
| `TokenBucket.BoundHolds` | faults/fault_engine.cpp:101-120 | Between any two calls, both included, at most a full bucket and what flowed in meanwhile is admitted, at any positive rate |
| `TokenBucket.TokensBounded` | faults/fault_engine.cpp:110-119 | Tokens stay between none and a full bucket |
| `TokenBucket.ZeroReadingBreaksBound` | faults/fault_engine.cpp:106-109 | A reading of exactly 0 followed within a second admits two full buckets |
| `TokenBucket.SingleLimit` | faults/fault_engine.cpp:101-120 | With one bandwidth rule active the stage is one claim on its bucket |
| `TokenBucket.TakeExactly` | faults/fault_engine.cpp:101-120 | One claim in kilobits per second and nanoseconds: refill, cap at one second's worth, admission and what is left |
| `BandwidthRuns.EngineRateBound` | faults/fault_engine.cpp:49-120 | In every run of the engine with one bandwidth rule, over all interleavings, the bytes let through between any two of the calls that reach the rule are at most kbps * 125 times one second more than passed, and the engine's bucket is the one they are taken from |
| `FaultPipeline.AccountKept` | faults/fault_engine.cpp:49-228 | Every step of the caller, the worker and flush keeps the account of inputs and copies and the counters that go with it |
| `FaultPipeline.FrontOfRun` | faults/fault_engine.cpp:49-170 | In every run the part of the state that calls work on is what the calls taken, one after the other, make of it: the worker and flush never touch it |
| `FaultPipeline.OrderedConserves` | faults/fault_engine.cpp:136-170 | Holding, swapping and duplicating lose and invent nothing |
| `FaultEngines.FaultEngine.Process` | faults/fault_engine.cpp:49-170 | The stages run in order and leave the state of the pipeline's call followed by its dispatches |
| `FaultEngines.ProcessIsRun` | faults/fault_engine.cpp:49-194 | With clock readings that do not go back, a call is a run of the pipeline: so what holds over all runs holds of it |
| `FaultEngines.FaultEngine.DispatchOrDelay` | faults/fault_engine.cpp:172-194 | Written at once without a delay, else queued until the longest active delay has passed |
| `FaultEngines.FaultEngine.WorkerPass` | faults/fault_engine.cpp:196-216 | Pops and writes an entry that none is due before, exactly if one is due; else changes nothing |
| `FaultEngines.FaultEngine.Flush` | faults/fault_engine.cpp:218-228 | Writes everything queued, in due order, leaves the queue empty, and is a run of the pipeline |
| `FaultEngines.FaultEngine.Emit` | faults/fault_engine.cpp:40-47 | One write, one forwarded |
| `FaultEngines.FaultEngine.ActiveRules` | faults/fault_engine.cpp:52-58 | The rules that match stream and time, in order |
| `FaultEngines.FaultEngine.TrackRestart` | faults/fault_engine.cpp:60-79 | Hook and edge tracking as the pipeline has them |
| `FaultEngines.FaultEngine.DropsFrame` | faults/fault_engine.cpp:81-99 | Drops for a disconnect or a burst, or for a drop rule whose draw is below its rate |
| `FaultEngines.FaultEngine.TakeTokens` | faults/fault_engine.cpp:103-119 | Refills by the time elapsed up to a full bucket and takes the frame's bytes if they are there |
| `FaultEngines.FaultEngine.AdmitBytes` | faults/fault_engine.cpp:101-120 | Every bandwidth rule in turn until one refuses |
| `FaultEngines.FaultEngine.CorruptBits` | faults/fault_engine.cpp:122-134 | Bit flips rule by rule; a corruption is counted per rule unless the payload is empty |
| `FaultTypes.ActiveExactly` | faults/fault_types.hpp:59-67 | A rule is active exactly if it is there, its stream is empty or the frame's, and the time is in its half-open window |
| `FaultTypes.ActiveInOrder` | faults/fault_engine.cpp:52-58 | The active rules are in the order of the rules |
| `FaultTypes.DelayMs` | faults/fault_engine.cpp:175-180 | The longest active delay: none is longer, and it is 0 or one of them |
| `FaultTypes.FlipsTouchFew` | faults/fault_engine.cpp:127-129 | As many bit flips change at most as many bytes |
| `FaultTypes.FlipUndone` | faults/fault_engine.cpp:128 | A flip changes its byte, and the same flip again restores it |
| `FaultTypes.FlipExactly` | faults/fault_engine.cpp:128 | A flip adds or takes away exactly the weight of its bit |
| `FaultTypes.CorruptedExactly` | faults/fault_engine.cpp:122-134 | Every bit of a corrupted payload is inverted exactly if the corrupt rules draw it an odd number of times |
| `FaultTypes.Corrupted` | faults/fault_engine.cpp:122-134 | Corruption keeps the length, and without a corrupt rule the payload |
| `FaultEngines.FaultEngine.Top` | faults/fault_engine.hpp:70-75 | An entry that nothing queued is due before |
| `TfBuffers.TfBuffer.Tf2Callback` | src/subscription_manager_tf.cpp:102-181 | After every message the list holds, in first-seen order, the latest accepted transform of every pair since the last reset, the index map is a bijection onto it, static stamps are cleared; a reset leaves nothing and hands nothing on |
| `TfBuffers.NeverBothDirections` | src/subscription_manager_tf.cpp:144-158 | After any messages no two distinct frames are stored in both directions |
| `TfBuffers.FirstSeenIsKeys` | src/subscription_manager_tf.cpp:159-161 | First-seen order lists every stored pair exactly once |
| `TfBuffers.AbsorbOneExactly` | src/subscription_manager_tf.cpp:107-166 | A dropped transform changes nothing; one whose pair is new while the reversed one is there is a reset, which one from a frame to itself never is; any other is added |
| `TfBuffers.LatestIsLast` | src/subscription_manager_tf.cpp:159-165 | The transform kept for a pair is its last one |
| `TfBuffers.TfBuffer.AbsorbTransform` | src/subscription_manager_tf.cpp:107-166 | One transform is filtered out, entered, or a reset, the last exactly if its own pair is not in the index map and the reversed one is |
| `TfBuffers.TfBuffer.Enter` | src/subscription_manager_tf.cpp:142-166 | A known pair is overwritten in place, a new one goes to the end |
| `TfBuffers.TfBuffer.Accepts` | src/subscription_manager_tf.cpp:108-141 | Kept exactly if no exclude pattern matches either frame and, where there are include patterns, one does |
| `TfBuffers.TfBuffer.ClearStamps` | src/subscription_manager_tf.cpp:168-172 | Every stamp is zeroed |
| `Subscriptions.CountersAddUp` | src/subscription_manager.cpp:127-215 | Under every policy: captured is enqueued and dropped (and one waiting while blocked), enqueued is popped, queued and overwritten, and popped sequence numbers strictly increase |
| `Subscriptions.MessagesUnchanged` | src/subscription_manager.cpp:127-215 | In every run each frame taken out, queued or waiting is one of the messages that came in, whole and with its time: the one its sequence number stands for; what get_data shows is the last one taken out |
| `Subscriptions.SubscriptionManager.SetSensorType` | include/sensorforge/core/backpressure_policy.hpp:45-56 | The default policies: cameras overwrite, inertial units batch, CAN blocks, all others drop the newest |
| `Subscriptions.OverwriteKeepsNewest` | include/sensorforge/core/backpressure_policy.hpp:78-83 | Under overwriting the ring holds a contiguous run that ends at the newest capture and nothing is dropped |
| `Subscriptions.HasDataExactly` | src/subscription_manager.cpp:171-215 | For every kind of messages: has_data means, in all runs and whatever callbacks come between, that the next get_data hands out data, if and only if the kind leaves out the empty message |
| `Subscriptions.EmptyMessageHandedOut` | src/subscription_manager.cpp:196-204 | After an empty message has_data holds and get_data hands out an empty frame as valid, under every policy |
| `Subscriptions.EmptyMessageRefused` | src/subscription_manager.cpp:171-215 | If stale data is published, has_data still holds once the empty frame is taken out, and get_data reports no valid data |
| `Subscriptions.StaleMeansEmpty` | src/subscription_manager.cpp:132-214 | Data that is not stale is queued; under policies that never block, data is stale exactly when nothing is queued |
| `Subscriptions.BlockedFrameLooksStale` | include/sensorforge/core/backpressure_policy.hpp:95-101 | On a ring of any size, a frame whose blocked callback gets in after the ring has been drained is queued but called stale |
| `Subscriptions.StaleExactly` | src/subscription_manager.cpp:132-214 | For every ring size and set of policies: stale means an empty ring in all runs under them if and only if the blocking policy is not among them |
| `Subscriptions.ApplyPolicy` | include/sensorforge/core/backpressure_policy.hpp:73-104 | Room: enqueued. Full: oldest lost, newest refused, or waiting, by policy |
| `Subscriptions.SubscriptionManager.Callback` | src/subscription_manager.cpp:127-161 | Captures a frame with the next number and pushes it under the policy |
| `Subscriptions.SubscriptionManager.RetryBlocked` | include/sensorforge/core/backpressure_policy.hpp:95-101 | An attempt of the blocking loop succeeds exactly once there is room |
| `Subscriptions.SubscriptionManager.HasData` | src/subscription_manager.cpp:171-181 | True exactly if a message has come and one is queued or stale data is published |
| `Subscriptions.SubscriptionManager.GetData` | src/subscription_manager.cpp:188-215 | Hands out the oldest queued frame, or the last one again if stale data is published and it is not empty |

## Left out

- SeqlockViews.NoTornLoad: does not say that the value was the published one at a moment of the load, because in that
  memory a load may return an old value; it says which store it is and that it is no older than what the reader had seen.
- SpscInterleaving.FifoPrefix: stale values are modelled for the two indices; slots are read as last written. That this is
  what the release stores and acquire loads of the indices give is `SpscViews.FifoPrefix`.
- SpscViews.FifoPrefix: an item is a number, copied in one step; a data race is an access to a slot that has not seen
  every access of the other side to it.
- TokenBucket.RateBoundExactly: whole numbers of bytes per second, on any clock that does not go back;
  `TokenBucket.AnyRateExactly` has any rate, on clocks not below 0.
- SpscInterleaving.FailuresAreTrue: a failure with a stale load is true of the index value loaded, not of the present.
- Spsc.SpscRing.ForcePushOverwrite: only with no consumer in the middle of a pop, as the header asks.
- Seqlocks.NoTornLoad: the 64-bit counter does not wrap, and whether a load ever succeeds under a busy writer is not
  stated.
- Seqlocks.RunKeeps: the writer's load of its own counter is part of its first store, since nobody else stores there.
- FaultPipeline.AccountKept: a write and its counter are one step, as are a dispatch and the counter that goes with it.
- FaultRuns.ReleaseOrder: a flush that runs beside the worker may write its frame
  before or after the worker's.
- BandwidthRuns.EngineRateBound: one bandwidth rule; several rules with different rates on the one bucket are not bounded.
- RecordCodec.GetLe: the reads of two and four bytes are expressions in the source and functions here; the loop is that of
  the eight-byte read.
- Subscriptions.CountersAddUp: callback and get_data run one at a time; a blocked callback is an item that waits and is
  retried, and that it ever succeeds is not stated.
- TfBuffers.TfBuffer.Accepts: regular expressions are arbitrary predicates on frame names.
- Or-combinations of shifted bytes are sums, which agree because the bits do not overlap.
- 64-bit offsets, counters and sequence numbers of the classes are unbounded; the fields on the wire have their widths.
- The library's stable sort, sort and lower bound are used by their contracts; unordered_map and map are finite maps.
- Wall-clock sleeping and the replay modes: only the delivered sequence is modelled.
- Decoders return the header only on success; in the source the out-parameter may be partly filled on an error.
- A log directory that does not exist, files that cannot be opened and directory entries that are not regular files.
- Restarting a writer on a directory that holds segments already: it starts at id 1 again and truncates.
- The destructor and the stop flag of the fault engine, and how long its worker sleeps.
- Mapping fault names to kinds, error names, metrics, reports, scenarios, network interfaces, ROS2 and compression.
- The inline receive loop of the TCP interface, which the reassembler was taken from and which differs from it.
