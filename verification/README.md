# Verified model of the bingo game-server core

This project models the parts of the framework that carry real state or arithmetic, and proves what they promise.
`dafny verify dfyconfig.toml` checks all of it.

- **Record splitter and merger** (`Wire`, `Decimal`, `PbRecord`, `PbSplit`, `PbMerge`). A serialized protobuf record is
  cut into database columns and rebuilt from them in any map order. The splitter works on Go slices of one marshal
  buffer: `Slice` is a window of a heap array and `Append` writes in place when there is room. The main results: every
  append copies bytes onto themselves, so the buffer never changes; the columns are those of the populated fields; field
  selection is restriction; and split, store and merge gives the record back exactly when every populated field survives.
- **Cache** (`CacheSpec`, `CacheLists`, `CacheRep`, `CacheModel`, `CacheRuns`, `CacheDrive`). `CacheSpec` is a reference cache
  without lists; the class keeps the map, both lists, node back-pointers and the size, and each method refines one
  reference step. `CacheRuns` proves coherence, exact eviction and the capacity bound over every run, and `CacheDrive`
  shows that every call sequence on the object is such a run.
- **Logger** (`AsyncLog`, `AsyncPass`, `AsyncRuns`, `LogFiles`, `Rotation`, `LogPipeline`). The asynchronous protocol is a transition system over
  producers, Sync callers and the writer loop; rotation is a class over a model file system in which every system call may
  fail. `LogPipeline` joins the two halves: what Sync promises is in the files exactly if no write failed.
- **Framing** (`Transport`, `CsCodec`). Both length-prefixed layouts with their 32-bit words, the fill loop over arbitrarily
  chunked input, and the two layers together.
- **Log text encoder** (`ProtoLog`). The recursive encoder over path slices that share backing arrays equals a pure
  flattening.
- **Identifiers** (`Uid`, `RedisKey`). Bit-packed ids over whole runs, and injectivity of printed composite keys.

Go strings and byte slices are `seq<byte>` (`Text`) where they are values. Clocks, system-call failures, chunk sizes,
append's growth and map iteration order are arguments or nondeterministic choices.

Where the code does less than its design suggests, the model says exactly when:

- The record round trip fails for a populated singular enum (its text never parses, and line 228 of
  `plugin/db/pbsupport/pbsupport.go` tests the wrong error, so the merge panics) and for a field whose name starts with
  `_` unless the target already holds it (`PbMerge.RoundTrip`).
- A frame decodes back exactly when the packet is shorter than 2^32 bytes (`Transport.FrameRoundTripExact`).
- Composite keys are injective exactly when at most one key field is a string and no signed integer directly follows it
  (`RedisKey.InjectiveExactly`).
- Ids of one generator are distinct exactly when the clock does not return to a second it has left
  (`Uid.DistinctExactly`). For generator 0/0 the first id of a visit to the base second would be 0, which stands for no
  id, so there only a second call of a visit counts.
- Add is refused exactly when its key is held, even if the entry has expired: presence is tested before expiry
  (`CacheRuns.AddRefused`, and `CacheRuns.ExpiredAddRefused` for a run).
- Log files stay below the split size plus one write exactly until the move of a full file fails. Such a move leaves the
  file closed, and the next write reopens it without a look at its size (`Rotation.Logger.WriteSync`,
  `Rotation.RunBounded`, `Rotation.FailedMoveExtends`); with a rename that keeps failing the file grows without bound
  (`Rotation.FailedMovesGrow`), and every fault that can fail a move breaks the bound (`Rotation.FailedMoveExceeds`).
- The writer loop discards the error of `writeSync` (lines 329 and 336 of `plugin/log/bingologger/bingologger.go`), so
  Sync returns although bytes are missing. The files hold all bytes handed over exactly if every write that had something
  to write succeeded (`LogPipeline.WriteBatches`); every write that reaches a failing call has a run in which Sync returns
  and its bytes are lost (`LogPipeline.SyncLosesBytes`).
- `loopFunc()` is called inline at line 367 of `plugin/log/bingologger/bingologger.go`, so `Init` as written does not
  return in asynchronous mode; the comment at line 315 states that the loop runs concurrently, and so does the model.

## Model

| member | source | states |
|---|---|---|
| `Wire.VarintRoundTrip` | plugin/db/pbsupport/pbsupport.go:144 | Consuming an appended varint gives back the value and its length, whatever follows |
| `Wire.VarintExactly` | plugin/db/pbsupport/pbsupport.go:144 | For every byte string, which varint is read off its front: continuation bytes up to one without the bit, at most ten, with their base-128 value below 2^64, and nothing else |
| `Wire.ValueIs` | plugin/db/pbsupport/pbsupport.go:144 | A value of wire type 0 is a varint, one of type 2 a varint and as many bytes, if they are there |
| `Wire.ValueOtherwise` | plugin/db/pbsupport/pbsupport.go:144 | Types 1 and 5 are eight and four bytes, if they are there; nothing else is readable |
| `Wire.TaggedIsRecord` | plugin/db/pbsupport/pbsupport.go:144 | A tag followed by one value of its wire type is consumed as exactly one record of that field |
| `Wire.ConsumeFieldPrefix` | plugin/db/pbsupport/pbsupport.go:144 | What follows a record does not change how it is consumed |
| `Wire.ConsumeFieldShrink` | plugin/db/pbsupport/pbsupport.go:144-148 | Cutting right behind a record leaves it readable on its own |
| `Wire.ParseRaw` | plugin/db/pbsupport/pbsupport.go:143-172 | Reading records off a concatenation of records gives the same records and uses it up |
| `Wire.ParseFront` | plugin/db/pbsupport/pbsupport.go:143-172 | Records in front of anything are read off it one by one |
| `Wire.ParseCut` | plugin/db/pbsupport/pbsupport.go:143-172 | Any bytes are the records read off them and a rest, empty exactly if the parse is complete, and otherwise unreadable |
| `Wire.TruncatedFails` | plugin/db/pbsupport/pbsupport.go:144-147 | A record that is cut off cannot be read |
| `Decimal.ParsePrintInt` | plugin/db/pbsupport/pbsupport.go:277-285 | Parsing a printed signed integer that fits the width returns it |
| `Decimal.ParsePrintUint` | plugin/db/pbsupport/pbsupport.go:287-295 | Parsing a printed unsigned integer that fits the width returns it |
| `Decimal.PrintIntIs` | plugin/db/pbsupport/pbsupport.go:317-318 | The printed text of an integer is the one canonical text: digits of its value without a leading zero, behind a minus if negative |
| `Decimal.PrintNatIs` | plugin/db/pbsupport/pbsupport.go:317-318 | The printed text of a natural number is the one digit text with its value and no leading zero |
| `Decimal.TenTimes` | plugin/db/pbsupport/pbsupport.go:317-318 | Digits count by tens |
| `Decimal.ParseIntExactly` | plugin/db/pbsupport/pbsupport.go:277-285 | Signed parsing accepts exactly the texts of numbers in range, with leading zeros and an optional sign |
| `Decimal.ParseUintExactly` | plugin/db/pbsupport/pbsupport.go:287-295 | Unsigned parsing accepts exactly the texts of numbers in range, with leading zeros |
| `PbRecord.ScalarTextRoundTrip` | plugin/db/pbsupport/pbsupport.go:259-321 | unmarshalScalarByStr undoes marshalScalar for every kind but enum |
| `PbRecord.MarshalScalarText` | plugin/db/pbsupport/pbsupport.go:309-321 | The column text of a scalar is exactly 1 or 0, the canonical decimal text, or the string |
| `PbRecord.UnmarshalExactly` | plugin/db/pbsupport/pbsupport.go:259-307 | For every kind and every text, exactly which value it is read as, if any, with the ranges of 32 and 64 bits |
| `PbRecord.WireValueMeans` | plugin/db/pbsupport/pbsupport.go:139 | The serialized scalar decodes to the value in each coding |
| `PbRecord.VarintExample` | plugin/db/pbsupport/pbsupport.go:139 | The integer 150 in field 1 serializes as in the Encoding specification |
| `PbRecord.StringExample` | plugin/db/pbsupport/pbsupport.go:139 | A string of seven bytes in field 2 serializes as in the Encoding specification |
| `PbRecord.Fixed32Example` | plugin/db/pbsupport/pbsupport.go:139 | A fixed 32-bit field serializes little-endian behind its tag |
| `PbRecord.Fixed64Example` | plugin/db/pbsupport/pbsupport.go:139 | A fixed 64-bit field serializes little-endian behind its tag |
| `PbRecord.ScalarRecordIsRecord` | plugin/db/pbsupport/pbsupport.go:139-144 | A serialized scalar, in each of its codings, is one readable record of its field |
| `PbRecord.MarshalRecordsReadable` | plugin/db/pbsupport/pbsupport.go:139-144 | Every record of a serialized message is readable and belongs to a populated field, in any field order |
| `PbRecord.MarshalRecordsOwn` | plugin/db/pbsupport/pbsupport.go:139-144 | In any field order, the records with a field's number are exactly that field's records, and none if it is not populated |
| `PbSplit.Append` | plugin/db/pbsupport/pbsupport.go:166-168 | Go's append on a shared array: content is old content plus the new bytes, in place exactly when the capacity allows it, and what else of the array changes |
| `PbSplit.SelfAppend` | plugin/db/pbsupport/pbsupport.go:166-168 | Appending to a slice the bytes right behind it leaves the whole array unchanged and just widens the slice |
| `PbSplit.DirtyFilter` | plugin/db/pbsupport/pbsupport.go:177-203 | The loop computes the set of known top-level names, or no filter for an empty list |
| `PbSplit.TopNameMeaning` | plugin/db/pbsupport/pbsupport.go:184-200 | A path counts for a field exactly when it is the known field itself, or is unknown and the part before its first dot is the field |
| `PbSplit.FilterSelects` | plugin/db/pbsupport/pbsupport.go:177-203 | A non-empty list selects a field exactly when one of its paths names it |
| `PbSplit.RangeScalars` | plugin/db/pbsupport/pbsupport.go:127-132 | Ranging over the populated fields in any order collects exactly the texts of the scalars |
| `PbSplit.PutRecord` | plugin/db/pbsupport/pbsupport.go:153-171 | One scan step keeps the buffer, and takes the columns of the records seen to the columns with this record added |
| `PbSplit.MarshalToMap` | plugin/db/pbsupport/pbsupport.go:123-174 | For contiguous records the scan ends, leaves the buffer unchanged, keeps every slice on it, and the slices spell the specified columns or the specified error; every text column is exactly 1 or 0, the canonical decimal text, or the string |
| `PbSplit.MarshalContiguous` | plugin/db/pbsupport/pbsupport.go:139-143 | A serializer that visits each field once, in any order, gives contiguous records |
| `PbSplit.SplitOfMarshal` | plugin/db/pbsupport/pbsupport.go:123-174 | Splitting a serialized message gives one column per populated selected field: scalar text, or the in-order concatenation of its own records |
| `PbSplit.ColumnsHold` | plugin/db/pbsupport/pbsupport.go:123-174 | There is a column exactly for each populated and selected field, and by the field's kind it holds the field's records in order or the value's text |
| `PbSplit.PayloadColumn` | plugin/db/pbsupport/pbsupport.go:160-170 | Any payload can stand in a bytes or message field, and its column is the length-delimited record |
| `PbSplit.SplitStops` | plugin/db/pbsupport/pbsupport.go:149-152 | A record of an unknown field stops the split with its number, whatever follows |
| `PbSplit.SplitBreaks` | plugin/db/pbsupport/pbsupport.go:144-147 | Unreadable bytes behind known records stop the split with a wire error |
| `PbSplit.SplitSucceeds` | plugin/db/pbsupport/pbsupport.go:143-173 | Known records and nothing else split without error |
| `PbSplit.SplitTruncated` | plugin/db/pbsupport/pbsupport.go:144-147 | A record cut off anywhere is a wire error |
| `PbSplit.SelectionIsRestriction` | plugin/db/pbsupport/pbsupport.go:134-159 | For the specified split of any bytes, selecting fields is restricting the full split: same errors, empty list selects all, only unknown names select none |
| `PbSplit.SplitTwice` | plugin/db/pbsupport/pbsupport.go:123-203 | Two runs of MarshalToMap on one buffer, with and without the field list: same error, or the columns of the full split restricted to the fields the list names |
| `PbMerge.LoadOne` | plugin/db/pbsupport/pbsupport.go:211-233 | One column is skipped, buffered, set, or panics, as its name, kind and text require |
| `PbMerge.UnmarshalFromMap` | plugin/db/pbsupport/pbsupport.go:206-237 | For every column map and every outcome of the library's Unmarshal, the loop visits each column once in some order and its outcome is the merge in that order, which `PbMerge.UnmarshalMeaning` spells out |
| `PbMerge.ColumnLoads` | plugin/db/pbsupport/pbsupport.go:211-233 | One column of any map: hidden and unknown names change nothing, a blob is buffered, a text that is no value of its kind panics, a value is set, and the zero of a field without presence clears it |
| `PbMerge.LoadMeaning` | plugin/db/pbsupport/pbsupport.go:211-234 | Any columns in any order: a panic exactly if a relevant scalar text does not read, otherwise scalars set one after another and blobs buffered in order |
| `PbMerge.UnmarshalMeaning` | plugin/db/pbsupport/pbsupport.go:206-237 | The outcome is a panic exactly for an unreadable column, an error exactly if the library reports one, and otherwise what the library makes of the scalars and blobs |
| `PbMerge.LoadIgnores` | plugin/db/pbsupport/pbsupport.go:212-219 | Dropping hidden and unknown columns from map and order changes nothing |
| `PbMerge.LoadState` | plugin/db/pbsupport/pbsupport.go:211-234 | After any columns of a message in any order: panic exactly if a visible enum was met, otherwise the scalars met are set and the blobs met are buffered |
| `PbMerge.MergeBlobs` | plugin/db/pbsupport/pbsupport.go:235 | Merging the buffered records adds exactly the blob fields they came from |
| `PbMerge.RoundTrip` | plugin/db/pbsupport/pbsupport.go:123-237 | For every record, every map order and every target holding at most key fields, and a library that merges the record's own wire records as the encoding specification says: the merge rebuilds the record if and only if every populated field survives |
| `PbMerge.RoundTripAmong` | plugin/db/pbsupport/pbsupport.go:123-237 | The round trip among any columns that are no fields of the message, with the same if and only if |
| `PbMerge.RecordLibraryMerges` | plugin/db/pbsupport/pbsupport.go:235 | Reading the records off the buffer and merging them one by one is such a library |
| `PbMerge.EnumIsLost` | plugin/db/pbsupport/pbsupport.go:226-232 | A record holding one singular enum panics in the merge |
| `PbMerge.HiddenIsLost` | plugin/db/pbsupport/pbsupport.go:212-214 | A record whose field is named _ comes back empty |
| `PbMerge.Save` | plugin/db/pbsupport/pbsupport.go:123-174 | MarshalToMap on a serialized record, read back through its slices, gives one column per populated field that holds 1 or 0, the canonical decimal text, the string, or the field's own records |
| `PbMerge.SaveAndLoad` | plugin/db/pbsupport/pbsupport.go:123-237 | End to end on Go slices: split, store among other columns and merge returns the record if and only if every populated field survives |
| `CacheSpec.MostRecentUnique` | common/cache/cache.go:190-205 | A part of the entries, each used after every entry left out, is the set of as many most recently used entries |
| `CacheSpec.SizeWith` | common/cache/cache.go:146 | Adding an entry adds its size to the sum of sizes |
| `CacheRep.GoodRemove` | common/cache/cache.go:163-172 | Removing an entry's two stored nodes, its map entry and its size keeps the representation invariant |
| `CacheRep.GoodTouch` | common/cache/cache.go:96-100 | Replacing an entry's LRU node by a new one at the front keeps the representation invariant |
| `CacheRep.GoodInsert` | common/cache/cache.go:138-146 | Pushing two new nodes for a new key keeps the representation invariant |
| `CacheRep.AgeBack` | common/cache/cache.go:176-185 | The back of the age list is a held key whose load time no entry precedes, which makes early stopping exact |
| `CacheRep.LruBack` | common/cache/cache.go:200-204 | The back of the LRU list is a held key used before every other |
| `CacheModel.Cache.constructor` | common/cache/cache.go:38-46 | A new cache is valid and is the empty reference cache |
| `CacheModel.Cache.UnsafeRemove` | common/cache/cache.go:163-172 | Removes exactly the key, returns its value or nothing, keeps the invariant |
| `CacheModel.Cache.RemoveExpired` | common/cache/cache.go:174-187 | The early-stopping scan ends and removes exactly the entries with loadTime <= now - ttl |
| `CacheModel.Cache.Cull` | common/cache/cache.go:190-205 | Below the high water mark nothing; otherwise expiry and then exactly the most recently used entries up to the low water mark |
| `CacheModel.Cache.Get` | common/cache/cache.go:88-104 | Refines the reference Get: expiry, then a hit that refreshes the last use, or a miss |
| `CacheModel.Cache.Update` | common/cache/cache.go:107-125 | Refines the reference Update: a hit changes value and last use but not the load time |
| `CacheModel.Cache.AddWithSize` | common/cache/cache.go:128-149 | Refines the reference Add: refused if present, else cull and insert |
| `CacheModel.Cache.Remove` | common/cache/cache.go:157-161 | Refines the reference Remove |
| `CacheModel.Cache.SetCapacity` | common/cache/cache.go:54-58 | Capacities above 1 are taken, others ignored |
| `CacheModel.Cache.SetTTL` | common/cache/cache.go:61-63 | The TTL is replaced and no entry touched |
| `CacheRuns.LastUseIsHistory` | common/cache/cache.go:88-149 | In every run an entry's last use is the position of the last successful Add, hit Get or hit Update of its key |
| `CacheRuns.DistinctUses` | common/cache/cache.go:88-149 | Two held keys never have the same last use |
| `CacheRuns.HeldSince` | common/cache/cache.go:128-149 | A held entry was added by a successful Add, with that load time and size, and has been held ever since |
| `CacheRuns.LatestWrite` | common/cache/cache.go:107-149 | A held entry carries the value of the latest successful Add or hit Update of its key |
| `CacheRuns.SettingsAre` | common/cache/cache.go:54-63 | In every run the TTL is the argument of the last SetTTL or one minute, and the capacity that of the last SetCapacity above 1 or 1024 |
| `CacheRuns.CountersAre` | common/cache/cache.go:88-125 | The counters are the numbers of lookups that hit and that missed |
| `CacheRuns.LookupHits` | common/cache/cache.go:88-125 | A Get or Update hits exactly when its key is held and was added less than the TTL ago, and a hit Update returns its own value |
| `CacheRuns.RemoveReturns` | common/cache/cache.go:157-172 | Remove returns the latest written value exactly if the key is held |
| `CacheRuns.HeldAfter` | common/cache/cache.go:54-205 | Exactly which keys each operation leaves in the cache, but for the evictions of a culling Add |
| `CacheRuns.GetCoherent` | common/cache/cache.go:88-149 | A hit Get returns the latest written value, of an entry added less than the last TTL set ago and held since |
| `CacheRuns.GetMisses` | common/cache/cache.go:88-104 | A missed Get of a held key means it was added at least the last TTL set ago |
| `CacheRuns.AddRefused` | common/cache/cache.go:132-136 | In every run an Add is refused if and only if its key is held, expired or not |
| `CacheRuns.ExpiredAddRefused` | common/cache/cache.go:132-136 | The run that adds a key and adds it again when the TTL is over: the second Add is refused though nothing unexpired is left |
| `CacheRuns.MostRecentCount` | common/cache/cache.go:190-205 | The most recently used entries up to a mark are exactly that many, or all |
| `CacheRuns.EvictsLeastRecentlyUsed` | common/cache/cache.go:128-205 | An Add that finds 97% of the last capacity set keeps all unexpired entries if they fit into 90% of it, otherwise exactly that many, each used after every one dropped |
| `CacheRuns.CapacityBound` | common/cache/cache.go:54-205 | After every successful Add the cache holds at most 97% of the last capacity set, or 90% and one, and at most that capacity |
| `CacheDrive.Perform` | common/cache/cache.go:54-161 | Every call on the object answers and changes the reference state as the reference step does |
| `CacheDrive.Drive` | common/cache/cache.go:38-205 | Any call sequence with a nondecreasing clock on a new object is a run, so the run theorems hold for it; at the end map count and size agree with the reference entries |
| `AsyncLog.ConservedStep` | plugin/log/bingologger/bingologger.go:297-369 | Every step keeps: written, gathered and queued buffers in order are the accepted ones; no batch exceeds the limit unless it is one buffer; the writer never counts on more buffers than there are |
| `AsyncLog.WriterNeverBlocks` | plugin/log/bingologger/bingologger.go:322-364 | The writer always has an enabled step; its receives and its signal to Sync do not block |
| `AsyncLog.OrderedStep` | plugin/log/bingologger/bingologger.go:297-313 | Every step keeps: what a producer wrote is what it has in the log followed by what it is delivering; returned buffers are in the log |
| `AsyncLog.ExactlyOnce` | plugin/log/bingologger/bingologger.go:297-313 | No buffer is in the log twice |
| `AsyncLog.SyncStep` | plugin/log/bingologger/bingologger.go:265-277 | Every step keeps: the writer will have passed a waiting Sync caller's mark when it signals |
| `AsyncLog.SignalMeansWritten` | plugin/log/bingologger/bingologger.go:346-352 | When the writer signals, every non-empty buffer below the caller's mark has been handed to writeSync |
| `AsyncLog.InvAlways` | plugin/log/bingologger/bingologger.go:265-369 | The invariants hold in every state of every interleaving |
| `AsyncLog.WrittenInOrder` | plugin/log/bingologger/bingologger.go:297-369 | In every reachable state the writes are an initial part of the accepted buffers, without repetition, each producer's the data of its Write calls in order, the rest still pending, batches within ten megabytes |
| `AsyncLog.SyncFlushes` | plugin/log/bingologger/bingologger.go:265-369 | When Sync returns, every non-empty buffer whose Write returned before it began has been handed to writeSync |
| `AsyncLog.IssuedAre` | plugin/log/bingologger/bingologger.go:297-313 | In every run what counts as written by a producer is what its Write calls were given, in order |
| `AsyncLog.AllAccepted` | plugin/log/bingologger/bingologger.go:297-313 | A producer whose calls have returned has all of them in the log, also those that met a full channel |
| `AsyncLog.CallAccepted` | plugin/log/bingologger/bingologger.go:297-313 | Each Write call whose producer is ready again is in the log |
| `AsyncLog.SyncFlushesCalls` | plugin/log/bingologger/bingologger.go:265-369 | When Sync returns, every non-empty Write call whose producer was ready again when it began has been handed to writeSync |
| `AsyncLog.AlwaysAttended` | plugin/log/bingologger/bingologger.go:265-277 | In every reachable state the writer works for every Sync caller that waits |
| `AsyncLog.WriterWakes` | plugin/log/bingologger/bingologger.go:344-364 | A tick, a full channel and a Sync call each start a pass of the writer |
| `AsyncRuns.FullRun` | plugin/log/bingologger/bingologger.go:303-312 | The run in which a Write meets a full channel: both buffers reach writeSync |
| `AsyncPass.PassResult` | plugin/log/bingologger/bingologger.go:322-340 | A pass of the writer, whatever others do meanwhile, receives exactly the buffers queued at its start, batches them as without interference, and takes at most two steps more than there are buffers |
| `AsyncPass.PassWrites` | plugin/log/bingologger/bingologger.go:322-340 | When a pass is over, every non-empty buffer accepted before it began has been handed to writeSync |
| `AsyncPass.PassGreedy` | plugin/log/bingologger/bingologger.go:325-338 | The writes of a pass are as few as the limit allows: each is followed by a buffer that did not fit into it, and the last is not empty |
| `LogFiles.ArchiveNameInjective` | plugin/log/bingologger/bingologger.go:475-480 | Different generations of one day have different archive names |
| `LogFiles.ArchiveNameIs` | plugin/log/bingologger/bingologger.go:475-480 | The archive name is the file's, a dot and the creation date as yyyymmdd, and for a later generation a dot and its number |
| `LogFiles.FindFree` | plugin/log/bingologger/bingologger.go:474-491 | The name search ends on every file system, at the first free generation, or at the failing probe exactly if every name before it is taken |
| `LogFiles.MoveKeeps` | plugin/log/bingologger/bingologger.go:465-494 | A move to a free name keeps all bytes in order, every archive and the size limit |
| `LogFiles.AppendKeeps` | plugin/log/bingologger/bingologger.go:280-294 | An append adds its bytes at the end of all bytes kept and changes no other file |
| `Rotation.Logger.MoveLogFile` | plugin/log/bingologger/bingologger.go:465-494 | The active file gets the first free archive name from the current generation on, nothing is lost or overwritten; it fails exactly if the failing probe is reached or the rename fails, and then changes no file |
| `Rotation.Logger.Rotate` | plugin/log/bingologger/bingologger.go:406-423 | A due file is archived under the first free name of its creation date; a new day resets the generation, a full file advances it past the name used |
| `Rotation.Logger.UpdateOldFileFd` | plugin/log/bingologger/bingologger.go:389-425 | The open file stays open exactly if it exists and is not due; a due one is archived; exactly which faults make it fail; nothing kept is lost |
| `Rotation.Logger.OpenLogFile` | plugin/log/bingologger/bingologger.go:439-463 | Opening changes no content, sets the creation time, and fails only on a failing call |
| `Rotation.Logger.UpdateFileFd` | plugin/log/bingologger/bingologger.go:371-386 | Succeeds exactly if no failing call is reached, and then a file is open; a full file is left closed exactly if its move fails |
| `Rotation.Logger.WriteSync` | plugin/log/bingologger/bingologger.go:280-294 | Under any faults: exactly the bytes taken are added to what is kept, all of them exactly if no failing call is reached; exactly when a file is archived and how; a full file is left closed exactly if its move fails, and otherwise files stay below the split size plus the write |
| `Rotation.WriteCleanly` | plugin/log/bingologger/bingologger.go:280-494 | A fault-free write on an open file archives exactly that file if it was created more than a day ago or on another day, or has reached the split size in megabytes: first free name of its creation date, generation 0 on a new day and otherwise behind that name, the active file holding exactly the new bytes; in all other cases nothing moves |
| `Rotation.RunDated` | plugin/log/bingologger/bingologger.go:389-425 | Over any run with any faults, a write that succeeds on a file open before it lands in a file created on the day of the write |
| `Rotation.Run` | plugin/log/bingologger/bingologger.go:280-506 | Over any writes with any faults, archives in move order followed by the active file are what was kept before and the bytes taken of each write in order; earlier archives stay as they are |
| `Rotation.RunBounded` | plugin/log/bingologger/bingologger.go:371-425 | From any state and with any other faults, as long as no move fails, every file but the one active at the start stays below the split size plus the longest write, and that one too unless it was too long or closed at the split size |
| `Rotation.FailedMoveExtends` | plugin/log/bingologger/bingologger.go:389-494 | A failed move of a full file, then any write: the same file is extended beyond the split size plus that write |
| `Rotation.FailedMovesGrow` | plugin/log/bingologger/bingologger.go:389-494 | With a rename that fails whenever it is tried, one file grows by every second write |
| `Rotation.FailedMoveExceeds` | plugin/log/bingologger/bingologger.go:389-494 | For every fault that can fail a move, three writes of the split size leave one file of twice the split size |
| `LogPipeline.SyncFlushesBytes` | plugin/log/bingologger/bingologger.go:265-369 | When Sync returns, the bytes handed to writeSync begin with all bytes accepted before it began, in order |
| `LogPipeline.WriteAll` | plugin/log/bingologger/bingologger.go:322-340 | On the buffers a pass of any run receives, whatever producers add meanwhile, the writer's byte-buffer loop writes exactly the batches of the transition system and leaves its buffer empty |
| `LogPipeline.WriteBatches` | plugin/log/bingologger/bingologger.go:265-506 | Both halves together under any faults: the files hold the bytes taken of each batch, which are all bytes handed over if and only if no write with something to write failed, and then after Sync all bytes accepted before it began |
| `LogPipeline.WriteBatchesCleanly` | plugin/log/bingologger/bingologger.go:265-506 | Without faults the files hold all bytes handed over, and after Sync all bytes accepted before it began |
| `LogPipeline.SyncLosesBytes` | plugin/log/bingologger/bingologger.go:265-369 | For every logger and every write that reaches a failing call there is a run in which Sync returns and the bytes are not in the files |
| `Transport.Encode` | plugin/transport/codec.go:94-106 | The buffer filled by the size words and the copy is the frame of the packet; shorter than four bytes panics |
| `Transport.FrameRoundTrip` | plugin/transport/codec.go:42-106 | A frame in front of any stream decodes to its packet and leaves exactly that stream, also when the header-size word exceeds the packet |
| `Transport.FrameLayout` | plugin/transport/codec.go:94-106 | A frame is the header-size word, the size of the rest as a word, and the packet behind its word |
| `Transport.DecodeMeans` | plugin/transport/codec.go:42-92 | What is decoded off any stream whose sizes do not wrap: exactly as many bytes as both words say, or a failure if the stream ends before |
| `Transport.TruncatedFrame` | plugin/transport/codec.go:71-80 | A frame that is cut off anywhere gives no packet |
| `GoBase.LittleEndian` | plugin/transport/codec.go:62-101 | Words are written and read least significant byte first |
| `Transport.SizeWraps` | plugin/transport/codec.go:69-101 | Header and body sizes add up to the packet size modulo 2^32 |
| `Transport.FrameRoundTripExact` | plugin/transport/codec.go:42-106 | The round trip holds if and only if the packet is shorter than 2^32 bytes |
| `Transport.StreamRoundTrip` | plugin/transport/codec.go:42-106 | Receiving the frames of any list of packets, followed by any proper initial part of one more frame, gives exactly that list in order and then fails |
| `Transport.Conn.ReadSome` | plugin/transport/tcp/tcp.go:117 | A read takes between one byte and the current chunk, from the front of the stream, and touches only that part of the buffer |
| `Transport.Conn.Read` | plugin/transport/tcp/tcp.go:108-125 | The fill loop fills the whole target with the next bytes of the stream however it is cut, or fails when the stream is too short |
| `Transport.Conn.ReadHead` | plugin/transport/codec.go:43-65 | The two size words are the first eight bytes of the stream, or the read fails |
| `Transport.Conn.Decode` | plugin/transport/codec.go:42-92 | Decoding off the connection is decoding the remaining byte stream, whatever its chunks, and consumes exactly the frame |
| `Transport.Conn.Recv` | plugin/transport/tcp/tcp.go:127-153 | The receive loop hands out the packets of the stream in order until a decode fails, or until a context is found cancelled between two of them |
| `Transport.Deliver` | plugin/transport/tcp/tcp.go:108-153 | Any cut into non-empty chunks of the frames of a packet list, and of part of one more frame, is received as that list and nothing more |
| `CsCodec.Copy` | server_base/msg/codec.go:51-64 | copy writes as many bytes as fit, returns that number and leaves the rest alone |
| `CsCodec.Encode` | server_base/msg/codec.go:40-67 | Succeeds exactly when both parts marshal and 4 + header + body fits 512000 bytes, with the packet of both |
| `CsCodec.PacketLayout` | server_base/msg/codec.go:48-66 | A packet is the header's size as a word, the header and the body |
| `CsCodec.SplitExactly` | server_base/msg/codec.go:72-94 | The slicing of Decode panics exactly if the data does not hold the header it announces |
| `CsCodec.SplitOfPacket` | server_base/msg/codec.go:69-94 | A packet splits into the header bytes and body bytes it was made of |
| `CsCodec.PacketOfSplit` | server_base/msg/codec.go:69-94 | Any data that splits is the packet of its parts |
| `CsCodec.ThroughTransport` | server_base/msg/codec.go:40-94 | Encoded, framed, decoded from the front of any stream and split: the same header and body bytes, and the stream behind; the frame's two words are their sizes |
| `ProtoLog.Append` | plugin/log/protolog/encode.go:78-85 | append on a path: old path plus the name, in the shared array or a fresh one, and the path appended to is unchanged |
| `ProtoLog.Encoder.MarshalMessage` | plugin/log/protolog/encode.go:50-64 | Adds the flattened message, every leaf with its own full path, and leaves the caller's path as it was |
| `ProtoLog.Encoder.MarshalField` | plugin/log/protolog/encode.go:67-76 | Adds the flattened field, reports its error, and leaves the caller's path as it was |
| `ProtoLog.Encoder.MarshalRepeated` | plugin/log/protolog/encode.go:78-97 | A list or map field: its entries flattened under the field's name |
| `ProtoLog.Encoder.MarshalEntries` | plugin/log/protolog/encode.go:78-114 | The entry loop: entries in order under their index or key, up to the first error, though entry paths may share one array |
| `ProtoLog.Encoder.MarshalNth` | plugin/log/protolog/encode.go:80-112 | One entry, on a path appended to the list's own, which stays as it was |
| `ProtoLog.Encoder.MarshalEntry` | plugin/log/protolog/encode.go:116-134 | A list or map value: a sub-message under the name, or one line with the path |
| `ProtoLog.Encoder.MarshalSingular` | plugin/log/protolog/encode.go:136-153 | A singular value: a sub-message under the field's name, or one line with path and name |
| `ProtoLog.Encoder.WritePath` | plugin/log/protolog/encode.go:124-130 | The loop writes the path joined with dots |
| `ProtoLog.Encoder.WriteSingular` | plugin/log/protolog/encode.go:144-151 | The loop writes the path and the name joined with dots, the equals sign and the text |
| `ProtoLog.Marshal` | plugin/log/protolog/encode.go:37-48 | For every message tree and every growth of append the text is the pure flattening |
| `ProtoLog.MessageStops` | plugin/log/protolog/encode.go:50-64 | A field that fails ends its message, with the text written so far |
| `ProtoLog.LeafLine` | plugin/log/protolog/encode.go:136-166 | A singular scalar is one line: path and logged name with dots, an equals sign and the text; an unknown kind ends the message |
| `ProtoLog.ListLine` | plugin/log/protolog/encode.go:78-134 | A scalar list entry is one line under the list's name and its index |
| `ProtoLog.MapLine` | plugin/log/protolog/encode.go:94-134 | A scalar map entry is one line under the map's name and its key |
| `ProtoLog.SubLines` | plugin/log/protolog/encode.go:116-139 | The lines of a sub-message, as a field, a list entry or a map entry, are those of its fields under the longer path |
| `ProtoLog.RenderedExactly` | plugin/log/protolog/encode.go:168-216 | The text of a scalar is exactly true or false, the canonical decimal text, or its bytes |
| `ProtoLog.ExampleText` | plugin/log/protolog/encode.go:37-166 | A message with an id, a flag and a list logs as uid=5 on=true item.0=7 |
| `ProtoLog.ValueToString` | plugin/log/protolog/encode.go:168-216 | Rendering fails exactly for kinds it does not know |
| `ProtoLog.ValueTextInjective` | plugin/log/protolog/encode.go:168-216 | Values of one kind are told apart by their text |
| `Uid.StateBounds` | common/uid/uid.go:32-64 | In every state of every run the prefix is the two shifted ids, the sequence is at most 65536, and the stamp is 0 or one of the readings at or after the base time |
| `Uid.Generator.Next` | common/uid/uid.go:55-78 | The object's call is the state function of a call at that time |
| `Uid.PackDecodes` | common/uid/uid.go:9-13 | The four bit fields are read back from a packed id |
| `Uid.IdFields` | common/uid/uid.go:55-78 | Every id issued in a run holds its generator's ids, its second and its sequence number, without overflow |
| `Uid.IdsIncrease` | common/uid/uid.go:55-78 | With a nondecreasing clock the ids of one generator are strictly increasing |
| `Uid.NumberPasses` | common/uid/uid.go:61-75 | While no other second is seen, the sequence number stays ahead of every id issued in this one |
| `Uid.GeneratorsDisjoint` | common/uid/uid.go:32-78 | Equal ids have equal function id, instance id, second and sequence number |
| `Uid.AtMostPerSecond` | common/uid/uid.go:69-75 | No second of a run yields more than 65536 ids |
| `Uid.ClosedForm` | common/uid/uid.go:32-78 | With a nondecreasing clock every call in closed form: no id before the base time or after 65536 calls in the second, otherwise the four fields at their bit positions |
| `Uid.DistinctExactly` | common/uid/uid.go:55-78 | For every generator and any clock, ids are distinct if and only if the clock does not return to a second it has left, with an id issued there before and after |
| `RedisKey.BuildKey` | plugin/db/redis/pb2redis.go:49-74 | The closure's text is the name and, in braces behind a colon, the canonical texts of the key fields with dashes between them |
| `RedisKey.InnerInjective` | plugin/db/redis/pb2redis.go:49-74 | Different values of decodable key fields print differently, with integers of any sign and one arbitrary string |
| `RedisKey.NamesNeverClash` | plugin/db/redis/pb2redis.go:51-56 | Message types with different names never share a key |
| `RedisKey.SignedBehindString` | plugin/db/redis/pb2redis.go:49-74 | A signed integer right behind a string admits two key tuples with one key |
| `RedisKey.TwoStrings` | plugin/db/redis/pb2redis.go:49-74 | Two string fields anywhere admit two key tuples with one key |
| `RedisKey.InjectiveExactly` | plugin/db/redis/pb2redis.go:49-74 | Key tuples of given kinds are told apart if and only if at most one field is a string and no signed integer directly follows it |

## Left out

- PbSplit.MarshalToMap: assumes each field's records are contiguous, as Go's serializer writes them (`PbSplit.MarshalContiguous`), and a record shorter than 2^31 bytes, because the scan's cursor is an int32; a failing `Marshal` is not modelled.
- PbMerge.UnmarshalFromMap: `proto.Unmarshal` itself is an argument; what it makes of malformed or foreign records is whatever that argument says.
- PbMerge.RoundTrip: float scalars, proto2 groups and oneofs are not among the field kinds; sub-message payloads are opaque records.
- CacheModel.Cache.AddWithSize: list nodes and entries are values with node numbers instead of heap objects, keys have lawful equality, and capacities stay small enough that 97 * capacity does not overflow.
- CacheModel.Cache.Get: the lock is not modelled; each method is one step, and clock readings never go back.
- AsyncLog.InvAlways: closing the notification channel at shutdown is not modelled, and neither is fairness of the scheduler.
- Rotation.Run: no other process writes or deletes files, and the names of the active file's directory are plain map keys; directory creation is part of the open fault.
- Rotation.RunBounded: the split size does not change during a run; reloading the configuration is not modelled.
- Transport.Conn.Decode: the size comparisons after a complete read always hold and are left out; a read deadline ends the stream.
- CsCodec.SplitOfPacket: unmarshalling header and body and the message registry lookup are not modelled.
- ProtoLog.Marshal: floats arrive as strconv prints them, and the oneof lookup is not modelled; marshalList and marshalMap share one entry loop, and field and map order is the order given.
- Uid.IdsIncrease: instance ids stay below 2048 and the clock below 2^29 seconds after the base time, as the bit layout demands; the generator's lock is not modelled.
- RedisKey.BuildKey: bool, bytes, float and enum key fields, messages without key fields and the descriptor cache are not modelled.
- The mysql statement builder, the redis, mysql, Kafka, Pulsar and tRPC clients, configuration, plugin registries, handler maps, process handling and generated code: thin wrappers or simple map operations.
