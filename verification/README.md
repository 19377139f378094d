# BCB in Dafny

BCB is a lossless compressor for short binary messages. A prior, trained once, is shared by both
sides; every message is coded by a binary range coder whose 256-symbol table comes, byte by byte, from
the prior and the bytes coded so far. This project models the chain from end to end and proves it.

- **Range coder** (`RangeCoder`, `CeCompress`, `NoDivide`). `RangeCoder` is the exact theory: 32-bit interval,
  deferred bits, final flush, decoding, size. `CeCompress` holds the encoder and decoder objects with
  their registers, bit buffers and growing output array, proved to compute exactly that theory, wraps of 32-bit words
  included. A model is any function from the bytes so far to a legal table.
- **Context model** (`OpenAddressing`, `Occurrences`, `BtTables`, `BtTrain`, `BtSnapshot`, `ReaderProbe`, `Agreement`,
  `FixedCapacity`, `FixedLookup`). Training with two open-addressed tables, chains in a flat pool, growth (or refusal
  in builds of fixed capacity) and a Bloom filter, against substring counts of the training text; the validator of
  read-only tables and the reader's probe with its 32-bit index; hash functions are arbitrary throughout.
- **Distribution** (`Distribution`, `Reader`, `DistributionBounds`, `DistributionLaws`, `CountSafety`, `FixedPoint`,
  `FixedPointAccuracy`). The per-byte blend as a function with the wraps and conversions of the C arithmetic, the
  hoisted computation in scratch arrays of 64-bit words, what the blend makes of the counts, the exact condition on
  stored counts under which it is defined, and the integer square root, logarithm and lookup tables with their errors.
- **Codec** (`CodecModel`, `TableLaws`, `Codec`, `Landmarks`, `LutLifetime`). The three sources of tables, the record position
  machine, the delta transform and the distribution cache, as functions of a state and as one mutable object; the
  life of the shared lookup tables.
- **Container** (`Varint`, `Crc`, `CrcWords`, `Container`, `StreamLayout`, `BcbApi`). Header, checksum, payload, and the
  two calls on a handle.
- **Prior file** (`LittleEndian`, `ImageLayout`, `ImageStructs`, `PriorImage`, `ImagePlaces`, `LoadedPriors`,
  `UnusablePriors`, `Quantize`). Byte layout, writing, parsing, which accepted images can be used, stored widths.
- **Normalisers** (`Symdist`, `AuxBlend`, `AuxTotals`, `AuxChannel`, `NormaliseLaws`). In-place normalisation and the
  auxiliary channels; what the corrections change.
- **Ground** (`Words`, `Arith`, `Bitwise`, `BitXor`). Words and bits on mathematical integers, with every truncation written out.

`dafny verify dfyconfig.toml` checks the whole project.

What the proofs say about the code beyond its own documentation:

- An empty message with a checksum is returned before the checksum is compared
  (`src/v6_public/bcb_api.c:121`), so damage to its checksum field goes unnoticed, although
  `docs/api.md` promises detection for every message. `Container.ChecksumFieldDamaged` says exactly when it is noticed.
- `fuzz/fuzz_prior.c:9-13` asks that an accepted prior be safe to use. Parsing looks at neither the alignment of
  sections nor stored widths nor stored counts nor how far an index reaches, so that is not so:
  - A slot table at an odd offset is read as ints by the validator itself (`src/v3_integer_bt/btv3.c:551`).
  - A row that totals 16384 with a zero width gives the coder an empty interval.
  - A context total of 2^32 - 256 makes `total + 256` wrap to a zero divisor (line 391), a count of 2^31 / PRES at a
    total of 1 makes an index of -2^31 (line 430), and one of 2^14 overflows the 64-bit sum (line 437).
  - In a table of 2^33 slots the 32-bit index of `ctx_find_rd` (line 336) never reaches the upper half; if the only
    empty slots are there, looking up an unknown context never ends.

  `UnusablePriors` holds such an image for each, with either build signature. `LoadedPriors.AcceptedUsable`,
  `CodecModel.UsableExactly` and `CountSafety.SafeExactly` say exactly which accepted images are free of all of
  these: unaligned reads, tables that are undefined or that the coder may not have, and lookups without end.
- The lookup tables are shared, and closing any prior frees them (`src/v5_mmap_prior/bcb_prior.c:472`).
  `LutLifetime` says exactly when a codec of another prior finds them gone.
- The bound `2n + 64` wraps for n of 2^63 - 32 and more; `Container.BoundSuffices` is stated for all smaller n, and
  `Container.BoundWraps` shows the first n where it fails.
- The final flush of the coder writes the upper of its two codes also where the interval starts exactly at 2^30 and the
  lower one would do (`src/v0_baseline/ce_compress.c:149`); `RangeCoder.FinishChoice` has the exact condition.
- With a scale below 256 `symdist_normalize` returns a table of total 256; `Symdist.NormalisedStrict` has the exact condition.

## Model

| member | source | states |
|---|---|---|
| RangeCoder.ScaleGap | src/v0_baseline/ce_compress.c:105-120 | With totals up to 2^15 and a range above 2^30, different cumulative bounds scale to different code values, in order: no symbol interval is ever empty. |
| RangeCoder.NarrowValid | src/v0_baseline/ce_compress.c:104-123 | Narrowing to a symbol keeps low <= high and stays inside the interval it started from. |
| RangeCoder.Renorm | src/v0_baseline/ce_compress.c:54-69 | Rescaling terminates (the range doubles) and leaves a range above 2^30. |
| RangeCoder.FlushedVal | src/v0_baseline/ce_compress.c:46-52 | A bit and the pending complementary bits spell exactly the number that was deferred. |
| RangeCoder.AdvanceCode | src/v0_baseline/ce_compress.c:54-69 | All three rescaling cases keep the offset between the final bit string and the interval: the code value seen by the decoder moves as the ends do. |
| RangeCoder.RenormNests | src/v0_baseline/ce_compress.c:54-69 | If the final bits lie in the interval after rescaling they lay in it before. |
| RangeCoder.EncRunNests | src/v0_baseline/ce_compress.c:140-145 | The same over a whole run: the intervals of all symbols nest around the final bits. |
| RangeCoder.FinishInside | src/v0_baseline/ce_compress.c:147-150 | The two-bit final flush names values inside the last interval only, whatever bits follow it. |
| RangeCoder.FinishChoice | src/v0_baseline/ce_compress.c:147-150 | Which of the two codes the flush writes: the lower one if and only if every continuation of it lies above the lowest value of the interval; the upper one where the lower one would do happens for an interval starting exactly at 2^30, and only there. |
| RangeCoder.UpperThoughLowerServes | src/v0_baseline/ce_compress.c:147-150 | That one case is met: a table and a one-byte message whose last interval starts at 2^30, written 10 where 01 would decode as well. |
| RangeCoder.HoldsUnique | src/v0_baseline/ce_compress.c:213-219 | At most one symbol interval holds the code. |
| RangeCoder.HoldsExists | src/v0_baseline/ce_compress.c:213-219 | Some symbol interval holds the code, for any code inside the current interval. |
| RangeCoder.SymbolAt | src/v0_baseline/ce_compress.c:202-219 | The decoded symbol, characterised as the one whose interval holds the code. |
| RangeCoder.DecNarrowValid | src/v0_baseline/ce_compress.c:233-236 | After any decoded symbol low <= code <= high still holds, on any input at all. |
| RangeCoder.DecRenorm | src/v0_baseline/ce_compress.c:184-200 | Decoder rescaling terminates and leaves a range above 2^30. |
| RangeCoder.RenormInStep | src/v0_baseline/ce_compress.c:184-200 | Encoder and decoder rescale in step on the same bits. |
| RangeCoder.DecodeFollows | src/v0_baseline/ce_compress.c:251-259 | From equal states the decoder reproduces every remaining byte of the encoder run. |
| RangeCoder.DecodeInvertsEncode | src/v0_baseline/ce_compress.c:242-259 | For every message and every deterministic adaptive model with legal tables, decoding the bits, with any bits behind them, with the original length gives the message back. |
| RangeCoder.FirstByteShare | src/v0_baseline/ce_compress.c:104-121 | The first 32 bits of a coded message, as a fraction of 2^32, lie in the share that the first table gives the first byte, the bytes taking their shares in ascending order. |
| RangeCoder.RenormSize | src/v0_baseline/ce_compress.c:54-69 | Rescaling trades range for bits plus pending bits exactly. |
| RangeCoder.EncSymSize | src/v0_baseline/ce_compress.c:104-123 | One symbol costs at most 16 bits, counted as digits gained plus range lost. |
| RangeCoder.EncRunSize | src/v0_baseline/ce_compress.c:140-145 | The amortised argument over a whole run: 16 bits per symbol on top of the range at the start. |
| RangeCoder.SixteenBitsPerSymbol | src/v0_baseline/ce_compress.c:242-249 | Bits emitted plus pending never exceed 16 per symbol, and the flush adds two. |
| CeCompress.CecEncoder.EmitBit | src/v0_baseline/ce_compress.c:31-44 | Appends one bit to the emitted bits, across byte boundaries and buffer growth. |
| CeCompress.CecEncoder.Flush | src/v0_baseline/ce_compress.c:46-52 | Appends the bit and all pending complements and clears the counter. |
| CeCompress.CecEncoder.RenormEnc | src/v0_baseline/ce_compress.c:54-69 | The loop on 32-bit registers reaches exactly the exact rescaled state. |
| CeCompress.CecEncoder.NarrowTo | src/v0_baseline/ce_compress.c:104-121 | The 32-bit interval update, wraps included, equals the exact one. |
| CeCompress.CecEncoder.EncByte | src/v0_baseline/ce_compress.c:140-145 | Coding a byte advances the object to the exact next coder state. |
| CeCompress.CecEncoder.Finish | src/v0_baseline/ce_compress.c:147-156 | The returned bytes are the emitted bits and the flush of RangeCoder.FinishChoice, padded with fewer than eight zeros. |
| CeCompress.PacksUnique | src/v0_baseline/ce_compress.c:147-156 | A bit string has one packing, so the payload of a message is unique. |
| CeCompress.WordEnds | src/v0_baseline/ce_compress.c:116-120 | low + q - 1 computed in wrapping 32-bit words is right even when q is 2^32. |
| CeCompress.ScaledPair | src/v0_baseline/ce_compress.c:104-121 | The dividing and the division-free build scale both bounds to the same quotients. |
| CeCompress.CecDecoder.ReadBit | src/v0_baseline/ce_compress.c:159-169 | Yields the next bit of the input, and zeros past its end. |
| CeCompress.CecDecoder.constructor | src/v0_baseline/ce_compress.c:171-180 | The code register starts as the first 32 bits of the zero-extended input. |
| CeCompress.CecDecoder.RenormDec | src/v0_baseline/ce_compress.c:184-200 | The loop on 32-bit registers reaches exactly the exact rescaled state. |
| CeCompress.CecDecoder.Target | src/v0_baseline/ce_compress.c:207-212 | The target as the 64-bit and 32-bit arithmetic computes it, wrap of code - low + 1 to 0 included. |
| CeCompress.Search | src/v0_baseline/ce_compress.c:213-219 | The binary search returns the symbol the target falls on, the last one for targets past the end. |
| CeCompress.TargetFinds | src/v0_baseline/ce_compress.c:205-219 | The wrapped target and the search pick the one symbol whose interval holds the code. |
| CeCompress.WrappedTarget | src/v0_baseline/ce_compress.c:211-211 | With the full range and code at its top the target is 2^32 - 1. |
| CeCompress.CecDecoder.DecByte | src/v0_baseline/ce_compress.c:202-239 | On any input the object yields the symbol of exact decoding and keeps low <= code <= high. |
| CeCompress.Compress | src/v0_baseline/ce_compress.c:242-249 | The output is the packing of the exact encoder's bits for the model that the callbacks define. |
| CeCompress.Decompress | src/v0_baseline/ce_compress.c:251-259 | The output is the exact decoding of the input, valid or not. |
| CeCompress.RoundTrip | src/v0_baseline/ce_compress.c:242-259 | Bytes produced for a message, with any bytes behind them, decode to the message. |
| CeCompress.BitPlace | src/v0_baseline/ce_compress.c:31-44 | Bit 8i + j of a byte string is bit 7 - j of byte i. |
| CeCompress.PayloadSize | src/v6_public/bcb_api.c:53-56 | The payload of n bytes is at most 2n + 1 bytes long. |
| NoDivide.DivQ64 | src/v0_baseline/ce_compress.c:88-97 | The shift-subtract loop returns num / den for all 64-bit operands; no bit is lost in the shift. |
| NoDivide.Log2Pow2 | src/v0_baseline/ce_compress.c:99-101 | The shift count of a power of two. |
| NoDivide.Quotient | src/v0_baseline/ce_compress.c:106-115 | Shift path and loop path both give the quotient of the dividing build. |
| Bitwise.MaskIsRemainder | src/v3_integer_bt/btv3.c:140-149 | Masking with a power of two minus one takes the remainder (all table and record masks). |
| Bitwise.SingleBit | src/v3_integer_bt/btv3.c:545-545 | n & (n - 1) is zero exactly for powers of two. |
| OpenAddressing.Seek | src/v3_integer_bt/btv3.c:140-149 | Linear probing stops at the key or at the first empty slot. |
| OpenAddressing.SeekIsFirst | src/v3_integer_bt/btv3.c:334-344 | In an indexed table probing finds the first position of the key, and -1 exactly when the key is absent. |
| OpenAddressing.InsertIndexed | src/v3_integer_bt/btv3.c:155-161 | Writing a key into the slot where its probe ended keeps the table searchable for every key. |
| OpenAddressing.EmptyExists | src/v3_integer_bt/btv3.c:563-563 | A table with more slots than keys has an empty slot, so probing ends. |
| OpenAddressing.Rehash | src/v3_integer_bt/btv3.c:114-120 | Reinserting all keys into a table of any larger size indexes all of them, whatever the hash function. |
| Occurrences.CountsAddUp | src/v3_integer_bt/btv3.c:395-399 | The counts of the 256 next bytes of a context add up to its total. |
| Occurrences.UpdatesCountSubstrings | src/v3_integer_bt/btv3.c:296-302 | The observations made while training on a text count, for every context of 1 to 24 bytes, how often each byte followed it in the text. |
| BtTables.KnownPair | src/v3_integer_bt/btv3.c:204-212 | Counting a known pair keeps every entry exact and every chain in place. |
| BtTables.NewPairKnownContext | src/v3_integer_bt/btv3.c:197-215 | A new pair is linked in front of its context's chain and everything stays exact. |
| BtTables.NewContext | src/v3_integer_bt/btv3.c:155-161 | A new context gets an entry whose chain is its one pair. |
| BtTables.ChainExact | src/v3_integer_bt/btv3.c:395-399 | Every chain is acyclic and lists exactly the pool entries of its context. |
| BtTables.ChainCounts | src/v3_integer_bt/btv3.c:395-399 | Walking a context's chain meets each of its bytes with its exact count. |
| BtTables.ChainsDisjoint | src/v3_integer_bt/btv3.c:568-582 | No pool entry lies on the chains of two contexts. |
| BtTrain.BtV3.BtGrow | src/v3_integer_bt/btv3.c:108-122 | Growth keeps entries, counts and lookups of the pair table; a build of fixed capacity refuses and changes nothing. |
| BtTrain.BtV3.CtxGrow | src/v3_integer_bt/btv3.c:123-137 | Growth keeps entries, totals and lookups of the context table; a build of fixed capacity refuses and changes nothing. |
| BtTrain.BtV3.GetContext | src/v3_integer_bt/btv3.c:150-168 | Finds the context or adds it, growing first if the pool is full; there is no entry exactly when the context is new and a pool of fixed capacity is full. |
| BtTrain.BtV3.Update | src/v3_integer_bt/btv3.c:184-217 | One update extends the count tables by one observation in all cases: known pair, new pair, new context, growth, and in builds of fixed capacity a refused pair or a refused context; a pair once refused stays absent. |
| BtTrain.UpdateKeeps | src/v3_integer_bt/btv3.c:184-217 | Without refusals, the three cases of an update keep the training invariant. |
| BtTrain.UpdateHolds | src/v3_integer_bt/btv3.c:184-217 | In a build of either kind a stored pair keeps its invariant: exact tables where pools grow, tables that miss only what was refused where they do not. |
| FixedCapacity.PairRefused | src/v3_integer_bt/btv3.c:196-196 | A full pool that refuses a new pair leaves every stored count exact. |
| FixedCapacity.PairCounted | src/v3_integer_bt/btv3.c:204-214 | Counting a stored pair keeps its count exact and its context's total the sum of its chain, also when the context itself was refused. |
| FixedCapacity.PairLinked | src/v3_integer_bt/btv3.c:197-216 | A new pair of a known context heads its chain, and totals stay sums. |
| FixedCapacity.PairOpens | src/v3_integer_bt/btv3.c:155-161 | A new pair of a new context opens a chain of one, or stays off every chain when the context pool is full. |
| FixedLookup.FixedCounts | src/v3_integer_bt/btv3.c:334-344 | After any training with refusals, a lookup finds for every byte its exact count or none, and the total of a known context is the sum over the bytes found. |
| FixedLookup.FixedIsAcceptable | src/v3_integer_bt/btv3.c:534-584 | The validator accepts the tables of a build of fixed capacity, whatever was refused. |
| FixedLookup.FixedDefined | src/v3_integer_bt/btv3.c:375-444 | Distributions over such tables divide by no zero, stay inside their tables and overflow nothing. |
| BtTrain.BtV3.Train | src/v3_integer_bt/btv3.c:296-302 | A byte adds one observation for every suffix of the window, none when frozen, and the window slides. |
| BtTrain.BtV3.TrainCorpus | src/v3_integer_bt/btv3.c:296-302 | After a corpus the tables hold its observations, all of them where pools grow. |
| BtTrain.BloomStep | src/v3_integer_bt/btv3.c:170-175 | Setting the two bits of one more context keeps the filter exact: a bit is set if and only if an observed context sets it. |
| BtSnapshot.PathNoRepeat | src/v3_integer_bt/btv3.c:568-582 | A chain that ends never meets an entry twice. |
| BtSnapshot.WalkChain | src/v3_integer_bt/btv3.c:573-580 | The marking walk ends on any tables at all, and succeeds exactly when the chain ends, stays in range and meets no marked entry. |
| BtSnapshot.Validate | src/v3_integer_bt/btv3.c:534-584 | The validator terminates on any input and accepts exactly the snapshots of the same build whose slots, fields and chains are in order, unless it has to read a table that is not aligned; when that happens is stated exactly too. |
| BtSnapshot.AcceptableIsReadable | src/v3_integer_bt/btv3.c:534-584 | In an accepted snapshot every chain walk ends and every index is in range; whether lookups end is another matter. |
| BtSnapshot.FindContext | src/v3_integer_bt/btv3.c:334-344 | Where the lookup of a context ends, the Bloom filter and the probe with its 32-bit index give the entry that the slots within reach define. |
| ReaderProbe.ProbeAtIs | src/v3_integer_bt/btv3.c:334-344 | The 32-bit index masked to a power-of-two table runs round the first min(nslots, 2^32) slots, whatever the mask is wide. |
| ReaderProbe.EndsExactly | src/v3_integer_bt/btv3.c:334-344 | The probe for a key ends if and only if one of these slots is empty or holds the key. |
| ReaderProbe.SeekWord | src/v3_integer_bt/btv3.c:334-344 | Where it ends, the loop in 32-bit words finds what a full probe of the reachable slots finds. |
| BtSnapshot.LookupCounts | src/v3_integer_bt/btv3.c:384-399 | After training, looking up any context gives exactly its total and its byte counts, Bloom filter and growth notwithstanding. |
| BtSnapshot.LookupCountsSubstrings | src/v3_integer_bt/btv3.c:296-302 | For a training text and any context of 1 to 24 bytes the counts found are the substring counts of the text. |
| BtSnapshot.TrainAndExport | src/v3_integer_bt/btv3.c:296-302 | From corpus to reader in one: after training and export the lookup of any context of 1 to 24 bytes ends and finds its substring counts in the corpus and their sum, as long as its entries can be numbered by an int; a Bloom bit is set if and only if an observed context sets it. |
| BtSnapshot.TrainedIsAcceptable | src/v3_integer_bt/btv3.c:534-584 | The validator accepts every trained snapshot; the half-empty slot table is what its empty-slot check needs. |
| Agreement.TrainedTablesAgree | src/v3_integer_bt/btv3.c:108-137 | Any two models trained on the same observations, with any hash functions, capacities and numbers of rehashes, give the same table for every window, both of them computed without a fault as long as no counter came within 256 of its end. |
| Reader.BtV3Reader.CollectFreqs | src/v3_integer_bt/btv3.c:394-399 | One chain walk yields the context's byte counts and lists each newly observed byte once. |
| Reader.BtV3Reader.CollectLevel | src/v3_integer_bt/btv3.c:377-400 | Collects exactly the known contexts of a level, longest first, and the union of their observed bytes. |
| Reader.BtV3Reader.ApplyLevel | src/v3_integer_bt/btv3.c:402-444 | Adding the default to all 256 bytes and swapping it out for observed ones gives every byte the share of its own evidence; every sum and product on the way is a signed 64-bit word. |
| Reader.CollectedEvidence | src/v3_integer_bt/btv3.c:405-435 | For unobserved bytes the hoisted evidence is the byte's own evidence. |
| Reader.BtV3Reader.Distribution | src/v3_integer_bt/btv3.c:355-464 | On every window and table set on which the C arithmetic is defined, the fast computation in 64-bit words returns the table of the simple form that blends every byte separately, whose laws are those of DistributionLaws; the 32-bit wrap of total + 256 and the conversion of the index to int are part of both. |
| Reader.TableOf | src/v3_integer_bt/btv3.c:453-463 | Quantisation and running totals of 256 probabilities, in 64-bit and 32-bit words. |
| DistributionBounds.DistributionLegal | src/v3_integer_bt/btv3.c:453-463 | Every table starts at 0, has widths of at least 3 and a total of at most 16332 at scale 16384. |
| DistributionBounds.DenominatorPositive | src/v3_integer_bt/btv3.c:411-415 | With at least one active context the weight sum is positive: the heaviest one weighs 2^28. |
| DistributionBounds.BlendPositive | src/v3_integer_bt/btv3.c:446-447 | A byte with an active context in any level has a positive weight total. |
| DistributionBounds.BlendBound | src/v3_integer_bt/btv3.c:437-443 | Wherever the sums over the contexts fit 64 bits, the blended sums of all levels stay below 2^46. |
| DistributionBounds.ModestDefined | src/v3_integer_bt/btv3.c:384-444 | If no total is 2^32 - 256 and no byte is counted 16 times as often as its context, every division, index and 64-bit sum of the distribution is defined. |
| DistributionBounds.TrainedDefined | src/v3_integer_bt/btv3.c:384-444 | In trained tables no byte count exceeds its context total, so every distribution is defined while totals stay below 2^32 - 256. |
| DistributionBounds.SumsFitInt64 | src/v3_integer_bt/btv3.c:436-443 | Wherever the sums over the contexts fit 64 bits, so do the sums over the levels with a default share added and not yet swapped out. |
| DistributionBounds.ProductsFitInt64 | src/v3_integer_bt/btv3.c:428-459 | The products of 32-bit counts and of the width formula fit a signed 64-bit word. |
| DistributionLaws.OneContext | src/v3_integer_bt/btv3.c:384-451 | With one active context, seen t times, a byte that followed it f > 0 times gets probability f * 2^28 / t and an unseen one 2^28 / (t + 256), the sum in 32 bits, cut off at 1 and 2^28. |
| DistributionLaws.BetweenContexts | src/v3_integer_bt/btv3.c:375-451 | With any active contexts, the probability of every byte lies between the least and the greatest that they give it alone, cut off at 1 and 2^28; no rounding leads outside. |
| DistributionLaws.TwoLevels | src/v3_integer_bt/btv3.c:375-451 | Two active contexts of different levels are averaged with the weights of their levels, 230, 333, 384, 435, 384 and 282 for contexts of 1-2, 3-4, 5-8, 9-12, 13-16 and 17-24 bytes. |
| DistributionLaws.TwoInLevel | src/v3_integer_bt/btv3.c:377-444 | Two active contexts of one level are averaged with weights by their logarithms (length term plus confidence term): 2^28 for the larger, and for the other a table entry shifted right by the whole part of the difference, 0 from 40 on. |
| DistributionLaws.NoContext | src/v3_integer_bt/btv3.c:375-463 | Without an active context every byte has probability 2^20 and width 63. |
| DistributionLaws.WidthShare | src/v3_integer_bt/btv3.c:453-462 | At scale 16384 a byte's width is 3 and its share, by probability, of 95 percent of the scale, rounded down. |
| DistributionLaws.MoreCountsWider | src/v3_integer_bt/btv3.c:384-463 | After the one active context, seen fewer than 2^32 - 256 times, a byte that followed it at least as often as another is at least as wide in the final table. |
| CountSafety.EntryAsWindow | src/v3_integer_bt/btv3.c:375-436 | An entry whose counts are not safe makes the distribution undefined in the window that is its own context. |
| CountSafety.ProbesEndExactly | src/v3_integer_bt/btv3.c:334-344 | All lookups that windows ask for end if and only if a slot within reach is empty, or every asked context that passes the Bloom filter has its entry within reach. |
| CountSafety.MissingEnds | src/v3_integer_bt/btv3.c:334-344 | For a context that the tables do not know and the Bloom filter lets pass, the lookup ends if and only if a slot below min(nslots, 2^32) is empty. |
| CountSafety.WindowSafe | src/v3_integer_bt/btv3.c:375-436 | If every lookup that can be asked ends and every entry that can be met is safe, the distribution of every window is defined: a level of a window is as safe as its longest known context. |
| CountSafety.SafeExactly | src/v3_integer_bt/btv3.c:375-436 | For any tables whose chains end: every lookup ends and every division, index and 64-bit sum is defined in every window if and only if ProbesEnd holds and, for every context entry a lookup can find, total + 256 does not wrap to 0, no count gives a negative index, and its weighted probabilities with those of the shorter contexts of its level stay below 2^63. |
| CountSafety.RatioBelow128 | src/v3_integer_bt/btv3.c:428-436 | In tables on which every distribution is defined no byte is counted 128 times as often as its context or more, short of counts whose index wraps: with ModestDefined the limit on the ratio lies between 16 and 128. |
| FixedPoint.Isqrt64 | src/v3_integer_bt/btv3.c:220-225 | The exact floor square root of every 64-bit number. |
| FixedPoint.Log2Loop | src/v3_integer_bt/btv3.c:227-238 | The squaring loop yields the digits of the specification logarithm, which Log2Below and FixedPointAccuracy.Log2Above bound on both sides. |
| FixedPoint.Log2Mono | src/v3_integer_bt/btv3.c:227-238 | The integer logarithm is monotone from 2^16 on. |
| FixedPoint.Log2Below | src/v3_integer_bt/btv3.c:227-238 | It never exceeds the true base-2 logarithm: 2^res * 2^(16 * 65536) <= x^65536. |
| FixedPointAccuracy.Log2Above | src/v3_integer_bt/btv3.c:227-238 | It is less than five units of its last place below the true logarithm: x^65536 < 2^(res + 5) * 2^(16 * 65536). |
| FixedPoint.BuildConf | src/v3_integer_bt/btv3.c:248-252 | Entry i is 20 times the specification logarithm of the confidence at i; entries are below 160 * 2^16 and never decrease. |
| FixedPointAccuracy.ConfAccurate | src/v3_integer_bt/btv3.c:248-252 | Every entry of such a table is 20 times a logarithm within five units of the true one of (i + 1/2) / PRES * 256, at least 1, in Q16. |
| FixedPoint.BuildTwoPow | src/v3_integer_bt/btv3.c:255-257 | Each entry is the exact integer root of its predecessor, starting from 2, and all lie between 1 and 2. |
| FixedPoint.BuildExp2 | src/v3_integer_bt/btv3.c:258-264 | Entry f is 2^28 divided by the product of the roots for the set bits of f, so entry 0 is 2^28 and none is larger. |
| FixedPoint.FracPowerBelow | src/v3_integer_bt/btv3.c:260-262 | That product never exceeds the true fractional power of two: its 65536th power is at most 2^frac times the unit's. |
| FixedPointAccuracy.RootAbove | src/v3_integer_bt/btv3.c:255-257 | The roots are not far below either: 2 * U^3n <= t^n * (U + 1)^2n for the k-th root t, n = 2^k and U = 2^16. |
| FixedPointAccuracy.FracPowerWithin | src/v3_integer_bt/btv3.c:260-262 | Nor is the product: its 65536th power times 3^48 is at least 2^frac times the unit's, a shortfall of less than one part in 1200. |
| FixedPointAccuracy.ExpAccurate | src/v3_integer_bt/btv3.c:258-264 | Entry f of n is 2^28 divided by such a power for the fraction f / n in 16 digits. |
| FixedPoint.BuildLuts | src/v3_integer_bt/btv3.c:239-265 | The built tables satisfy what the distribution bounds assume of them, and are those of ConfAccurate and ExpAccurate. |
| Landmarks.BuildIndex | src/v5_mmap_prior/bcb_prior.c:308-320 | The index of any 32-bit number of contexts, duplicates allowed, is at most half full and searchable for those whose number is a nonnegative int. |
| Landmarks.Lookup | src/v5_mmap_prior/bcb_prior.c:322-331 | Lookup ends and returns the smallest index with that context, -1 exactly when none matches, among the first 2^31. |
| CodecModel.DistLegal | src/v5_mmap_prior/bcb_prior.c:646-714 | In every mode and state of a prior whose rows and counts serve, the coder receives a legal table. |
| CodecModel.TableForLegal | src/v5_mmap_prior/bcb_prior.c:649-687 | The table of a schema row, fallback included, is legal exactly when the row does not both total 16384 and hold a zero width. |
| CodecModel.RotatedServes | src/v5_mmap_prior/bcb_prior.c:680-687 | Rotation does not change whether a row can be handed out. |
| CodecModel.UsableExactly | src/v5_mmap_prior/bcb_prior.c:646-740 | In every state that any message leads to, in either format, the next table is defined and legal if and only if no row that can be handed out (each schema row; each landmark row that is first for its context) totals 16384 with a zero width, every lookup that can be asked ends and every context entry that can be asked (none in structural mode, none behind a serving landmark) has safe counts. |
| CodecModel.TransformRoundTrip | src/v5_mmap_prior/bcb_prior.c:716-726 | Over any message, mode vector and record size the symbols rebuild the bytes. |
| CodecModel.RecordTracking | src/v5_mmap_prior/bcb_prior.c:716-740 | At every point the previous-record buffer is the last complete record and the current one holds the bytes since, partial last record included. |
| CodecModel.DeltaKeepsWidth | src/v5_mmap_prior/bcb_prior.c:658-687 | A delta symbol is exactly as wide as its byte in the rotated table. |
| TableLaws.LandmarkWidths | src/v5_mmap_prior/bcb_prior.c:689-697 | Wherever the window ends with a landmark context (the first of its kind) whose row totals 16384, every byte gets its own width of that row. |
| TableLaws.WithoutLandmark | src/v5_mmap_prior/bcb_prior.c:689-714 | In every other window the table is the context model's. |
| TableLaws.RecordWidths | src/v5_mmap_prior/bcb_prior.c:649-687 | In a record every byte gets its width of the row of the position, in the rotated format at a delta position the width of its difference from the byte one record ago, and 64 where the row does not total 16384. |
| CodecModel.RotatedTotal | src/v5_mmap_prior/bcb_prior.c:680-684 | Rotating widths keeps their total, so both formats take the same fallback. |
| CodecModel.WithoutDelta | src/v5_mmap_prior/bcb_prior.c:838-844 | In the legacy format symbols are the bytes themselves. |
| CodecModel.SymbolChosen | src/v6_public/bcb_api.c:70-71 | Each symbol of a message is chosen in the state its predecessors lead to. |
| Codec.BcbCodec.Make | src/v5_mmap_prior/bcb_prior.c:742-771 | A new codec is valid and at the start of a message. |
| Codec.BcbCodec.Begin | src/v5_mmap_prior/bcb_prior.c:773-792 | The state is the message start whatever came before; in the strict build no cache slot matches afterwards, across the wrap of the generation counter. |
| Codec.BcbCodec.SetSdelta | src/v5_mmap_prior/bcb_prior.c:814-820 | Switches the format for structural priors only; precomputed tables equal those computed on the spot. |
| Codec.BcbCodec.Dist | src/v5_mmap_prior/bcb_prior.c:646-714 | With or without cache and precomputation, and after any history, the returned table is the one the state defines. |
| Codec.BcbCodec.CachedTable | src/v5_mmap_prior/bcb_prior.c:692-713 | A hit and a miss return the same table for any hash function and any collisions. |
| Codec.BcbCodec.StructuralTable | src/v5_mmap_prior/bcb_prior.c:649-687 | Delta, rotated and plain structural tables, with the uniform fallback. |
| Codec.BcbCodec.WindowTable | src/v5_mmap_prior/bcb_prior.c:689-714 | The table of the state: landmark widths, byte for byte, when they total the scale (TableLaws.LandmarkWidths), the context model otherwise. |
| Codec.BcbCodec.Train | src/v5_mmap_prior/bcb_prior.c:716-740 | Moves to the next state and leaves the decoded byte behind. |
| Codec.BcbCodec.Advance | src/v5_mmap_prior/bcb_prior.c:728-738 | Mask advance and compare-and-reset move the position alike and save the record at the same time. |
| Codec.MaskAdvance | src/v5_mmap_prior/bcb_prior.c:728-731 | For a record size with one bit set the masked successor is the successor or 0. |
| Codec.BcbCodec.EncXform | src/v5_mmap_prior/bcb_prior.c:838-844 | The symbol that the current state assigns to a byte. |
| Codec.PrecomputeTables | src/v5_mmap_prior/bcb_prior.c:626-643 | Every precomputed row is the table of its position. |
| Crc.Crc32Loop | src/v6_public/bcb_api.c:28-35 | The nested loops compute the specified checksum, which CrcWords.Residue, StartIsOnes and CheckValue tie to the standard one. |
| Crc.StepsInjective | src/v6_public/bcb_api.c:32-32 | The bit step is invertible. |
| Crc.StepsLinear | src/v6_public/bcb_api.c:32-32 | The bit step is linear over exclusive or. |
| Crc.BitBurstDetected | src/v6_public/bcb_api.c:28-35 | Two messages of equal length, of any size, that differ only within 32 consecutive bits, at any bit offset, have different checksums. |
| Crc.BurstDetected | src/v6_public/bcb_api.c:28-35 | In particular two that differ only within four consecutive bytes. |
| CrcWords.Residue | src/v6_public/bcb_api.c:28-35 | Every message followed by its own checksum, lowest byte first, leaves the register at 0xDEBB20E3. |
| CrcWords.StartIsOnes | src/v6_public/bcb_api.c:29-29 | Four bytes 0xFF in front of a message cancel the ones the register starts with. |
| CrcWords.CheckValue | src/v6_public/bcb_api.c:28-35 | The checksum of "123456789" is the published 0xCBF43926. |
| CrcWords.BitStepWord | src/v6_public/bcb_api.c:32-32 | The bit step on 32-bit machine words, by shift, mask and exclusive or, is the step in numbers. |
| Varint.Put | src/v6_public/bcb_api.c:37-41 | Writes the seven-bit groups of the number, low group first. |
| Varint.FieldOf | src/v6_public/bcb_api.c:37-41 | The field of a 64-bit number takes at most ten bytes, the last one unmarked. |
| Varint.Get | src/v6_public/bcb_api.c:42-51 | On any bytes: finds the field within ten bytes or reports none, and its value modulo 2^64. |
| Varint.ReadBack | src/v6_public/bcb_api.c:37-51 | A written number is read back, whatever bytes follow. |
| Container.ParseOfAssembled | src/v6_public/bcb_api.c:98-119 | Header fields in any combination of flags are read back; a foreign id is refused. |
| Container.RoundTrip | src/v6_public/bcb_api.c:59-145 | A stream decompresses to its message with enough capacity and to a refusal with less, for every flag, mode and symbol format. |
| Container.LegacyRoundTrip | src/v6_public/bcb_api.c:123-126 | Structural streams in the rotated format still decompress. |
| Container.StreamUnique | src/v6_public/bcb_api.c:59-95 | A message has exactly one stream under given flags, so warm and cold handles and all builds write the same bytes. |
| Container.WrongPrior | src/v6_public/bcb_api.c:113-118 | A stream with an id is refused as a mismatch exactly when the reading prior has another id. |
| Container.ChecksumFieldDamaged | src/v6_public/bcb_api.c:120-141 | A damaged checksum field is noticed if and only if the message is not empty. |
| Container.BurstRefused | src/v6_public/bcb_api.c:141-141 | A payload that unpacks to the message altered within 32 consecutive bits, at any offset, is refused by the checksum. |
| Container.HeaderFits | src/v6_public/bcb_api.c:77-89 | The header never exceeds 31 of its 32 bytes. |
| StreamLayout.HeaderLaidOut | src/v6_public/bcb_api.c:77-89 | Every byte of a header: flags 1, 2 and 4; the length in seven-bit groups, lowest first, all but the last marked, and no more of them than it needs; the checksum, lowest byte first; the 16 bytes of the id. |
| StreamLayout.CutShort | src/v6_public/bcb_api.c:100-118 | A header cut short anywhere is refused as corrupted, whichever prior reads it. |
| StreamLayout.SpareBits | src/v6_public/bcb_api.c:101-106 | The five bits of the tag above the flags are not looked at. |
| Container.BoundSuffices | src/v6_public/bcb_api.c:53-56 | Header plus payload is at most 2n + 32 bytes, within the advertised bound, as long as the bound itself fits 64 bits. |
| Container.BoundWraps | src/v6_public/bcb_api.c:53-56 | At 2^63 - 32 bytes the bound wraps to 0, which no stream fits. |
| BcbApi.EncodeByte | src/v6_public/bcb_api.c:70-71 | One byte moves codec and coder to their exact next states. |
| BcbApi.EncodeAll | src/v6_public/bcb_api.c:65-75 | The payload is that of the symbols of the message under the codec as a model. |
| BcbApi.WriteHeader | src/v6_public/bcb_api.c:77-89 | Tag, length, checksum and id in order. |
| BcbApi.CompressCore | src/v6_public/bcb_api.c:59-95 | On a handle with any past: the one stream of the message, or a refusal because that stream exceeds the capacity. |
| BcbApi.ReadHeader | src/v6_public/bcb_api.c:97-119 | The offset arithmetic reads any bytes as the field-by-field specification does, truncated ones included. |
| BcbApi.DecodeAll | src/v6_public/bcb_api.c:127-140 | The bytes that the payload stands for, through the codec, for both formats. |
| BcbApi.DecompressCore | src/v6_public/bcb_api.c:97-145 | On any byte string and a handle with any past: an outcome that depends on prior, input and capacity only. |
| BcbApi.EndToEnd | src/v6_public/bcb_api.c:59-145 | With an output buffer of the bound, compression succeeds and any handle on the prior gets exactly the message back. |
| Symdist.ReducedTotal | src/v1_symmetric_dist/symdist.c:36-49 | Largest-first reduction takes out the whole excess unless every bin is down to 1. |
| Symdist.NormalisedStrict | src/v1_symmetric_dist/symdist.c:9-57 | Any monotone table becomes one that starts at 0 and strictly increases; its total is the scale if and only if the scale is at least 256. |
| Symdist.NormalisedFixed | src/v1_symmetric_dist/symdist.c:9-57 | A table that is already in order is left unchanged. |
| Symdist.RequantisedFits | src/v1_symmetric_dist/symdist.c:20-27 | The products fit 64 bits and the requantised widths overshoot the scale by at most 256. |
| Symdist.Reduce | src/v1_symmetric_dist/symdist.c:36-49 | The reduction loop ends and computes the specified widths in place. |
| Symdist.Normalize | src/v1_symmetric_dist/symdist.c:9-57 | The in-place procedure computes the specified table. |
| NormaliseLaws.ReducedFromWidest | src/v1_symmetric_dist/symdist.c:36-49 | Reduction never widens a bin, and where it cuts one, every wider bin (and every equal one before it) is down to 1. |
| NormaliseLaws.NormalisedIs | src/v1_symmetric_dist/symdist.c:9-57 | The whole result: widths within one unit of their proportion, at least 1, and then either only the first of the widest grows or only the widest are cut. |
| AuxBlend.BlendedStrict | src/v4_aux_channel/aux_channel.c:17-30 | Blending any prior widths into a nonempty table gives a strict table of total exactly the scale. |
| AuxBlend.FullWeight | src/v4_aux_channel/aux_channel.c:17-30 | A weight of 65536 leaves a normalised table as it is. |
| NormaliseLaws.NoWeight | src/v4_aux_channel/aux_channel.c:17-30 | A weight of 0 leaves only the channel: its prior widths, normalised. |
| NormaliseLaws.BlendWidthIs | src/v4_aux_channel/aux_channel.c:22-26 | A blended width is the weighted mean of the table's share and the prior width, up to two roundings down. |
| NormaliseLaws.MorePrior | src/v4_aux_channel/aux_channel.c:22-26 | A wider prior never narrows a bin before normalising. |
| AuxBlend.ChainLegal | src/v4_aux_channel/aux_channel.c:299-324 | Any chain of channels hands the coder a legal table of total exactly the scale. |
| AuxBlend.PriorWidthBound | src/v4_aux_channel/aux_channel.c:79-93 | A channel's prior widths, from the counts of any corpus, never exceed the scale. |
| AuxTotals.PriorWithinScale | src/v4_aux_channel/aux_channel.c:79-93 | Whatever the corpus and the context, the prior widths of all 256 bytes together stay within the scale. |
| AuxTotals.PriorIsShare | src/v4_aux_channel/aux_channel.c:79-93 | A prior width is, up to two roundings down, the scale times how often the class followed the context times how often the byte was the one of its class. |
| AuxChannel.Channel.Learn | src/v4_aux_channel/aux_channel.c:60-72 | Counts are exactly the transition and class counts of the corpus, for all four kinds, and the position is its end. |
| AuxChannel.Channel.Observe | src/v4_aux_channel/aux_channel.c:74-77 | A byte moves the position only, as the history does. |
| AuxChannel.Channel.Reset | src/v4_aux_channel/aux_channel.c:54-58 | Counts and position are those of the empty corpus. |
| AuxChannel.Channel.Adjust | src/v4_aux_channel/aux_channel.c:79-93 | Blends the prior of the current context, a function of kind, weight, corpus and history. |
| AuxChannel.BlendInto | src/v4_aux_channel/aux_channel.c:17-30 | The in-place blend computes the specified table. |
| AuxChannel.AdjustAll | src/v4_aux_channel/aux_channel.c:299-302 | Each channel adjusts what the ones before it left. |
| AuxChannel.ObserveAll | src/v4_aux_channel/aux_channel.c:295-298 | Every channel sees the byte once. |
| AuxChannel.AuxDist | src/v4_aux_channel/aux_channel.c:319-324 | The table handed to the coder is legal and totals the scale. |
| Quantize.TrimmedTotal | src/v5_mmap_prior/bcb_prior.c:258-262 | Trimming takes out the excess unless every bin is down to 1. |
| Quantize.QuantizedTotal | src/v5_mmap_prior/bcb_prior.c:242-263 | Whatever the rounded targets, the widths are positive and total the scale exactly when the scale is at least 256; at 16384 they are used without fallback. |
| Quantize.LmQuantize | src/v5_mmap_prior/bcb_prior.c:242-263 | The correction loops compute the specified widths in place. |
| NormaliseLaws.TrimmedTogether | src/v5_mmap_prior/bcb_prior.c:258-262 | Trimming lowers the widest together: no bin ends more than one unit above a lowered one, and none above it that stands before it. |
| NormaliseLaws.QuantizedIs | src/v5_mmap_prior/bcb_prior.c:242-263 | The whole result: targets cut off at 1 and the scale, and then only the most probable byte gains or the widest are lowered together. |
| ImageLayout.SectionFound | src/v5_mmap_prior/bcb_prior.c:202-227 | Every section stands at its offset in the file. |
| ImageLayout.SectionsApart | src/v5_mmap_prior/bcb_prior.c:202-212 | Sections are ordered and do not overlap. |
| ImageLayout.LengthIsFileSize | src/v5_mmap_prior/bcb_prior.c:211-212 | The bytes written equal the declared file size although no padding follows the last section. |
| ImageLayout.PadTo | src/v5_mmap_prior/bcb_prior.c:160-171 | Pads with zeros exactly up to the target. |
| ImageLayout.RegionExact | src/v5_mmap_prior/bcb_prior.c:336-346 | The overflow-safe checks accept exactly the regions that fit in exact arithmetic. |
| ImageStructs.BtBack | src/v3_integer_bt/btv3.c:76-76 | A pool entry is read back from its 36 bytes. |
| ImageStructs.CtxBack | src/v3_integer_bt/btv3.c:77-77 | A context entry is read back from its 40 bytes. |
| ImagePlaces.SavedPair | src/v5_mmap_prior/bcb_prior.c:202-227 | In a saved image pool entry i stands 36 * i bytes behind the second offset: 24 bytes of context, length, next byte, two zeros, frequency, link. |
| ImagePlaces.SavedContext | src/v5_mmap_prior/bcb_prior.c:202-227 | Context entry i stands 40 * i bytes behind the third offset: context, length, three zeros, total, number of next bytes, first link. |
| ImagePlaces.SavedLandmark | src/v5_mmap_prior/bcb_prior.c:202-227 | Landmark contexts stand one after the other, their rows as 256 16-bit widths each. |
| ImagePlaces.SavedPlace | src/v5_mmap_prior/bcb_prior.c:202-227 | A mode byte and a row of 256 16-bit widths for every place of the record. |
| PriorImage.HeaderBack | src/v5_mmap_prior/bcb_prior.c:36-53 | The 168-byte header is read back. |
| ImagePlaces.SavedNumbers | src/v5_mmap_prior/bcb_prior.c:36-53 | What the header of a saved image says and where: "BCBP", version 3, the counts, the nine offsets, the length of the file. |
| ImagePlaces.HeaderRead | src/v5_mmap_prior/bcb_prior.c:36-53 | On any bytes each header field is read as the little-endian number at its own place. |
| PriorImage.Save | src/v5_mmap_prior/bcb_prior.c:173-232 | The image is header and sections at their offsets, and its length is the declared size. |
| PriorImage.PriorParse | src/v5_mmap_prior/bcb_prior.c:348-411 | On any bytes: parsing reads an unaligned table exactly when ParseMisreads says so, and otherwise accepts exactly the images whose header, regions, signature and tables are in order, and returns what they hold. |
| ImagePlaces.AcceptedExactly | src/v5_mmap_prior/bcb_prior.c:348-398 | Acceptance in terms of the bytes: the numbers of the header and the regions they declare are in order, and the tables can be walked. |
| PriorImage.SavedParses | src/v5_mmap_prior/bcb_prior.c:173-411 | The image of any content with acceptable tables is accepted and gives back every section. |
| PriorImage.SaveParse | src/v5_mmap_prior/bcb_prior.c:173-411 | The image of any trained tables, with or without landmarks and schema, is accepted and gives back every section. |
| LoadedPriors.AcceptedIsLoaded | src/v5_mmap_prior/bcb_prior.c:348-411 | Any accepted image holds rows, contexts and an index of the right shape, its indices are in range and its walks end. |
| LoadedPriors.MisreadExactly | src/v5_mmap_prior/bcb_prior.c:348-411 | Parsing an image that is in order reads an unaligned structure or int if and only if its slot table, or its nonempty context table or pool, is not at a multiple of 4. |
| LoadedPriors.AlignedExactly | src/v5_mmap_prior/bcb_prior.c:348-411 | Every element that parsing and the codec read is aligned if and only if the sections that are read start aligned. |
| LoadedPriors.AcceptedUsable | src/v5_mmap_prior/bcb_prior.c:348-411 | An accepted image can be used (no unaligned read, and from every state of every message a table that is defined and legal) if and only if its sections are aligned and its rows, its lookups and its counts satisfy the three conditions that parsing does not check. |
| UnusablePriors.ZeroWidths | src/v5_mmap_prior/bcb_prior.c:660-672 | With either build signature, an accepted one-row image with zero widths is unusable exactly when the row totals 16384; off that total the fallback makes the zeros harmless. |
| UnusablePriors.AcceptedButUndefined | src/v3_integer_bt/btv3.c:391-436 | With either build signature, three accepted images whose use is undefined: total 0xFFFFFF00 divides by zero, count 2^31 / PRES at total 1 indexes at -2^31, count 2^14 at total 1 overflows the 64-bit sum. |
| UnusablePriors.AcceptedButEndless | src/v3_integer_bt/btv3.c:334-344 | With either build signature, an accepted image of 2^33 slots on which looking up a context that the tables do not know never ends. |
| UnusablePriors.AcceptedButMisread | src/v5_mmap_prior/bcb_prior.c:361-398 | With either build signature, an image whose bytes are all in order and whose rows, counts and lookups serve, but whose slot table at an odd offset parsing itself misreads. |
| LoadedPriors.SavedAligned | src/v5_mmap_prior/bcb_prior.c:202-212 | A saved image has its sections aligned. |
| LoadedPriors.SavedIsGood | src/v5_mmap_prior/bcb_prior.c:173-411 | Trained tables whose totals stay below 2^32 - 256, saved with builder-made widths, load as a prior that can be used. |
| LoadedPriors.SavedFixedIsGood | src/v5_mmap_prior/bcb_prior.c:173-411 | So do the tables of a build of fixed capacity, whatever its full pools have refused. |
| LutLifetime.FaultsExactly | src/v5_mmap_prior/bcb_prior.c:470-472 | In a run that only uses open priors, a distribution finds the shared lookup tables freed if and only if some prior was closed and none was opened or given a codec since. |
| LutLifetime.OneAtATimeSafe | src/v5_mmap_prior/bcb_prior.c:470-472 | If no prior is closed while another is open, that never happens. |
| LutLifetime.TwoPriorsFault | src/v3_integer_bt/btv3.c:607-613 | With two priors open, closing one frees the tables under a codec of the other. |

## Left out

- Files, mappings and the Windows variants: an image is a byte sequence.
- Allocation failure: in builds that grow, growth always succeeds.
- Wrap of the 32-bit frequency counters while training, of the pending-bit counter and of the auxiliary channels' counters: they are unbounded. Reading any stored counts is modelled in 32 bits.
- BtTrain.BtV3.Update: pool, slots and Bloom bits are sequence-valued fields replaced as a whole, not arrays written in place; no other object shares them.
- BtSnapshot.Export: says nothing of 2^31 contexts and more, which the code cannot number by an int.
- BtTrain.BtV3.BtGrow: slot positions are remainders instead of masked hashes; Bitwise.MaskIsRemainder is the reason that is the same.
- The shared lookup tables are taken to be there whenever a codec runs; LutLifetime is about when they are.
- Codec.BcbCodec.Dist: hash functions are arbitrary functions, the FNV constants play no part; the scale is always 16384 as in every call of the code.
- CeCompress.Compress: the callbacks are a value (distribution and training functions over a state); the codec object is driven directly in BcbApi, in the order of the callbacks.
- Reader.BtV3Reader.Distribution: scales as for TableOf; collected contexts and evidence are local sequences instead of scratch arrays; the fallback for a nonpositive probability sum cannot be reached (every probability is at least 1) and is omitted.
- Distribution.ConfIndex: the conversion of an out-of-range quotient to int, which C leaves to the implementation, keeps the low 32 bits, as the supported compilers do.
- Reader.TableOf: scales up to 2^23 only, so that the last products fit 64 bits and the running total 32; the code uses 2^14.
- Codec.BcbCodec.EncXform: the reduction of a position beyond the record cannot be reached and is omitted; sums of bytes are taken modulo 256.
- PriorImage.PriorParse: the prior id is the first 16 bytes of an arbitrary digest of the image; SHA-256 itself is not modelled. Structure padding is written as zeros. The buffer starts at a multiple of 8, as mapped pages and allocations do; an unaligned read is reported, not modelled further, and the mere conversion of an unaligned pointer is not counted.
- PriorImage.Save: the registration of landmarks and schemas through file-level variables becomes an argument; structure sizes are those of a build with 32-bit int; long is 64 bits.
- Quantize.LmQuantize: the rounded targets and the most probable byte are arguments, because they come from floating-point code; so do the backoff mixture and the choice between byte and delta mode.
- AuxChannel.Channel.Learn: the four channel kinds share one class selected by a kind; the conversion of the weight from a double is left out, weights are at most 65536 as the constructors intend.
- AuxChannel.AdjustAll: the channels of a combination are distinct objects; nesting of combinations is left out.
- BcbEncoder and BcbDecoder handles, one-shot calls and error strings: they only forward to the two modelled calls.
- The single-thread wrappers with file-level state (`landmark_dist`, `structural_dist`, attach and detach): older duplicates of the codec.
- `src/v0_baseline/bt_model.c`, the floating-point reference model.
- Command-line tools, benchmarks, bindings, corpus generators; compression ratios and speed.
