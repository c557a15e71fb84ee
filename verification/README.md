# FreeArc: lossless codecs and the threads between them

An archiver has one promise: what goes in comes out.  In this repository the promise rests on codecs whose
encoder and decoder must agree at every step without seeing each other, and on protocols that move bytes
between threads.  This project states what those parts do, in their own form (classes and arrays that are
updated in place, loops with invariants, state machines over single steps of threads), and proves, for all inputs
and all interleavings, what the table below says of each.

`dafny verify dfyconfig.toml` checks everything, in a minute or two.

## The parts

- **Entropy coding** (`RangeCoder`, `RankModel`, `RankGain`, `RankCoder`, `EntropyModels`, `RankedRuns`, `CodeSize`,
  `MtfAri`, `WfcWeights`, `WfcList`, `WfcAri`).  A range coder is an exact interval of numbers; the encoder keeps its lower
  end as output, cached byte, withheld 255s and `low`, the decoder keeps only the distance of the code from it.
  `CodeBytes` defines the code of a list of steps once, without either; the encoder is proved to write it and the
  decoder to follow it.  The adaptive models are values that both sides change alike, and toward what was coded
  (`RankGain`).  The weighted-frequency ranking is defined by the history of runs; the arrays that are shifted in
  place are proved to follow it.
- **Block transforms** (`CountingSort`, `St4Order`, `St4Encode`, `St4Links`, `St4Decode`, `Bwt`, `Lzp`).  Both sorts
  are stated by one notion, the place of an entry in the stable order of keys.
- **DisPack** (`DisPackCode`, `DisPackUnits`, `DisPackStreams`, `DisPackCut`, `DisPackFilter`, `DisPackUnfilter`).  A
  filtered program is a list of units (instructions, escaped bytes, groups of jump table entries), each of which
  puts items into 19 streams and changes the table of call targets.  `DisPackCut` says where the filter cuts; the
  decoder checks all bounds on every input and follows the list if there is one.
- **LZ4** (`Lz4Format`, `Lz4Greedy`, `Lz4Compress`, `Lz4Decompress`).  `Decompressed` decodes every byte string one byte
  at a time, with all error exits.  `Lz4Greedy` defines the matches that are taken with given hashes; the compressor
  is proved to write their block, every block for allowed matches to decode to its source, and the decoder with its
  eight-byte copies to equal `Decompressed` on every input.
- **Threads** (`MultiDecompress`, `Pool4x4`, `Frames4x4`, `Ring`, `Pipeline`).  A step is one access to a semaphore,
  event, queue or shared field.  `Inv` is what every step of every thread keeps; safety follows from it for all
  runs, liveness from it and a measure.
- **Preprocessors** (`DeltaTable`, `DeltaSearch`, `DeltaCheck`, `Delta`, `DictCodes`, `DictBook`, `DictRead`,
  `DictHash`, `DictText`).  Delta decides as the program does what a table is, where it ends and what is taken; which
  row sizes are tried is a parameter.  Dict hashes its words with any two functions; without collisions these make
  no difference.
- **Checksums and files** (`Crc32`, `Unarc`).
- **`RoundTrips`** puts encoder and decoder of each codec together, as a caller would.

## Remarks on the code

- A row of counts is halved when it is full, and a count of 1 stays 1 (Compression/GRZip/MTF_Ari.c:93-102).  So coding a
  symbol can cost it a part of its share then: `RankGain.HalvingMayLose`.  While no row is full the share grows
  (`RankGain.SymbolShareGrows`), and in every case the coded symbol has more than if another had been coded
  (`RankGain.SymbolGains`).
- `FindWord` takes a word only if it is no longer than the bytes from the last one read to the end
  (Compression/Dict/dict.cpp:1051-1054).  At the end of the text this leaves words uncoded: `DictText.RepeatedText`.
- A column that runs in one direction to the end of the buffer is no table: the search for the boundary returns its
  start, since only a change of direction ends a stretch (Compression/Delta/Delta.cpp:334-347, `DeltaSearch.Boundary`).
- `phase3` of Dict caps the number of one-byte words by the number of words (Compression/Dict/dict.cpp:707-709).  A byte
  is freed only for a word and the last one freed becomes the prefix, so the cap never applies: `DictCodes.FreeBytes`
  ensures that fewer words get one byte than there are words.
- The LZP encoder compares bytes behind the block (Compression/GRZip/LZP.c:78).  What is there makes no difference to
  the code: `Lzp.BlockIsIdle`.
- The coders test the size of the output once a run, and look only at the bytes written, not at those withheld
  (Compression/GRZip/MTF_Ari.c:222).  `MtfAri.Encode` and `WfcAri.Encode` state how long an accepted code is: some k bytes
  with k + 24 below the block's size, f bytes that are all 255 or all 0, and 5 to 151 more (`CodeSize.Margin`).  So the
  code leaves a fixed margin only by a long stretch of such bytes (`CodeSize.MarginWithout`); whatever they are, it has
  at most 118 bytes for each run and 33 more.
- The history buffer of the WFC decoder gets the size recorded before the block is padded
  (Compression/GRZip/C_GRZip.cpp:151-164, 305).  `WfcAri.Decode` states when it is long enough: if and only if the
  padded block has no more runs than that.  `RoundTrips.MoreRunsThanRecorded` shows a block that has more; whether the
  encoder accepts it is not stated.

## Model

| member | source | states |
|---|---|---|
| RoundTrips.Mtf | Compression/GRZip/MTF_Ari.c:183-384 | every block under 2^23 bytes that the MTF coder does not refuse is decoded to itself, reading exactly the bytes written, whatever follows them |
| RoundTrips.Wfc | Compression/GRZip/WFC_Ari.c:488-640 | the same for the weighted-frequency coder, both history buffers having the size of the block |
| RoundTrips.MoreRunsThanRecorded | Compression/GRZip/C_GRZip.cpp:151-164 | a block of 39 bytes whose padded rows have 40 runs, one more than the recorded size |
| RoundTrips.St4 | Compression/GRZip/ST4.c:99-174 | every block of 5 to 2^23 - 1 bytes is restored from its rows and the row of its last byte |
| RoundTrips.BurrowsWheeler | Compression/GRZip/BWT.c:385-438 | every non-empty block is restored from the rows emitted from its suffix ranks |
| RoundTrips.Predicted | Compression/GRZip/LZP.c:54-161 | a block of at least 4 bytes that is not refused gets a shorter code, and the decoder returns the block; the encoder stays inside a buffer of the block's size |
| RoundTrips.Lz4 | Compression/LZ4/lz4.c:2451-2456 | any source is restored in any capacity from its own size up; the compressor fails if and only if the block of the greedy parse exceeds the limit, and never with LZ4_COMPRESSBOUND bytes of room |
| RoundTrips.DisPack | Compression/DisPack/DisPack.cpp:596-862 | any code with no 32-bit wrap is restored from its streams; the streams take at most 76 bytes more than twice the code |
| RoundTrips.DeltaBlock | Compression/Delta/Delta.cpp:418-536 | a block is restored whatever row sizes are tried |
| RangeCoder.RangeEncoder.ShiftLow | Compression/GRZip/MTF_Ari.c:61-71 | a shift multiplies the exact emitted number, pending bytes and carry included, by 256, and leaves room for the next carry |
| RangeCoder.RangeEncoder.Emit | Compression/GRZip/MTF_Ari.c:65-67 | writing the cached byte and the withheld 255s with a carry adds exactly the carry to the number they spell |
| RangeCoder.RangeEncoder.Encode | Compression/GRZip/MTF_Ari.c:193-201 | coding a symbol keeps low, cache, withheld bytes and output together equal to the lower end of the exact interval |
| RangeCoder.RangeEncoder.Flush | Compression/GRZip/MTF_Ari.c:381-382 | five shifts bring out every pending byte: the output spells the exact number |
| RangeCoder.RangeEncoder.Finish | Compression/GRZip/MTF_Ari.c:381-382 | the finished output is the base-256 expansion of the midpoint of the final interval |
| RangeCoder.EmitCarry | Compression/GRZip/MTF_Ari.c:65-67 | a carry through any number of withheld 255 bytes |
| RangeCoder.FourShiftsClear | Compression/GRZip/MTF_Ari.c:381-382 | after four shifts nothing of low is left |
| RangeCoder.StepWindow | Compression/GRZip/MTF_Ari.c:406-415 | at every step of the decoder the bytes read so far lie in the interval of that very step |
| RangeCoder.AfterFits | Compression/GRZip/MTF_Ari.c:198-200 | the final interval fits the bytes written, nothing is cut off at the front |
| RangeCoder.RangeDecoder.constructor | Compression/GRZip/MTF_Ari.c:429-433 | five bytes start a decoder that agrees with the encoder's first interval; the first byte is 0, so the value fits the 32-bit register |
| RangeCoder.RangeDecoder.GetFreq | Compression/GRZip/MTF_Ari.c:395 | the quotient of code and divided range falls into the coded symbol's part |
| RangeCoder.RangeDecoder.Decode | Compression/GRZip/MTF_Ari.c:406-415 | removing a symbol leads to the encoder's next interval, although the decoder stores another quantity |
| EntropyModels.Models.EncodeSymbol | Compression/GRZip/MTF_Ari.c:246-265 | coding the four-way symbol emits the step of the summed models and updates them |
| EntropyModels.Models.EncodeGroup | Compression/GRZip/MTF_Ari.c:269-301 | a rank of 3 and more as group in unary and place in the group |
| EntropyModels.Models.EncodeLength | Compression/GRZip/MTF_Ari.c:307-350 | a run length as unary logarithm and remaining bits |
| EntropyModels.Models.EncodeRun | Compression/GRZip/MTF_Ari.c:244-350 | one run: rank then length, every coded interval non-empty |
| EntropyModels.Models.EncodeEnd | Compression/GRZip/MTF_Ari.c:353-378 | the end marker is coded as the rank 256 that no byte has |
| EntropyModels.Models.DecodeSymbol | Compression/GRZip/MTF_Ari.c:443-454 | the decoder finds the symbol and makes the same update |
| EntropyModels.Models.DecodeGroup | Compression/GRZip/MTF_Ari.c:459-498 | the decoder finds the rank, or the end exactly when the encoder ended |
| EntropyModels.Models.DecodeLength | Compression/GRZip/MTF_Ari.c:517-558 | the decoder finds the run length |
| EntropyModels.CumMono | Compression/GRZip/MTF_Ari.c:248-249 | the parts of the total add up in order |
| RankGain.AdaptGains | Compression/GRZip/MTF_Ari.c:73-91 | a coded bit gets no rarer, and more frequent if and only if the other bit has at least 2^shift left |
| RankGain.SameBitLearned | Compression/GRZip/MTF_Ari.c:73-91 | 2048 codings of one bit leave less than 2^shift of 2048 to the other |
| RankGain.UnaryCells | Compression/GRZip/MTF_Ari.c:323-331 | a number in unary adapts the cells it passes toward one, the cell it stops in toward zero, and no other |
| RankGain.UnaryAgain | Compression/GRZip/MTF_Ari.c:323-331 | the same number again takes as many steps, none of them less likely |
| RankGain.UnaryLearned | Compression/GRZip/MTF_Ari.c:323-331 | a number coded 2048 times takes steps that leave nearly nothing to other numbers |
| RankGain.TreeStepAt | Compression/GRZip/MTF_Ari.c:286-301 | each bit of a rank is coded by the cell its higher bits name, and that cell adapts toward it |
| RankGain.TreeKeeps | Compression/GRZip/MTF_Ari.c:286-301 | no cell off the way changes |
| RankGain.TailCells | Compression/GRZip/MTF_Ari.c:338-350 | each low bit of a length is coded by its own cell, which adapts toward it, and no other cell changes |
| RankGain.SymbolGains | Compression/GRZip/MTF_Ari.c:253-255 | no symbol but the coded one gets a count; against coding another symbol it has at least 3 more of the same total |
| RankGain.SymbolShareGrows | Compression/GRZip/MTF_Ari.c:253-255 | unless a row is full and halved, the share of the coded symbol grows |
| RankGain.HalvingMayLose | Compression/GRZip/MTF_Ari.c:93-102 | a row whose halving costs the coded symbol a part of its share |
| RankGain.GroupAgain | Compression/GRZip/MTF_Ari.c:269-301 | the same large rank after the same group: no step is less likely than before |
| RankGain.LengthAgain | Compression/GRZip/MTF_Ari.c:320-350 | the same length of the same byte in the same context: no step is less likely than before |
| RankGain.RunContexts | Compression/GRZip/MTF_Ari.c:244-336 | a run enters its symbol and its flag for four bytes and more at the bottom of the contexts, and the oldest leave |
| RankCoder.DecodeUnary | Compression/GRZip/MTF_Ari.c:463-477 | a unary number is read back and the probabilities it passed through change alike |
| RankCoder.DecodeTree | Compression/GRZip/MTF_Ari.c:483-495 | a number is read back bit by bit through the context tree |
| RankCoder.DecodeTail | Compression/GRZip/MTF_Ari.c:545-557 | the low bits of a run length are read back |
| RankedRuns.AllRead | Compression/GRZip/MTF_Ari.c:496 | a decoder that has seen the end marker has read exactly the code |
| RankedRuns.WrittenBound | Compression/GRZip/MTF_Ari.c:222-226 | a coder that has written n bytes needs at least n + 5: refusing a block is never premature |
| MtfAri.FindRank | Compression/GRZip/MTF_Ari.c:233 | the first place of the byte in the list |
| MtfAri.MoveToFront | Compression/GRZip/MTF_Ari.c:235-240 | the in-place shift puts the byte first and keeps the order of the others |
| MtfAri.MoveFrontKeeps | Compression/GRZip/MTF_Ari.c:235-240 | the list stays a list of all bytes |
| MtfAri.Encode | Compression/GRZip/MTF_Ari.c:183-384 | the output is the code of the ranked runs; a block is refused only if its code has at least its size less 19 bytes; an accepted code has at most 118 bytes a run and 33 more, and its length is that of the bytes written at the last test, at most 25 below the size, plus a stretch of bytes all 255 or all 0, plus 5 to 151 |
| CodeSize.PendingInCode | Compression/GRZip/MTF_Ari.c:61-71 | the bytes pending in the coder stand in the final code, as they are or after a carry: all 255 or all 0 |
| CodeSize.MarginWithout | Compression/GRZip/MTF_Ari.c:222-226 | an accepted code without m bytes 255 or 0 in a row is less than 126 + m bytes longer than the block |
| CodeSize.ShiftsAtMost | Compression/GRZip/MTF_Ari.c:193-201 | a symbol makes the coder shift at most twice |
| CodeSize.RunCoarse | Compression/GRZip/MTF_Ari.c:244-350 | a run takes at most 59 symbols |
| CodeSize.EndShifts | Compression/GRZip/MTF_Ari.c:353-382 | what the end marker and the last shifts add to the code |
| MtfAri.Decode | Compression/GRZip/MTF_Ari.c:397-565 | from the code of any block, and any bytes behind it, the decoder returns the block and the size of the code |
| WfcWeights.WeightStep | Compression/GRZip/WFC_Ari.c:314-327 | what one more run does to every weight, twelve decays and one gain |
| WfcWeights.DecayListIsDecay | Compression/GRZip/WFC_Ari.c:42-67 | the twelve distances are all at which anything decays |
| WfcWeights.WorthDrops | Compression/GRZip/WFC_Ari.c:42-67 | at each distance what an occurrence weighs falls by exactly the constant of that distance, from the full gain on |
| WfcWeights.FarIsNothing | Compression/GRZip/WFC_Ari.c:42-67 | from distance 2048 on an occurrence weighs nothing |
| WfcWeights.LastOutweighs | Compression/GRZip/WFC_Ari.c:42-67 | the byte of the last run weighs at least 131072, any other at most 97984 |
| WfcList.LastStrictlyFirst | Compression/GRZip/WFC_Ari.c:314-327 | after every run the list starts with its byte, strictly heavier than all others, and weights lie between 0 and 229056 |
| WfcList.WfcTables.Push | Compression/GRZip/WFC_Ari.c:88-121 | the three arrays follow the ranking: list and index stay inverse, the list sorted, the sentinel last |
| WfcList.WfcTables.Raise | Compression/GRZip/WFC_Ari.c:88-97 | a byte gains its weight and moves to the front |
| WfcList.WfcTables.Lower | Compression/GRZip/WFC_Ari.c:99-114 | a byte loses weight and sinks, unless it is the one being coded |
| WfcList.WfcTables.Sink | Compression/GRZip/WFC_Ari.c:104-112 | the shifting loop stops before the sentinel, behind all heavier entries |
| WfcList.RaisedInverse | Compression/GRZip/WFC_Ari.c:91-96 | moving an entry to the front keeps list and index inverse |
| WfcList.MovedInverse | Compression/GRZip/WFC_Ari.c:104-112 | moving an entry back keeps list and index inverse |
| WfcList.SunkSorted | Compression/GRZip/WFC_Ari.c:99-114 | sinking restores the order behind the first place |
| WfcAri.Encode | Compression/GRZip/WFC_Ari.c:299-330 | the output is the code of the runs ranked by weight, with the bounds of the MTF coder; all runs are noted inside a history buffer of the block's size |
| WfcAri.Decode | Compression/GRZip/WFC_Ari.c:488-616 | the decoder rebuilds block and ranking, reading exactly the code; its history buffer is long enough if and only if the block has no more runs than the buffer has bytes |
| RankedRuns.RunsAtMost | Compression/GRZip/WFC_Ari.c:309-312 | a block has no more runs than bytes |
| St4Order.KeysRefine | Compression/GRZip/ST4.c:75-82 | longer keys refine shorter ones |
| St4Order.TwoPasses | Compression/GRZip/ST4.c:77-86 | sorting by the two older and then by the two most recent bytes is the stable sort by all four |
| St4Encode.CountPairs | Compression/GRZip/ST4.c:68 | counting pairs of bytes around the end of the block |
| St4Encode.PrefixSums | Compression/GRZip/ST4.c:70 | counts become starting places, in place |
| St4Encode.FirstPass | Compression/GRZip/ST4.c:75-82 | the forward pass writes the stable order by the older bytes |
| St4Encode.EndsAgree | Compression/GRZip/ST4.c:82-84 | the counters the first pass leaves are the ends that the backward pass needs |
| St4Encode.SecondPass | Compression/GRZip/ST4.c:84-86 | the backward pass writes the stable order by the more recent bytes |
| St4Encode.FindLast | Compression/GRZip/ST4.c:72-73 | the row of the last position is found before the first pass |
| St4Encode.Encode | Compression/GRZip/ST4.c:55-92 | the output lists the bytes in stable order of their four preceding bytes; the returned row is that of the last byte |
| St4Links.FirstIsStart | Compression/GRZip/ST4.c:127-137 | sorting the rows by byte sends the first row of a kind to the start of a longer key's group |
| St4Links.StartIsFirst | Compression/GRZip/ST4.c:127-137 | every start of a group is reached that way |
| St4Links.EarlierInGroup | Compression/GRZip/ST4.c:141-154 | a row not sent to a start has an earlier row of its kind |
| St4Links.LinksOrder | Compression/GRZip/ST4.c:119-137 | links keep the order of the keys up to length four |
| St4Decode.SumAndPair | Compression/GRZip/ST4.c:121-123 | the decoder counts byte pairs without knowing the keys |
| St4Decode.MarkGroups | Compression/GRZip/ST4.c:127-137 | the flags mark exactly the starts of groups of three-byte keys |
| St4Decode.BuildTable | Compression/GRZip/ST4.c:141-155 | the table holds a pointer in the first row of each kind and links to it in the others |
| St4Decode.WalkStep | Compression/GRZip/ST4.c:160-171 | one step of the walk, direct or indirect, leads from the row of a position to the row of the next |
| St4Decode.Walk | Compression/GRZip/ST4.c:160-171 | following the table reads the block |
| St4Decode.Decode | Compression/GRZip/ST4.c:99-174 | from the rows and the last row to the block, in place |
| Bwt.Emit | Compression/GRZip/BWT.c:385-398 | the closing loop writes the byte before each suffix, the row of the whole block left out and returned |
| Bwt.EmittedShape | Compression/GRZip/BWT.c:385-398 | the rows emitted from suffix ranks are as many as the block has bytes |
| Bwt.StepsOrder | Compression/GRZip/BWT.c:426-434 | sorting the rows by byte keeps the order of the suffixes |
| Bwt.StepsBack | Compression/GRZip/BWT.c:426-434 | each step leads to the suffix one byte longer |
| Bwt.Decode | Compression/GRZip/BWT.c:403-438 | the block comes back; every row but the missing one is visited, so the entry never set is never read |
| Lzp.Search | Compression/GRZip/LZP.c:74-84 | the match the code takes, with the comparison of four bytes that may lie behind the block |
| Lzp.CommonAgrees | Compression/GRZip/LZP.c:79-83 | the counted bytes agree and no more do |
| Lzp.MatchIsCommon | Compression/GRZip/LZP.c:78-85 | a match that is taken is at least as long as the minimum and stays inside the block |
| Lzp.BlockIsIdle | Compression/GRZip/LZP.c:78-84 | the bytes behind the block are compared, but the code is the same whatever they are |
| Lzp.LongIsTaken | Compression/GRZip/LZP.c:78-84 | with a minimum of at least four, every match that is long enough is taken |
| Lzp.EqualBytes | Compression/GRZip/LZP.c:54-116 | equal bytes take one byte for every 255 and at most seven more |
| Lzp.WriteRuns | Compression/GRZip/LZP.c:89-101 | a length as runs of 255, stopping when the output is full |
| Lzp.WriteStep | Compression/GRZip/LZP.c:68-112 | one match or literal, with the flag of a literal that looks like a match |
| Lzp.Encode | Compression/GRZip/LZP.c:54-116 | refused if and only if the code is no shorter than the block less one byte; otherwise the output is the code |
| Lzp.ReadRuns | Compression/GRZip/LZP.c:144-145 | a length is read back |
| Lzp.CopyMatch | Compression/GRZip/LZP.c:148-149 | the copy byte by byte, overlapping or not, continues the block |
| Lzp.ReadStep | Compression/GRZip/LZP.c:132-158 | the decoder makes the encoder's step from the same table |
| Lzp.Decode | Compression/GRZip/LZP.c:120-161 | the decoder returns the block of any code |
| Lz4Format.BlockSize | Compression/LZ4/lz4.c:751 | whatever matches are chosen, the block fits LZ4_COMPRESSBOUND |
| Lz4Format.ReadLengthBytes | Compression/LZ4/lz4.c:1979-2013 | length bytes are read back, given room for them |
| Lz4Format.DecodeSequence | Compression/LZ4/lz4.c:2215-2435 | the decoder undoes one sequence |
| Lz4Format.BlockEnd | Compression/LZ4/lz4.c:242-249 | what follows a match is long enough for the decoder's end-of-block tests |
| Lz4Format.DecodeBlock | Compression/LZ4/lz4.c:2215-2445 | decoding from any sequence on yields the whole source |
| Lz4Format.RoundTrip | Compression/LZ4/lz4.c:2215-2445 | every allowed choice of matches decodes to the source in any capacity that holds it |
| Lz4Format.BlockHolds | Compression/LZ4/lz4.c:1114-1117 | a block holds its sequences and at least six bytes behind any of them |
| Lz4Greedy.FirstHitIs | Compression/LZ4/lz4.c:1031-1102 | a search yields the first hit there is, and nothing only if there is none |
| Lz4Greedy.MarkedIs | Compression/LZ4/lz4.c:1037-1066 | a slot holds the position visited last with its hash, before that what it held at the start |
| Lz4Greedy.AcceptedIs | Compression/LZ4/lz4.c:1069-1096 | with positions of 16 or 32 bits, a match is accepted if and only if it is earlier, within the distance of the format and equal in four bytes |
| Lz4Greedy.BackEnd | Compression/LZ4/lz4.c:1104-1109 | a match extended backwards ends where it ended |
| Lz4Greedy.GreedyParses | Compression/LZ4/lz4.c:1004-1300 | whatever the hashes, the sequences taken are ones the format allows |
| Lz4Greedy.EqualBytes | Compression/LZ4/lz4.c:1004-1300 | equal bytes, with equal hashes for the first two positions, are one literal and one match |
| Lz4Greedy.EqualBytesBlock | Compression/LZ4/lz4.c:1004-1338 | their block has one byte for every 255 and at most 11 more |
| Lz4Compress.Count | Compression/LZ4/lz4.c:680-703 | counting by words gives the number of agreeing bytes below the limit |
| Lz4Compress.FindMatch | Compression/LZ4/lz4.c:1011-1102 | found if and only if some position visited before the end has an acceptable match in its slot; then it is the first such position, with the match of its slot and the table filled up to it |
| Lz4Compress.CatchUp | Compression/LZ4/lz4.c:1104-1109 | extending backwards stops at the literals, the start or a difference |
| Lz4Compress.WriteLiterals | Compression/LZ4/lz4.c:1111-1136 | token, length and literals |
| Lz4Compress.WriteMatchLength | Compression/LZ4/lz4.c:1213-1225 | writing four 255s ahead and dividing gives the plain length bytes |
| Lz4Compress.RoomNeeded | Compression/LZ4/lz4.c:1114-1117 | the room the compressor asks for is needed by the finished block |
| Lz4Compress.TestNext | Compression/LZ4/lz4.c:1270-1295 | a match directly behind another is found if and only if the slot of that position holds an acceptable one |
| Lz4Compress.WriteMatch | Compression/LZ4/lz4.c:1154-1230 | offset and length of a match that ends at least 5 bytes before the end |
| Lz4Greedy.MatchAllowed | Compression/LZ4/lz4.c:1182-1184 | the match that is counted is one the format allows |
| Lz4Compress.WriteMatches | Compression/LZ4/lz4.c:1138-1295 | all matches that follow each other directly |
| Lz4Compress.Compress | Compression/LZ4/lz4.c:930-1338 | the output is the block of the greedy parse if and only if that is within the limit; it is never more than LZ4_COMPRESSBOUND |
| Lz4Decompress.ReadVariableLength | Compression/LZ4/lz4.c:1979-2013 | the loop agrees with its recursive form on every input |
| Lz4Decompress.Literals | Compression/LZ4/lz4.c:2217-2342 | token and literals, with the sixteen-byte shortcut, on every input |
| Lz4Decompress.WildLiterals | Compression/LZ4/lz4.c:465-472 | copying eight bytes at a time leaves the right bytes up to the end |
| Lz4Decompress.WildMatch | Compression/LZ4/lz4.c:465-472 | copying eight bytes at a time from at least eight behind repeats them |
| Lz4Decompress.Chain | Compression/LZ4/lz4.c:2406-2419 | bytes repeated at an offset are repeated at its multiples |
| Lz4Decompress.Extend | Compression/LZ4/lz4.c:2406-2432 | going on at a multiple of the offset keeps repeating at the offset |
| Lz4Decompress.Distances | Compression/LZ4/lz4.c:474-475 | both table entries make distances that are multiples of the offset, the later one at least eight |
| Lz4Decompress.FirstEightCopied | Compression/LZ4/lz4.c:2406-2414 | the first eight bytes of a near match |
| Lz4Decompress.RestCopied | Compression/LZ4/lz4.c:2421-2434 | the later copies continue it |
| Lz4Decompress.CopyNearEnd | Compression/LZ4/lz4.c:2421-2429 | the copy near the end of the output stops in time |
| Lz4Decompress.CopyMatch | Compression/LZ4/lz4.c:2387-2434 | accepted if and only if it ends five bytes before the end; then it is the copy byte by byte, for every offset and length |
| Lz4Decompress.CopyEighteen | Compression/LZ4/lz4.c:2245-2256 | the shortcut's three copies do the same |
| Lz4Decompress.DecompressSafe | Compression/LZ4/lz4.c:2023-2445 | on every input, valid or not, result and output are those of the byte-by-byte decoder, and every access is inside the buffers |
| DisPackCode.SpecialOpcodes | Compression/DisPack/DisPack.cpp:166-192 | the two escape codes are invalid opcodes; returns and padding are valid ones |
| DisPackCode.TableXModRM | Compression/DisPack/DisPack.cpp:471-472 | every resolved variant has a plain ModRM byte |
| DisPackStreams.SizeBound | Compression/DisPack/DisPack.cpp:474-552 | no instruction is longer than MAXINSTR, 15 bytes |
| DisPackStreams.UnitData | Compression/DisPack/DisPack.cpp:414-559 | a unit takes at most twice its size in the streams |
| DisPackStreams.FlushedSize | Compression/DisPack/DisPack.cpp:561-583 | the output is at most 76 + 2n bytes |
| DisPackCut.CutStands | Compression/DisPack/DisPack.cpp:596-639 | at every position reached three addresses or more are a group of entries, else a valid opcode is an instruction, and only an invalid one an escape |
| DisPackCut.StopReason | Compression/DisPack/DisPack.cpp:616-639 | only an instruction that would be longer than the rest leaves the rest, at most 14 bytes, to escapes |
| DisPackCut.StandCover | Compression/DisPack/DisPack.cpp:596-650 | units that stand one behind the other are legal and spell the code |
| DisPackCut.TableGoesOn | Compression/DisPack/DisPack.cpp:393-440 | a jump table goes on the same way behind any of its entries |
| DisPackStreams.KeptSize | Compression/DisPack/DisPack.cpp:474-583 | instructions other than near calls take in the streams what they took in the code |
| DisPackCut.PlainSize | Compression/DisPack/DisPack.cpp:596-650 | code without jump tables, near calls and invalid opcodes, ending with an instruction, takes 76 bytes more than it did |
| DisPackCut.PaddingIsPlain | Compression/DisPack/DisPack.cpp:596-650 | a run of 0x90 is such code |
| DisPackUnits.AllSnoc | Compression/DisPack/DisPack.cpp:603-609 | streams, table and addresses after one more unit |
| DisPackFilter.MoveToFront | Compression/DisPack/DisPack.cpp:228-235 | the in-place shift |
| DisPackFilter.FindMTF | Compression/DisPack/DisPack.cpp:242-255 | index and new table, the last entry never found |
| DisPackFilter.DisFilterCtx.DetectJumpTable | Compression/DisPack/DisPack.cpp:393-412 | the number of addresses inside the code, 0 if fewer than three; reads only what is there |
| DisPackFilter.DisFilterCtx.ProcessInstr | Compression/DisPack/DisPack.cpp:414-559 | a jump table in groups if there is one, else the instruction if its opcode is valid, else an escape; the bytes consumed are those of the units put out |
| DisPackFilter.DisFilterCtx.PutInstr | Compression/DisPack/DisPack.cpp:474-552 | the fields of a valid instruction |
| DisPackFilter.DisFilterCtx.PutJumps | Compression/DisPack/DisPack.cpp:416-440 | all entries of a jump table, in groups of 256 and a last one |
| DisPackFilter.DisFilterCtx.Restore | Compression/DisPack/DisPack.cpp:633-637 | taking back the sizes takes back the data, though not the function table |
| DisPackFilter.DisFilterCtx.Flush | Compression/DisPack/DisPack.cpp:561-583 | sizes, then streams |
| DisPackFilter.FilterStep | Compression/DisPack/DisPack.cpp:603-609 | one step puts out what stands at its position and consumes as much, never reading past the end |
| DisPackFilter.FilterLast | Compression/DisPack/DisPack.cpp:616-639 | in the last bytes a step that would read past the end is undone |
| DisPackFilter.FilterRest | Compression/DisPack/DisPack.cpp:641-647 | the rest goes out as escapes and stays decodable although the table was not restored |
| DisPackFilter.DisFilter | Compression/DisPack/DisPack.cpp:596-650 | the streams are those of the units the code is cut into, which spell the code |
| DisPackUnfilter.ReadHeader | Compression/DisPack/DisPack.cpp:676-690 | sizes are accepted only if they add up; then every stream is where it was put |
| DisPackUnfilter.FirstItem | Compression/DisPack/DisPack.cpp:706-741 | the first byte of a unit tells its kind |
| DisPackUnfilter.UnitsLeft | Compression/DisPack/DisPack.cpp:701 | the first stream is used up exactly when no unit is left |
| DisPackUnfilter.BehindFar | Compression/DisPack/DisPack.cpp:761-785 | encoder and decoder look at the flags at different moments and agree |
| DisPackUnfilter.TargetBack | Compression/DisPack/DisPack.cpp:836-838 | the subtraction modulo 2^32 gives the relative operand back |
| DisPackUnfilter.Reader.FetchTarget | Compression/DisPack/DisPack.cpp:716-725 | a target by index or in full, with the encoder's table |
| DisPackUnfilter.Reader.ReadGroup | Compression/DisPack/DisPack.cpp:707-732 | a group of a jump table |
| DisPackUnfilter.Reader.ReadInstr | Compression/DisPack/DisPack.cpp:743-858 | an instruction, every decision derived from the streams |
| DisPackUnfilter.Reader.ReadUnit | Compression/DisPack/DisPack.cpp:701-859 | one turn of the loop keeps output, streams, table and flag in step with the encoder |
| DisPackUnfilter.DisUnFilter | Compression/DisPack/DisPack.cpp:670-862 | on every input all reads and writes are inside the buffers; on the filter's output the result is the code |
| MultiDecompress.StepInv | Compression/CompressionLibrary.cpp:300-388 | every step of every thread keeps the invariant of all links |
| MultiDecompress.PredecessorBlocked | Compression/CompressionLibrary.cpp:300-377 | in every run a stage outside its read callback has a predecessor that waits in write or has finished |
| MultiDecompress.NoRace | Compression/CompressionLibrary.cpp:337-377 | no two threads use one buffer at a time |
| MultiDecompress.ReadsPrefix | Compression/CompressionLibrary.cpp:347-378 | what a stage has read is a prefix of what its predecessor wrote |
| MultiDecompress.EndOfData | Compression/CompressionLibrary.cpp:354-359 | a read ends early only when the predecessor has finished and everything was read |
| MultiDecompress.SomeoneRuns | Compression/CompressionLibrary.cpp:300-377 | from any unfinished stage on some thread is not blocked |
| MultiDecompress.NoDeadlock | Compression/CompressionLibrary.cpp:259-326 | in every interleaving some thread can go on until all have finished |
| MultiDecompress.Returned | Compression/CompressionLibrary.cpp:247-252 | at the end done is set and the result is the first non-zero code signalled; 0 if and only if there was none |
| Pool4x4.StepInv | Compression/4x4/C_4x4.cpp:185-411 | every step of reader, workers and writer keeps the invariant |
| Pool4x4.JobInOnePlace | Compression/4x4/C_4x4.cpp:185-290 | in every run each job is in exactly one place |
| Pool4x4.QueuesHold | Compression/4x4/C_4x4.cpp:313-318 | no queue ever holds more jobs than it has room for |
| Pool4x4.InReadOrder | Compression/4x4/C_4x4.cpp:255-290 | blocks are written once each, in the order read, however the workers finish |
| Pool4x4.OnlyGoodBlocks | Compression/4x4/C_4x4.cpp:261-288 | a block whose processing failed is never written |
| Pool4x4.Complete | Compression/4x4/C_4x4.cpp:408-410 | without an error code all blocks were written |
| Pool4x4.NoDeadlock | Compression/4x4/C_4x4.cpp:328-335 | some thread can go on until the pool has shut down, errors included |
| Pool4x4.RunEnds | Compression/4x4/C_4x4.cpp:328-335 | no run is longer than the work there is: the pool always shuts down |
| Frames4x4.Unpack | Compression/4x4/C_4x4.cpp:452-507 | the loop over headers, raw and compressed blocks, all error returns included |
| Frames4x4.FrameBack | Compression/4x4/C_4x4.cpp:455-501 | a frame is read back as its block, raw or compressed |
| Frames4x4.RoundTrip | Compression/4x4/C_4x4.cpp:452-507 | decompressing what was compressed gives the blocks, if the inner method inverts itself on them |
| Ring.Queue.Push | Environment.cpp:1199-1208 | the ring holds the items in order; one more at the end |
| Ring.Queue.Pop | Environment.cpp:1216-1231 | the oldest item, or nothing exactly when the ring is drained |
| Ring.Queue.constructor | Environment.cpp:1183-1193 | an empty open ring |
| Ring.Queue.Close | Environment.cpp:1209-1214 | closing loses nothing |
| Pipeline.StepInv | Environment.cpp:1238-1278 | every step of reader, methods and writer keeps the invariant |
| Pipeline.Delivers | Environment.cpp:1199-1231 | in every run a queue delivers what was pushed, in order, and holds at most six buffers |
| Pipeline.EndMeansAll | Environment.cpp:1335-1376 | a thread sees the end only after its predecessor has closed and all was read |
| Pipeline.RunEnds | Environment.cpp:1381-1469 | no run is longer than the work there is |
| Pipeline.UpstreamRuns | Environment.cpp:1335-1376 | whoever waits for input in vain waits for a thread that can go on |
| Pipeline.NoDeadlock | Environment.cpp:1381-1469 | some thread can go on until all have finished |
| Pipeline.SoFarIsPart | Environment.cpp:1335-1376 | what a method has written, judging by what it has read, belongs to what it writes in the end |
| Pipeline.Written | Environment.cpp:1442-1469 | with methods that write by what they have read, a run that cannot go on has written the composition of the methods, any number of them, applied to the files |
| Pipeline.ReadCallback | Environment.cpp:1335-1354 | reads across buffers lose nothing and fall short only at the end of the stream |
| Crc32.CrcTables.InitCRC | Environment.cpp:315-324 | the table of the bit-at-a-time definition |
| Crc32.CrcTables.InitCRCSlice8 | Environment.cpp:328-340 | table k is the CRC of a byte and k zero bytes |
| Crc32.CrcTables.UpdateCRC | Environment.cpp:346-371 | eight bytes at a time give the bit-at-a-time CRC, for every buffer, start value and length |
| Crc32.CrcAppend | Environment.cpp:346-371 | updating over two pieces is updating over both together |
| Crc32.EightBytes | Environment.cpp:353-366 | eight bytes are two words shifted by 64 and 32 bits |
| Crc32.TableStep | Environment.cpp:368-369 | a table entry stands for eight shifts |
| Crc32.EntryNext | Environment.cpp:333-337 | the next table from the one before |
| Crc32.PolynomialTerms | Environment.cpp:315-324 | the constant has the fourteen terms of the generator polynomial below x^32, in reverse order |
| DeltaTable.TypeIsMask | Compression/Delta/Delta.cpp:199-206 | the recorded type is 2^N plus the mask of unchanged columns |
| DeltaTable.EncodeType | Compression/Delta/Delta.cpp:199-206 | the sum of shifts spells the mask |
| DeltaTable.DecodeType | Compression/Delta/Delta.cpp:209-217 | mask and width come back from the type |
| DeltaTable.SubtractRow | Compression/Delta/Delta.cpp:226-231 | one row less the row before, carries running over neighbouring columns |
| DeltaTable.AddRow | Compression/Delta/Delta.cpp:238-243 | adding undoes it, carries included |
| DeltaTable.DiffTable | Compression/Delta/Delta.cpp:223-232 | from the last row up, every row is the difference of the original rows; nothing outside the table changes |
| DeltaTable.UndiffTable | Compression/Delta/Delta.cpp:235-245 | from the first row down, the table comes back |
| DeltaTable.ReorderTable | Compression/Delta/Delta.cpp:249-268 | unchanged columns first |
| DeltaTable.UnreorderTable | Compression/Delta/Delta.cpp:271-286 | taking up both parts alternately undoes it |
| DeltaTable.PickAll | Compression/Delta/Delta.cpp:274-275 | the shortcut when no column or every column is marked is right |
| DeltaSearch.SearchForTableBoundary | Compression/Delta/Delta.cpp:330-350 | the boundary is where the first final stretch is cut off, with the useless steps up to there; without any change of direction it is the start |
| DeltaSearch.PickIsFinal | Compression/Delta/Delta.cpp:341-346 | reading stretches until two in a row are short picks the first long one, or the very first, with two short ones or no more behind it |
| DeltaSearch.AllGood | Compression/Delta/Delta.cpp:341-346 | a column without short stretches ends with its last stretch |
| DeltaSearch.BoundaryPlace | Compression/Delta/Delta.cpp:330-350 | the boundary is a whole number of rows from the start and inside the buffer, whatever the data |
| DeltaCheck.WorthwhileIs | Compression/Delta/Delta.cpp:366-371 | the useful rows times the square root of the row size exceed 30 and four times the bits of the gap |
| DeltaCheck.CountChanges | Compression/Delta/Delta.cpp:306-309 | how often a column changes from row to row |
| DeltaCheck.AnalyzeTable | Compression/Delta/Delta.cpp:293-322 | the marked columns are those that change in less than a quarter of the rows, none for 2, 4 and 8 bytes |
| Delta.TryTable | Compression/Delta/Delta.cpp:353-408 | found if and only if the quick check holds and the table between the boundaries searched for is worthwhile; then that table is recorded and filtered in place, otherwise nothing changes |
| Delta.EndMono | Compression/Delta/Delta.cpp:438-475 | recorded tables come one behind the other |
| Delta.Region | Compression/Delta/Delta.cpp:438-475 | in the final block each table is the filtered original and each gap is unchanged |
| Delta.CompressBlock | Compression/Delta/Delta.cpp:438-475 | the tables recorded are those taken from place to place; they are in order, disjoint, inside the block and whole rows, and the block is filtered in them and nowhere else |
| Delta.PlaceTaken | Compression/Delta/Delta.cpp:458-467 | a table is taken at a place if and only if one passes there for some row size that is tried and some start in the row |
| Delta.PlaceIsFirst | Compression/Delta/Delta.cpp:458-467 | it is that of the first such row size and the first such start |
| Delta.AllVisits | Compression/Delta/Delta.cpp:438-475 | every line is looked at unless a table covers it; what is taken there is the next table recorded, and nothing is taken that is not recorded |
| Delta.UndoTable | Compression/Delta/Delta.cpp:519-529 | one record restores one table |
| Delta.DecompressBlock | Compression/Delta/Delta.cpp:515-531 | the records restore the block |
| DictCodes.FreeBytes | Compression/Dict/dict.cpp:684-710 | the freed bytes are the weak ones less the prefix, with those that do not occur; fails exactly when too few are weak; fewer words get one byte than there are words |
| DictCodes.AssignCodes | Compression/Dict/dict.cpp:716-778 | the codes given use freed bytes only, and none is the beginning of another; the loops give the codes of the recursive definition |
| DictCodes.WeakOnes | Compression/Dict/dict.cpp:684-690 | the weak bytes are those at the front of the order that occur less often than the words they may stand for |
| DictCodes.KeptOk | Compression/Dict/dict.cpp:768-776 | dropping words without codes keeps the codes apart |
| DictBook.EnterOk | Compression/Dict/dict.cpp:804-816 | entering a word keeps every word entered before in place |
| DictBook.FillBook | Compression/Dict/dict.cpp:803-816 | the matrix holds every word under its code, and marks the bytes of the longer words |
| DictBook.WriteDictionary | Compression/Dict/dict.cpp:792-896 | the five parts, or an error if and only if the words with two-byte codes use all 256 bytes |
| DictRead.ReadWord | Compression/Dict/dict.cpp:1231-1235 | a word ends at the separator |
| DictRead.ReadRow | Compression/Dict/dict.cpp:1222-1239 | a row of words with shared beginnings, never reporting a missing predecessor on a written dictionary |
| DictRead.ReadDictionary | Compression/Dict/dict.cpp:1202-1252 | the matrix comes back, the prefix row added |
| DictText.TextOfJoin | Compression/Dict/dict.cpp:1256-1273 | codes are decoded without memory |
| DictText.Agree | Compression/Dict/dict.cpp:1243-1252 | the decoder's matrix agrees with the encoder's codes, bare bytes and escapes |
| DictText.WordDecodes | Compression/Dict/dict.cpp:1062-1063 | a code is decoded to its word |
| DictText.BareDecodes | Compression/Dict/dict.cpp:1082-1093 | a byte, escaped or not, is decoded to itself |
| DictText.HashWords | Compression/Dict/dict.cpp:936-1009 | the tables are those of all words in lexicographical order |
| DictHash.ProbeSame | Compression/Dict/dict.cpp:978-983 | a probe that succeeds in the full table took the same slot when the beginning was entered |
| DictHash.SortedInOrder | Compression/Dict/dict.cpp:349-354 | the words in lexicographical order |
| DictHash.ShorterFirst | Compression/Dict/dict.cpp:349-354 | a word comes before the words that go on behind it |
| DictHash.HashedOk | Compression/Dict/dict.cpp:970-1009 | the table holds nothing but words of the dictionary |
| DictHash.HashedFills | Compression/Dict/dict.cpp:970-1009 | without collisions every beginning of a word leads to the longest word it begins with, the word itself to its own slot |
| DictHash.FollowIs | Compression/Dict/dict.cpp:1026-1048 | without collisions a text is followed as far as some word begins so |
| DictHash.WordIsLongest | Compression/Dict/dict.cpp:1016-1058 | without collisions the word found is the longest one there; none is found if and only if there is none or it is longer than what is left from the last byte read |
| DictHash.OneWordClean | Compression/Dict/dict.cpp:970-1009 | a dictionary and hashes without collisions |
| DictText.FindWord | Compression/Dict/dict.cpp:1016-1058 | the word in the slot to which the hashes of the text lead, if it is there and no longer than what is left from the last byte read |
| DictText.EncodeText | Compression/Dict/dict.cpp:1065-1094 | the words found go out as their codes, other bytes bare or escaped; the codes decode to the text |
| DictText.HashesDoNotMatter | Compression/Dict/dict.cpp:1065-1094 | all hashes and table sizes without collisions lead to the same codes |
| DictText.RepeatedText | Compression/Dict/dict.cpp:1051-1057 | a word of two bytes over and over becomes one code each, except the last one, which stays bare |
| DictText.DictDecode | Compression/Dict/dict.cpp:1180-1278 | the output is what the codes stand for, for every dictionary and every text in its codes |
| DictText.DictEncode | Compression/Dict/dict.cpp:1139-1160 | an error if and only if too few bytes are weak or the words of two-byte codes use all 256 bytes; otherwise the dictionary and the text in the codes of the words chosen |
| DictText.RoundTrip | Compression/Dict/dict.cpp:1139-1160 | the encoder fails under exactly that condition; otherwise, whatever words, counts and hashes, decoding undoes phases 3 to 7 |
| Unarc.Unpacker.Write | Unarc/unarc.cpp:404-418 | whatever the piece of the stream: quits if and only if a file that ends in it has a wrong checksum; says no more data if and only if the last wanted file is complete |
| Unarc.Unpacker.Piece | Unarc/unarc.cpp:407-416 | what belongs to the current file goes to it |
| Unarc.Unpacker.NextFile | Unarc/unarc.cpp:410-414 | the checksum covers exactly the slice of the file |
| Unarc.Unpacker.OpenNext | Unarc/unarc.cpp:332-369 | a file without data takes nothing |
| Unarc.Unpacker.FirstPass | Unarc/unarc.cpp:431-441 | empty files and directories are made, and extractUntil is the last wanted file with data |
| Unarc.Unpacker.ExtractFiles | Unarc/unarc.cpp:424-454 | every file that was accepted and not declined holds its slice of the stream and nothing else changed, however the stream is cut; the program gives up only on a wrong checksum, of an empty file, of a file in the stream, or of the file in which the stream breaks off |
| Unarc.GoodBefore | Unarc/unarc.cpp:404-418 | while a file is incomplete the files that end in the stream are those before it |

## Left out

- Allocation failures, everywhere.
- MTF and WFC: the model rows are fields of sequences, not one block of memory; row 7 of the group context, which the source leaves unset, is never used by the code and holds an initial value here.
- WfcAri.Decode, MtfAri.Decode, St4Decode.Decode, Bwt.Decode, Lzp.Decode: the source makes no checks on its input, so these are specified on what the encoders write only.
- Delta.DecompressBlock and DictText.DictDecode: likewise specified on well-formed records and dictionaries; the dictionary entries are texts, not pointers into one buffer.
- WfcList.WfcTables.Push: the twelve lines that age a run are a loop over the table of constants.
- ST4: the bit-packed flags are an array of truth values, the packed words of table and context numbers with explicit shifts.
- BWT: the sorters (ternary sort, shell sorts, all of FastBWT) are not modelled; the suffix ranks they are to deliver are assumed.
- LZP and LZ4: the hash is any function of context or position; LZP's table is a map, and the memory behind the block is a parameter.
- Lz4Compress.Compress: without a dictionary and without filling a given output; the table starts empty, sources above LZ4_MAX_INPUT_SIZE are not refused, and the over-writes of the compressor's own wild copies are exact copies here (those of the decoder are modelled).
- LZ4 streaming, dictionaries, partial decoding, the fast decoding loop, the high-compression variant and the framing in C_LZ4.
- DisPack: the outer framing in chunks; the decoder's output is a growing sequence with a limit, its streams positions in the source.
- MultiDecompress: stages that go on after a refused write; the first stage's reads and the last stage's writes through the outer callback are steps inside the method. Items are numbers, since contents do not matter.
- Pool4x4.State: the NULLs that end a queue are counted behind its jobs, and closing a queue, which the source never does, has no step.
- Frames4x4.Unpack: one thread; what the threads do with the blocks is Pool4x4. The inner method is a pair of functions.
- Pipeline: stages that stop before the end of their input, errors of the archive file, and the draining of queues afterwards. A method writes by what it has read; its output for a whole input is a function of it.
- Delta: which row sizes are tried at a place (the counting of equal high halves of bytes, and the test for zeros before it) is a parameter, and the streams the records go through are left out. The score of a table is compared exactly instead of in floating point.
- Dict: phases 1 and 2, which collect words, and the sorting by count or text before phase 4; there the words arrive as a list in any order. The sorting before the hashing is an insertion sort. The two hash functions and the size of the tables are parameters, and the tables are values. The words' texts have 2 to 254 bytes, as phase 1 makes them.
- Unarc: names, times, the file system, progress and cancelling; whether a file exists and is to be overwritten is a parameter. Directories are taken to hold no data.
- Console, GUI, archive directory, encryption, multimedia filters, REP, LZMA, PPMD, Tornado and the Haskell front end.
