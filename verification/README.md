# Verified model of the erasure-coded store

This project models the parts of the store that its data depends on, and proves what they are for.

**The coding engine** (`galois.c`, `jerasure.c`, `cauchy.c`, `GCRSMatrix.c`).

- *Arithmetic.* `Galois` defines GF(2^w) for every width and reduction polynomial and proves its laws.
  `GaloisMultiply`, `GaloisTables`, `GaloisInverse` and `GaloisSplit` are the four ways in which the
  program computes it: shifting, logarithm and product tables, inversion of a bit matrix, and the seven
  split tables for w = 32.
- *Matrices.* Matrices are arrays in row-major order, as in the program. `JerasureInvert` and
  `JerasureInvertible` are the in-place eliminations over GF(2^w), `BitInvert` the one over bits. Each
  fails exactly for the matrices that have a non-zero kernel vector.
- *Cauchy codes.* `CauchyMatrix`, `CauchyOnes`, `CauchyCounts` and `CauchyImprove` build, count and rescale the coding
  matrix, `CauchyBest` adds the ready-made matrices for two coding devices; `CauchyTheory` and `CauchyMDS` prove
  that any k rows of identity and coding matrix are invertible, `CauchyBits` carries this over to the bit matrix.
- *Encoding and decoding over words.* `Dotprod`, `Erasures`, `DecodingMatrix`, `MatrixDecode`; with
  `CauchyDecode` the decoder gives up only for more than m losses. `GrsDecoding`, `ByteWords`, `StripeCoding` and
  `CodingJob` do the same for the degraded-read path of the client, down to the bytes of the blocks.
- *Encoding and decoding over packets.* `Bitmatrix` turns field matrices into bit matrices; `DumbSchedule`
  and `SmartSchedule`, with its choices in `SmartPlan` and their cost in `SmartCost`, compile those into copy and
  xor operations; `PacketOps` and `DeviceStripes` execute them. `ScheduledIds`, `DecodingSchedule`, `ScheduleDecode`
  and `ScheduleCache` compile and run decoding schedules; `GcrsVector`, `GcrsDecoding` and `GcrsCreate` build the
  decoding bit matrix of the recovery path, `GcrsCode` puts them together with its code.

**Data layout and the protocols around it.**

- `Striping` defines which bytes of a buffer belong to which block. `StripeWrite` and `StripeRead` are the
  client's loops for one buffer, `FileParts`, `FileWrite` and `FileRead` those for a file in many buffers, `PutThenGet`
  their composition, `BlockSizes` the metadata server's own computation of the block sizes.
- `Pipeline`, `PipelineSafety` and `PipelineRuns` are the two worker threads and the starter of the put and
  get tools as a state machine over semaphores and in-use flags, with its invariant and the theorems about
  all runs. The step relation fits both tools: for put the reader fills from a file and the writer stores,
  for get the reader fetches and the writer writes the file.
- `StreamFraming` says byte by byte what a client's stream means; `MessageBuffer` and `ClientHandle` are the
  server's buffer and its state machine.
- `Congruence`, `PlacementDesign` and `Placement` are the ESet design, its construction, and the failure
  handler that has to invert it.

## How things are represented

Words, field elements and table entries (`int` in the program) are the natural numbers with the same bits; `Xor`
and `Bit` in `Bits` are the bit operations. A coding matrix is an `array<nat>`, a bit matrix an
`array<bool>`. `Base(i, n)` in `RowMajor` is the start of row i, and `Rows` the matrix as a sequence of
rows. Device contents are words for the field routines and packets for the bit-matrix routines.
`IsField(F)` (every non-zero element has an inverse) is the premise of the matrix theorems; it follows when the table
builder finishes, and element by element when `ShiftInverse` does.

Parameters in place of the outside world: what `recv` delivers is a non-empty piece, disk writes take any
number of bytes at a time, and the text of a command is understood by a function `parse`.

Where code and comment disagree the code is followed: the reader of one block (`startReadECBlock`) stops after the first
piece when its window holds one request, which `StripeRead.Reader` and `StartReadECBlock` state exactly; the window is 2.

## Model

| member | source | states |
|---|---|---|
| Galois.MulComm | ECClientLib/galois.c:292-320 | multiplication commutes, for every width and polynomial |
| Galois.MulAssoc | ECClientLib/galois.c:292-320 | multiplication is associative, for every width and polynomial |
| Galois.MulXorLeft | ECClientLib/galois.c:292-320 | multiplication distributes over xor in the first operand |
| Galois.MulXorRight | ECClientLib/galois.c:292-320 | multiplication distributes over xor in the second operand |
| GaloisMultiply.ShiftMultiply | ECClientLib/galois.c:292-320 | collecting the shifted operand bit by bit gives the product |
| GaloisTables.CreateLogTables | ECClientLib/galois.c:152-191 | finishes exactly when the powers of 2 are all different; then both tables are inverse to each other and the antilog table is tripled |
| GaloisTables.OrbitCloses | ECClientLib/galois.c:171-186 | with finished tables, 2 to the number of non-zero elements is 1 |
| GaloisTables.UnreducedLookup | ECClientLib/galois.c:193-216 | every sum or difference of logarithms is inside the tripled table and finds the right power without being reduced |
| GaloisTables.LogMultiply | ECClientLib/galois.c:193-203 | table multiplication is the product, for all operands |
| GaloisTables.LogDivide | ECClientLib/galois.c:205-216 | table division gives the r with y * r = x, and -1 for a zero divisor |
| GaloisTables.PrimitiveIsField | ECClientLib/galois.c:152-191 | when the table builder finishes, every non-zero element has an inverse |
| GaloisTables.EvenPolynomialNoField | ECClientLib/galois.c:43-80 | an even polynomial never gives a field for w of at least 2: why the odd entries of the polynomial table matter |
| GaloisTables.CreateMultTables | ECClientLib/galois.c:218-267 | row x of the product table holds the products, row x of the quotient table the quotients or -1 |
| GaloisTables.MultTableMultiply | ECClientLib/galois.c:362-373 | the entry found by row and column is the product |
| GaloisTables.MultTableDivide | ECClientLib/galois.c:410-421 | the entry found by row and column is the quotient, or -1 |
| GaloisInverse.InvertBinaryMatrix | ECClientLib/galois.c:551-596 | without the error exit, the combination of the original rows named by inv[j] is the unit row j, although back-substitution never updates the matrix; the exit means a singular matrix |
| GaloisInverse.ShiftInverse | ECClientLib/galois.c:606-626 | succeeds exactly for elements that have an inverse, and returns it |
| GaloisSplit.CreateSplitTables | ECClientLib/galois.c:757-790 | table t holds the products of two bytes, shifted by 8t, in the field |
| GaloisSplit.SplitMultiply | ECClientLib/galois.c:792-810 | the sum of sixteen lookups is the 32-bit product, for all operands |
| JerasureInvert.InvertMatrix | ECClientLib/jerasure.c:359-444 | 0: the result times the original is the identity; -1 exactly when the original has a non-zero kernel vector |
| JerasureInvertible.InvertibleMatrix | ECClientLib/jerasure.c:446-501 | returns 1 exactly when only zero is in the kernel |
| CauchyMatrix.OriginalCodingMatrix | ECMeta/cauchy.c:117-133 | entry (i, j) is the inverse of i xor (m + j); refused exactly when the points do not fit in the field |
| CauchyOnes.NOnes | ECMeta/cauchy.c:75-115 | the incremental count is the number of ones in the w by w block of the element |
| CauchyCounts.RowOnesCounted | ECMeta/cauchy.c:171-180 | the counts of the entries of a row add up to the number of ones in its rows of the bit matrix |
| CauchyCounts.BlockCountIsOnes | ECMeta/cauchy.c:75-115 | the count of a stretch of a bit matrix is the number of places in it that hold a one |
| CauchyImprove.ImproveCodingMatrix | ECMeta/cauchy.c:152-193 | the first row becomes all ones; every later row becomes the old row divided by the first, as it is or scaled to have an entry 1, and the first of these with the fewest ones; the matrix stays a Cauchy matrix scaled by non-zero factors |
| CauchyImprove.FewestBits | ECMeta/cauchy.c:168-191 | no other variant of a row has fewer ones in its rows of the bit matrix |
| CauchyImprove.ImprovedOriginalMatrix | ECMeta/cauchy.c:217-222 | the general branch delivers the improved form of the matrix with entries 1 / (i xor (m + j)), and is refused exactly when the points do not fit |
| CauchyTheory.CauchyKernel | ECMeta/cauchy.c:117-133 | a square system with coefficients 1/(x + y) over different points has only the zero solution |
| CauchyMDS.AnyKRowsInvertible | ECMeta/cauchy.c:117-193 | any k rows of identity and scaled Cauchy matrix are invertible |
| CauchyBest.BestRowsInvertible | ECMeta/cauchy.c:199-216 | a row of ones and a row of different non-zero entries: again any k of the k + 2 devices determine the data |
| CauchyBest.GoodGeneralCodingMatrix | ECMeta/cauchy.c:195-223 | both branches: any k devices determine the data, the first row is all ones, no row is zero; for two coding devices within the table the second row is the start of the ready-made one, otherwise the matrix is the improved form of the one with entries 1 / (i xor (m + j)) |
| Dotprod.MatrixDotprod | ECClientLib/jerasure.c:560-619 | the destination becomes the combination of the listed sources, nothing else changes; a zero row leaves everything as it was |
| Erasures.ErasuresToErased | ECClientLib/jerasure.c:506-531 | refused exactly for more than m different devices; otherwise the flags are exactly the listed devices |
| DecodingMatrix.MakeDecodingMatrix | ECClientLib/jerasure.c:84-112 | takes the first k survivors in order; -1 exactly when their matrix is singular, otherwise the inverse of it |
| MatrixDecode.MatrixEncode | ECClientLib/jerasure.c:285-298 | for any coefficients: every coding device becomes its combination of the data devices; devices with a row of zeros, and the data devices, stay |
| MatrixDecode.EncodedIsCodeword | ECClientLib/jerasure.c:285-298 | encoding makes a codeword if and only if the coding devices whose row is zero were zero before |
| MatrixDecode.MatrixDecode | ECClientLib/jerasure.c:153-254 | 0: all k + m devices hold their original contents whatever the lost ones held before, also when the last data device is rebuilt from the parity row of ones, except lost coding devices whose row is zero, which are not written; -1 exactly for an unsupported word size, too many losses or a singular survivor matrix, and then no device was touched |
| MatrixDecode.DecodedIsRestored | ECClientLib/jerasure.c:242-247 | after a decode that returns 0 everything is restored if and only if every lost coding device whose row is zero was right before |
| CauchyDecode.OnlyTooManyLossesFail | ECClientLib/jerasure.c:153-254 | with the coding matrix of this system, decoding fails exactly for more than m losses or an unsupported word size |
| CauchyDecode.NoZeroRow | ECMeta/cauchy.c:152-193 | the generated coding matrix has no zero row |
| BitInvert.InvertBitmatrix | ECClientLib/jerasure.c:1033-1088 | 0: applied after the original, the result restores all packets; -1 exactly when the original sends some non-zero packets to zero |
| Bitmatrix.MatrixToBitmatrix | ECClientLib/jerasure.c:257-283 | column x of the block of e holds the bits of e * 2^x, for every element |
| Bitmatrix.BitEncodingIsFieldEncoding | ECClientLib/jerasure.c:257-283 | packets that spell field symbols, through the bit matrix, spell the symbols the field matrix gives |
| Bitmatrix.OnesOfBlock | ECMeta/cauchy.c:75-115 | the ones counted for an element are those of its block in the bit matrix |
| DumbSchedule.DumbBitmatrixToSchedule | ECClientLib/jerasure.c:1221-1251 | whatever the packets hold, running the schedule gives what the bit matrix asks for, in as many operations as the matrix has ones, so the table of operations is large enough |
| SmartSchedule.SmartBitmatrixToSchedule | ECClientLib/jerasure.c:1253-1371 | the same meaning as the simple schedule in no more operations; the operations are those of every row exactly once, each made in the first of its cheapest ways, from scratch or from a row before it, and each the first of the cheapest rows left |
| SmartCost.CheapestFirst | ECClientLib/jerasure.c:1343-1361 | counted in the schedule: each row takes as many operations as it has ones, or one more than its difference from an earlier row, and never more than any row still left would take in any way |
| PacketOps.DoScheduledOperations | ECClientLib/jerasure.c:1152-1175 | through any list of different device pointers, the devices change as the schedule says and no other packet changes |
| DeviceStripes.ScheduleEncode | ECClientLib/jerasure.c:1177-1219 | running a schedule of the bit matrix encodes every stripe of the devices |
| DeviceStripes.BitmatrixDotprod | ECClientLib/jerasure.c:300-344 | in every stripe each packet of the destination becomes the sum its bit row selects; packets of zero rows and all other devices stay |
| DeviceStripes.BitmatrixEncode | ECClientLib/jerasure.c:1373-1393 | encodes every stripe to the same packets as any schedule of the matrix |
| BitDecoding.EncodedIsCodeword | ECClientLib/jerasure.c:1373-1393 | encoded devices satisfy all rows of the bit matrix when no row is zero |
| BitDecoding.ScheduleRestores | ECClientLib/jerasure.c:804-932 | a schedule of rebuilding rows brings the lost devices back in one pass |
| ScheduledIds.CountLosses | ECClientLib/jerasure.c:815-822 | counts the listed data losses and the listed coding losses |
| ScheduledIds.SetUpIds | ECClientLib/jerasure.c:759-802 | each lost data device is replaced by the next living coding device, the lost ones follow; ind_to_row is the inverse; refused exactly for more than m losses |
| DecodingSchedule.BuildSurvivorBits | ECClientLib/jerasure.c:838-858 | the matrix to be inverted holds the bit rows of the k stand-ins |
| DecodingSchedule.AddLostColumns | ECClientLib/jerasure.c:899-920 | after adding the inverse rows of the lost data devices, the rows of each lost coding device rebuild it from the stand-ins |
| ScheduleDecode.GenerateDecodingSchedule | ECClientLib/jerasure.c:804-932 | delivers a schedule exactly for at most m losses: the smart or the simple schedule, as asked, of the rows that rebuild each lost device from the stand-ins; with invertible stand-ins and no zero row it restores every erased data and coding device of every codeword |
| ScheduleDecode.ScheduleDecodeLazy | ECClientLib/jerasure.c:934-960 | all devices are restored in every stripe that was a damaged codeword; with more than m losses it returns -1 and changes nothing |
| ScheduleCache.GenerateScheduleCache | ECClientLib/jerasure.c:996-1031 | only for m = 2; holds a restoring schedule for every single loss and every pair in both orders |
| ScheduleCache.ScheduleDecodeCache | ECClientLib/jerasure.c:962-994 | one or two losses in either order: the cached schedule restores the same devices as lazy decoding, in every stripe |
| CauchyBits.SurvivorBitsInvertible | ECClientLib/GCRSMatrix.c:42-67 | if any k devices determine the data over the field, their bit rows are never singular |
| CauchyBits.CodingBitsNonzero | ECClientLib/GCRSMatrix.c:42-67 | a coding row with a non-zero element has no zero row of bits |
| CauchyBits.EveryLossDecodes | ECClientLib/jerasure.c:934-960 | with the coding matrix of this system the premises of schedule decoding hold after every loss of at most m devices, so every such loss is restored |
| CauchyBits.RecoveryNeverSingular | ECClientLib/GCRSMatrix.c:275-341 | with it, the inversion in the recovery path always succeeds |
| GcrsDecoding.GenerateCodingVector | ECClientLib/GCRSMatrix.c:461-541 | the block row of a lost parity device, taken through the inverse rows of the lost data devices, rebuilds it from the survivors |
| GcrsCreate.CheckKMW | ECClientLib/GCRSMatrix.c:18-40 | refuses exactly the parameters out of range; otherwise gives the first width, from the starting width on, with room for k + m points |
| GcrsCreate.CreateDecodingDataBitmatrix | ECClientLib/GCRSMatrix.c:197-242 | lists the first k survivors and, when their matrix is invertible, inverts it; a failed inversion is not reported |
| GcrsCreate.CreateDecodingBitmatrix | ECClientLib/GCRSMatrix.c:275-341 | fails exactly for too many losses or k out of range; otherwise mat_idx lists the lost devices, dm_ids the survivors, and every block row rebuilds its device |
| GcrsCreate.BlockRebuildsDevice | ECClientLib/GCRSMatrix.c:275-341 | block row r applied to the survivors in order yields device mat_idx[r], data or parity |
| GcrsCode.CreateBitmatrix | ECClientLib/GCRSMatrix.c:42-67 | refused exactly for k or m out of range; otherwise the bits of the matrix with entries 1 / (i xor (m + j)), of which any k devices determine the data and no row is zero |
| GcrsCode.EveryLossRecovered | ECClientLib/GCRSMatrix.c:275-341 | with that matrix, after every loss of at most m devices each block row gives the packets of its lost device from the survivors |
| GcrsCode.LostDeviceRecovered | ECClientLib/GCRSMatrix.c:275-341 | every lost device, data or parity, has a block row that gives its packets from the survivors |
| GrsDecoding.GrsCreateDecodingMatrix | ECClientLib/GCRSMatrix.c:370-432 | for lost data devices: fails exactly for too many losses or a singular survivor matrix, otherwise row r is the inverse row of lost device r |
| GrsDecoding.RowRebuildsDevice | ECClientLib/GCRSMatrix.c:370-432 | row r applied to the survivors gives the contents of device mat_idx[r] |
| GrsDecoding.GoodSurvivorsInvertible | ECClientLib/GCRSMatrix.c:244-273 | with the coding matrix of this system the survivor matrix is never singular |
| ByteWords.WordsDetermine | ECClientLib/ECStoreCoder.c:32-51 | a buffer of whole words is determined by its words: nothing is lost between bytes and symbols |
| ByteWords.StoreWords | ECClientLib/ECStoreCoder.c:15-30 | words written to a buffer of bytes are the words read from it |
| StripeCoding.StripedIsPadded | ECClientLib/ECBlockWorkerIO.c:492-550 | after striping, each input buffer holds its block padded with zeros to the coding size |
| StripeCoding.LostBlockReturns | ECClientLib/ECStoreCoder.c:32-51 | a buffer has the words that row r of the decoding matrix gives exactly when it is the padded block mat_idx[r] |
| CodingJob.EncodeBuffers | ECClientLib/jerasure.c:285-298 | the same call on buffers of bytes, for words of 1, 2 or 4 bytes |
| CodingJob.PerformEncodingJob | ECClientLib/ECStoreCoder.c:15-30 | what the striping routine left in the worker buffers becomes a codeword of the padded blocks |
| CodingJob.PerformDecodingJob | ECClientLib/ECStoreCoder.c:32-51 | stripe, pad, encode, lose at most m data blocks: afterwards output buffer r is, byte for byte, the padded block mat_idx[r] |
| Striping.LaneConcat | ECClientLib/ECBlockWorkerIO.c:492-550 | after whole stripes, striping can go on with the next buffer |
| Striping.LaneAt | ECClientLib/ECBlockWorkerIO.c:1098-1143 | where piece j of block b stands in the buffer and in the block |
| Striping.CodingSizeLeast | ECClientLib/ECBlockWorkerIO.c:492-550 | the coding size is the least whole number of pieces that holds what the first block gets |
| StripeWrite.CopyDataToInputBufs | ECClientLib/ECBlockWorkerIO.c:492-550 | the part of the buffer that was handled lies in the blocks, padded to codingSize; it stops only at the end of the buffer or when no further stripe fits, and then after whole stripes; parity buffers start from zero |
| StripeRead.StartReadECBlock | ECClientLib/ECBlockWorkerIO.c:1098-1143 | after every request and every piece received the window is kept and handled minus written is what is under way; the whole block is read exactly when the window holds two requests or the block has one piece |
| StripeRead.WorkerPerformRead | ECClientLib/ECBlockWorkerIO.c:1157-1191 | the buffer holds the bytes, each block was asked for and gave exactly its part, nothing is under way, and at every moment the window was kept |
| FileParts.AlignBufSize | ECClientLib/ecUtils.c:355-373 | the smallest step up to a multiple of the alignment, and not less than the alignment |
| FileParts.WritesMakeLanes | ECClientLib/ECBlockWorkerIO.c:492-550 | appending buffers of whole stripes, the last one of any size, leaves in each block the lane of the whole file |
| FileParts.CodedIsCodingSize | ECClientLib/ECBlockWorkerIO.c:492-550 | the coding sizes of the buffers add up to the coding size of the file |
| FileWrite.WriteBufToServers | ECClientLib/ECBlockWorkerIO.c:595-644 | every data block gets what its input buffer holds, every parity block codingSize bytes, and the input buffers are empty again |
| FileWrite.WorkerPerformWrite | ECClientLib/ECBlockWorkerIO.c:888-920 | round after round the whole user buffer reaches the blocks: each data block grows by its lane, each parity block by the coding size of the buffer |
| FileWrite.WriteFile | ECClientLib/ECBlockWorkerIO.c:888-920 | the same for one user buffer after the other |
| FileRead.EveryReadIsServed | ECClientLib/ECBlockWorkerIO.c:1157-1191 | each read starts at the cursor the earlier reads left and finds exactly its bytes |
| FileRead.ReadFile | ECClientLib/ECBlockWorkerIO.c:1157-1191 | reading with any buffer sizes returns exactly the bytes of the file; every byte of every block was asked for and received once |
| PutThenGet.PutThenGet | ECClientLib/ECBlockWorkerIO.c:492-1191 | put then get is the identity: the bytes returned are those of the buffers written, for any two ways of cutting the file into buffers of whole stripes |
| BlockSizes.Item.IncreFileSize | ECMeta/KeyValueEngine.c:94-166 | every data block grows by its lane of the added bytes, every parity block by the coding size; on a group that has a recorded size the parity is right too, but the data sizes if and only if the last stripe ends inside the first block |
| BlockSizes.SizesMatchClient | ECMeta/KeyValueEngine.c:94-166 | on a fresh group, for a file written in any buffers: the recorded data sizes are the bytes the client appended and add up to the file, the parity sizes are the accumulated coding sizes, and no data block is larger than a parity block |
| BlockSizes.WriteSession | ECMeta/KeyValueEngine.c:94-166 | after any number of write sessions the recorded size of every block is the size of what the client stored in it |
| PipelineSafety.StepKeeps | ECClientFS/PutIO.c:49-143 | every step of the starter, the reader and the writer keeps the invariant over semaphores, flags, indices and chunks |
| PipelineRuns.NoRefillBeforeWritten | ECClientFS/PutIO.c:102-143 | a buffer about to be filled has had its earlier chunk written and acknowledged, and the writer is not working on it |
| PipelineRuns.FlagsMatchSemaphores | ECClientFS/PutIO.c:92-143 | the flags in use equal the jobs queued, active and acknowledged |
| PipelineRuns.WrittenInOrder | ECClientFS/PutIO.c:49-67 | chunks are written in the order they were read, file after file, and at the end all of them |
| PipelineRuns.NoDeadlock | ECClientFS/PutIO.c:211-261 | in every reachable state before completion some thread can step |
| PipelineRuns.RunBounded | ECClientFS/GetIO.c:65-158 | every step uses up a bound: no run goes on for ever |
| PipelineRuns.EveryRunCompletes | ECClientFS/GetIO.c:226-282 | however the threads are interleaved, a run that cannot go on has finished with every file written |
| ClientHandle.ServeStream | ECServer/ECClientHandle.c:411-484 | however recv cuts the stream, commands executed, bytes stored and what is left depend only on the stream, the total asked for is that of the read commands executed, and a buffer as long as every command never runs full |
| StreamFraming.RunPayload | ECServer/ECClientHandle.c:334-374 | payload bytes are stored and never read as commands, whatever their values |
| StreamFraming.PendingClean | ECServer/ECClientHandle.c:411-459 | an unfinished command contains no NUL, and there is none while payload is due |
| MessageBuffer.Buffer.DumpMsgWithCh | ECServer/MessageBuffer.c:32-70 | drops exactly the bytes up to and including the first such byte, or none, and moves the read offset along |
| MessageBuffer.Buffer.DumpMsgWithSize | ECServer/MessageBuffer.c:122-156 | drops exactly that many bytes and moves the rest to the front |
| ClientHandle.Client.WriteDataToDisk | ECServer/ECClientHandle.c:334-374 | stores as much payload as is due and buffered, in order, and reports whether it is complete |
| ClientHandle.Client.GetClientInCmd | ECServer/ECClientHandle.c:376-409 | acts on the command at the front: a write announces its payload, a read its size, which is added to the total asked for, an unknown one ends the server |
| ClientHandle.Client.ProcessClientInCmd | ECServer/ECClientHandle.c:411-459 | handles everything complete and ends where the byte-by-byte meaning of the stream ends; the total asked for is that of the read commands executed |
| ClientHandle.Client.Incoming | ECServer/ECClientHandle.c:461-484 | after every piece the state is what the whole stream received amounts to, and received minus dumped stays equal to the bytes buffered |
| PlacementDesign.EachServerInExactlyCSets | ECMeta/ESetPlacement.c:44-73 | every server is in exactly c of the c * c ESets of its group |
| PlacementDesign.ShareExactlyOne | ECMeta/ESetPlacement.c:44-73 | two servers of different rows share exactly one ESet if and only if one row is row 0 or the row distance is coprime to c |
| Placement.CreateGroupESets | ECMeta/ESetPlacement.c:44-73 | writes the c * c ESets of a group to their places and nothing else |
| Placement.CreateESets | ECMeta/ESetPlacement.c:75-84 | all groups, each at its own offset |
| Placement.NodeOf | ECMeta/ESetPlacement.c:44-84 | node r of a fresh ESet is a server of row r with its own row and column, not failed, and it is server p exactly in the group, the row and the ESets of p |
| Placement.SetServersPlacementGroup | ECMeta/ESetPlacement.c:186-203 | every server knows its group, row and column |
| Placement.AddFailedESets | ECMeta/ECRecoveryManagement.c:159-247 | lists c different ESets, the last one first; in exactly these the node in the row of the failed server becomes failed and recovery is on; every other node, flag, server, row and column is as before |
| Placement.AffectedExactly | ECMeta/ECRecoveryManagement.c:159-247 | over all groups, an ESet contains the failed server if and only if it is listed |
| Placement.FailedExactly | ECMeta/ECRecoveryManagement.c:159-247 | after one failure in a fresh placement the failed nodes are exactly those of the failed server, and the ESets under recovery exactly those that contain it |

## Left out

- Storage: `malloc` failures, freeing, growth of arrays, and the checks that only guard table sizes (w > 30 for logarithm tables, w >= 14 for product tables).
- The choice between the four multiplications by width (`mult_type`): each is proved equal to the product, so the choice does not matter.
- GaloisTables.CreateLogTables: asks for an odd polynomial, which every entry of the program's table is. For an even one the collision test is not enough (GaloisTables.EvenPolynomialUnnoticed has w = 2 and x^2).
- GaloisInverse.InvertBinaryMatrix: `exit(1)` is a result `ok == false`.
- The entries of the ready-made second rows (`cbest_*`) are data: a parameter of CauchyBest.GoodGeneralCodingMatrix, of which only "different and non-zero" is used.
- MatrixDecode.MatrixEncode: for the word sizes 8, 16 and 32; for others the routine ends the process.
- How bytes form words is modelled in ByteWords; word-at-a-time tricks inside the region operations are not.
- Device memory of the packet routines is one array per stripe of w packets; the position of the stripes in the buffers is left out.
- Lists ended by -1 are sequences; the counters of `jerasure_get_stats` are left out.
- `jerasure_bitmatrix_decode`, which repeats `jerasure_matrix_decode` over bits, and `jerasure_make_decoding_bitmatrix`.
- `set_up_ptrs_for_scheduled_decoding` is the list of `set_up_ids_for_scheduled_decoding` applied to the buffers, and is modelled by that list.
- SmartSchedule.SmartBitmatrixToSchedule: asks for at least one coding row; with none the routine writes in front of its lists.
- ScheduleDecode.GenerateDecodingSchedule: asks for different erasures, because for a repeated one the routine counts too many rows and reads entries of `row_ids` that were never written, so it has no defined result; smart schedules for at least one erasure.
- ScheduleDecode.ScheduleDecodeLazy: the same two restrictions, as it calls that routine.
- ScheduleCache.ScheduleDecodeCache: asks for a non-empty list; with an empty one the end mark is used as an index.
- `kMap` in `gcrs_generate_coding_vector`, which is written and never read, and the column encoding of the bit matrix.
- GcrsCreate.CreateDecodingDataBitmatrix: the inverse is stated only for an invertible survivor matrix, since the routine does not report failure; CauchyBits.RecoveryNeverSingular shows there is none.
- GcrsCode.CreateBitmatrix: asks that the k + m points fit in the field of the given width; otherwise i xor (m + j) is no element and the division table is read outside its bounds, which neither this routine nor `gcrs_check_k_m_w` prevents.
- GrsDecoding.GrsCreateDecodingMatrix: data devices only, which is all its caller lists (ECFileHandle.c:415-428); for a parity device the routine clears more than its matrix and calls `grs_generate_coding_vector`, a stub.
- The hand-over between the worker and the coder thread in `workerPerformWrite` and `performEncodingJob`: FileWrite.WorkerPerformWrite uses one worker buffer after the other, and leaves the parity bytes to CodingJob.
- The copying-out after a degraded read (`copyCodedToMainBuf`): the degraded read is followed to the output buffers.
- The older read path (`setBlockWorkerReadSize`, `copyDataToMainBuf`).
- StripeRead.WorkerPerformRead: with a window of one request it asks that the buffer is at most one stripe, since otherwise the loop runs past the last block; the program's window is two. Block servers answer in the order of the requests and do not fail.
- Pipeline: chunks are whole values, and errors from reading or writing local files are left out; the starter is `startPutWork` and `startGetWork`.
- ClientHandle.Client.Incoming: the text of commands is understood by a parameter that must not change its mind when further bytes follow a complete command; the piece fits into the buffer, as `recv` is asked for no more. Sockets, epoll, what create, open, read and close do on the disk, and the answers to the client are left out.
- Placement: the choice of racks and servers for the groups, and what happens to the pending list afterwards.
