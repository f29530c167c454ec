# A verified model of the ALOE kernel, utilities and signal modules

This project models the parts of ALOE whose correctness rests on an argument
that spans several functions or a whole run: a fast form that must agree with a
simple one, shared state that many parties change, and text or packet formats
that must come back as they were written. `dafny verify dfyconfig.toml` checks
all of it.

Code that works in place is modelled by classes and methods with loops, each
tied by its contract to a specification function; the laws are proved about
those functions for all inputs and all runs.

| file | what it models |
|---|---|
| `Gf2.dfy`, `CrcTheory.dfy` | polynomial division over GF(2), CRCs as remainders, what a check detects |
| `Words.dfy`, `CrcEngine.dfy` | 64-bit words as bit vectors and the table-driven CRC engine over them |
| `Resampler.dfy` | the streaming polyphase resampler and the plain filter |
| `Pool.dfy` | the first-fit slot allocator |
| `Handshake.dfy` | the status handshake between a requester, an object and its acknowledgers |
| `Mailbox.dfy` | the time-stamped queues |
| `Scheduler.dfy` | the chain of semaphores that hands a core from object to object |
| `Clock.dfy` | the slot clock and the stamp conversions |
| `CircBuffer.dfy` | the circular buffer and the re-blocking module over it |
| `Packets.dfy` | `str` objects, unhashed `Set` lists, and their packets |
| `Params.dfy`, `Strdata.dfy` | parameter values as text, lists of them as messages |
| `CfgParser.dfy` | the configuration parser |
| `Lists.dfy`, `Arith.dfy` | reversal, division with remainder |

## Where the code does less than it seems to promise

The model follows the code. Each of these is proved as an exact condition.

- `crc_attach` applies the final mask before the backward steps and again after
  them, so with a nonzero mask it gives the CRC only for whole bytes
  (`Crc.AttachIsCrcIff`). With 1 to 7 bits it appends through a pointer that
  was never set; the model requires a whole number of bytes or at least 8 bits.
- The backward loop of `crc_attach` undoes the table only for odd constants with
  their top bit written out (`CrcEngine.UndoesIff`), so for none at order 32
  (`CrcEngine.NotReversibleAt32`); whole bytes never need it.
- `check_CRC` of an intact block is 0 only for masks that x^order fixes
  (`Crc.CheckAfterAddZeroIff`).
- The resampler's returned count is rounded down, so a caller that sends it on
  loses samples unless DECIM divides the ticks of every call, and taps behind
  the last full block of INTER are ignored (`Resampler.CountedIsAllIff`,
  `Resampler.WholeFilterIff`).
- `mem_alloc` of 0 bytes while slot 0 is used registers a chunk without slots,
  whose offset another chunk may share (`Pool.AllocKeepsIff`). The null test of
  `mem_new` can miss a buffer smaller than the pool object, because the division
  is unsigned (`Pool.Pool.New`).
- A status request for the status the object has is never acknowledged
  (`Handshake.CanEndIff`). The object's step is several calls, and a request
  accepted between them makes its own PAUSE request fail
  (`Handshake.OwnAcceptedIff`); a second STEP there leaves it running on and on
  (`Handshake.StuckIsReached`, `Handshake.StuckRunsOn`).
- A reader at stamp 0 receives packets before their slot, because the negated
  type is then 0 (`Mailbox.EarlyIffStampZero`).
- `syncTslot` never clears `last_offset` (`Clock.OffsetSticks`), and the seconds
  of a late stamp do not fit their cast (`Clock.ExactIffInRange`), where the
  incremental and the closed form part (`Clock.RunAgreesIff`, `Clock.FormsPart`).
- A write that fills the last free cell of the circular buffer is accepted and
  empties it (`CircBuffer.WriteAppendsIff`, `CircBuffer.RunIsFifoIff`).
- `str_set` compares the length field with the length plus one and skips the
  update when they agree; the empty string is accepted and ignored
  (`Packets.Str.Set`). A packet is written by that field and read by its NULs,
  so such a member breaks the packet it is put in (`Packets.RoundTripIff`,
  `Packets.StaleLength`).
- `strdata_pop` returns 0 for a value and for an exhausted list alike, and
  strings that hold `||` or end in `|` are split elsewhere
  (`Strdata.StrData.Pop`, `Strdata.ReceivedIff`).
- A packet that is cut inside its last member is read past its end
  (`Packets.CutPacket`), and a configuration line of 168 characters or more loses
  one (`CfgParser.LineWholeIff`).
- Unsigned values above the range of int print as negative numbers, which the
  casts on the way back undo (`Params.PrintsAsIntIff`, `Params.CastBack`).
- Sets and configurations come out of one round trip reversed
  (`Packets.RoundTripIff`, `CfgParser.ParseRender`); the first configuration line
  outside any section opens one that takes the rest of the file.

## Model

| member | source | states |
|---|---|---|
| `CrcEngine.LteConstants` | ALOE_DOCENCIA_20210116/modules/CRC/src/CRC_functions.h:22-25 | each of the four LTE constants writes out its top bit at its own order and is odd |
| `CrcEngine.ExplicitIsDivisor` | ALOE_DOCENCIA_20210116/modules/CRC/src/CRC_functions.h:22-25 | such a constant is exactly the polynomial the table divides by, and can be run backwards |
| `CrcEngine.Engine.GenCrcTable` | ALOE_DOCENCIA_20210116/modules/CRC/src/CRC_functions.c:37-51 | after the double loop, entry i is the remainder of i(x) * x^order, for all 256 byte values and whatever bits the constant has at or above the order |
| `CrcEngine.Engine.CrcInit` | ALOE_DOCENCIA_20210116/modules/CRC/src/CRC_functions.c:99-131 | an order that is no multiple of 8 is refused; otherwise, for every constant, the engine is left with the complete table of its divisor, zero start value and zero mask; an odd constant with its top bit written out is its own divisor and can be reversed |
| `CrcEngine.Engine.SetInit` | ALOE_DOCENCIA_20210116/modules/CRC/src/CRC_functions.c:80-88 | under the mask of k low bits the value is refused exactly when it has a bit above them, and it is stored even then |
| `CrcEngine.MaskKeepsIff` | ALOE_DOCENCIA_20210116/modules/CRC/src/CRC_functions.c:80-97 | masking leaves a word as it is exactly when no bit above the order is set |
| `CrcEngine.Engine.Crctable` | ALOE_DOCENCIA_20210116/modules/CRC/src/CRC_functions.c:54-67 | the register that is never masked while it runs returns, for every byte string that fits, the remainder of schoolbook division with start value and mask |
| `CrcEngine.TableStep` | ALOE_DOCENCIA_20210116/modules/CRC/src/CRC_functions.c:62-66 | one table step on a word with any garbage above the order is eight division steps on its low bits |
| `CrcEngine.WordShift` | ALOE_DOCENCIA_20210116/modules/CRC/src/CRC_functions.c:44-48 | on the low bits of a word with anything above them, the shift-and-add multiplies by x modulo the divisor |
| `CrcEngine.WordBack` | ALOE_DOCENCIA_20210116/modules/CRC/src/CRC_functions.c:73-76 | with a reversible constant the backward shift of a word divides by x modulo the divisor |
| `CrcEngine.UndoesIff` | ALOE_DOCENCIA_20210116/modules/CRC/src/CRC_functions.c:44-48 | the backward step undoes the forward step for every register exactly when the constant is odd, has its top bit written out and nothing above it |
| `CrcEngine.NotReversibleAt32` | ALOE_DOCENCIA_20210116/modules/CRC/src/CRC_functions.c:69-78 | at order 32 no constant that fits an unsigned int meets that condition |
| `Gf2.BackThenX` | ALOE_DOCENCIA_20210116/modules/CRC/src/CRC_functions.c:73-76 | running one backward step and then one forward step gives every register back |
| `Gf2.BackNTimesXN` | ALOE_DOCENCIA_20210116/modules/CRC/src/CRC_functions.c:69-78 | k backward steps undo multiplication by x^k for every register, since the polynomial is odd |
| `CrcEngine.Engine.ReverseCrcBit` | ALOE_DOCENCIA_20210116/modules/CRC/src/CRC_functions.c:69-78 | the result is masked for every constant; with a reversible one it is the start divided by x nbits times, with the mask applied once more |
| `CrcEngine.Engine.CrcAttach` | ALOE_DOCENCIA_20210116/modules/CRC/src/CRC_functions.c:140-178 | for every constant and every length the code handles: the message stays, `order` bits are appended and nothing behind them changes; they are the attach value of the unpadded message for whole bytes, and for all other lengths if the constant is reversible; messages that are too long are refused untouched |
| `Crc.AttachIsCrcIff` | ALOE_DOCENCIA_20210116/modules/CRC/src/CRC_functions.c:140-178 | padding to a byte and running backwards gives the CRC of the unpadded message exactly when there was no padding or the mask is zero |
| `Crc.AttachGivesMultiple` | ALOE_DOCENCIA_20210116/modules/CRC/src/CRC_functions.c:140-178 | with zero start value and mask, a message of any bit length followed by its attached CRC is a polynomial multiple of the generator |
| `CrcEngine.Engine.PackBits` | ALOE_DOCENCIA_20210116/modules/CRC/src/CRC_functions.c:180-188 | the nof low bits of the value, leading bit first, and no other char written |
| `CrcEngine.Engine.UnpackBits` | ALOE_DOCENCIA_20210116/modules/CRC/src/CRC_functions.c:190-200 | inverse of packing: the word whose low bits are the nof chars read |
| `CrcEngine.Engine.AddCrc` | ALOE_DOCENCIA_20210116/modules/CRC/src/CRC_functions.c:202-217 | a block is followed by its CRC, leading byte first; the block and what lies behind are unchanged |
| `CrcEngine.Engine.CheckCrc` | ALOE_DOCENCIA_20210116/modules/CRC/src/CRC_functions.c:219-226 | the value returned is the CRC of the whole received block, and the block is not changed |
| `Crc.CheckAfterAdd` | ALOE_DOCENCIA_20210116/modules/CRC/src/CRC_functions.c:202-226 | checking a block that carries its own CRC leaves one constant, whatever the message and the start value |
| `Crc.CheckAfterAddZeroIff` | ALOE_DOCENCIA_20210116/modules/CRC/src/CRC_functions.c:202-226 | that constant is 0 exactly when multiplication by x^order fixes the mask; in particular for mask 0 |
| `Crc.CheckZeroIffMultiple` | ALOE_DOCENCIA_20210116/modules/CRC/src/CRC_functions.c:202-226 | with zero start value and mask the check accepts exactly the polynomial multiples of the generator |
| `Crc.ErrorUndetectedIff` | ALOE_DOCENCIA_20210116/modules/CRC/src/CRC_functions.c:202-226 | for every start value, mask and block, an error pattern leaves the check unchanged exactly when it is a multiple of the generator |
| `Crc.BurstDetected` | ALOE_DOCENCIA_20210116/modules/CRC/src/CRC_functions.c:202-226 | every nonzero error within `order` consecutive bits changes the check |
| `Crc.RegisterAppend` | ALOE_DOCENCIA_20210116/modules/CRC/src/CRC_functions.c:54-67 | the register after two strings is the register started from the first one's value: the CRC can be continued |
| `Gf2.Division` | ALOE_DOCENCIA_20210116/modules/CRC/src/CRC_functions.c:37-51 | the remainder used as the reference really is one: s = quotient * p + remainder |
| `Gf2.RemUnique` | ALOE_DOCENCIA_20210116/modules/CRC/src/CRC_functions.c:37-51 | and the only one: any short r with s = q * p + r is the remainder |
| `Gf2.MultipleIffRemZero` | ALOE_DOCENCIA_20210116/modules/CRC/src/CRC_functions.c:37-51 | a string has remainder 0 exactly when some polynomial times p equals it |
| `Resampler.Resampler.StreamConvIntDec` | ALOE_DOCENCIA_20210116/modules/CPLX_FILTER/src/CPLX_FILTER_functions.c:171-220 | whatever was read before, this call writes exactly the next samples of: stuff zeros, convolve, keep every DECIM-th; nothing behind them; the counters and the delay line are ready for the next call |
| `Resampler.StuffFilterKeep` | ALOE_DOCENCIA_20210116/modules/CPLX_FILTER/src/CPLX_FILTER_functions.c:198-217 | what is written is the third of three separate stages: stuff zeros, sum x[t - j] * h[j] over the used taps at every tick, keep ticks 0, DECIM, 2 * DECIM up to the last one |
| `Resampler.StreamedScales` | ALOE_DOCENCIA_20210116/modules/CPLX_FILTER/src/CPLX_FILTER_functions.c:198-217 | the operation is linear over complex scalars: a stream times c gives every sample written times c |
| `Resampler.StreamedAdds` | ALOE_DOCENCIA_20210116/modules/CPLX_FILTER/src/CPLX_FILTER_functions.c:198-217 | the sum of two streams of equal length gives the sum of what is written |
| `Resampler.MulUnits` | ALOE_DOCENCIA_20210116/modules/CPLX_FILTER/src/CPLX_FILTER_functions.c:209 | the product of a sample and a tap is the complex one: 1 is its unit on both sides and i * i = -1 |
| `Resampler.MulAdditive` | ALOE_DOCENCIA_20210116/modules/CPLX_FILTER/src/CPLX_FILTER_functions.c:209 | it is additive in each argument |
| `Resampler.MulReal` | ALOE_DOCENCIA_20210116/modules/CPLX_FILTER/src/CPLX_FILTER_functions.c:209 | real factors come out of either side and scale both parts |
| `Resampler.Parts` | ALOE_DOCENCIA_20210116/modules/CPLX_FILTER/src/CPLX_FILTER_functions.c:209 | every number is its real part plus i times its imaginary part, over the arithmetic of the reals |
| `Resampler.AnySplit` | ALOE_DOCENCIA_20210116/modules/CPLX_FILTER/src/CPLX_FILTER_functions.c:171-220 | cutting a stream into any blocks, empty ones included, writes the same samples as one call |
| `Resampler.ReturnedCount` | ALOE_DOCENCIA_20210116/modules/CPLX_FILTER/src/CPLX_FILTER_functions.c:198-219 | a call writes the rounded-down count it returns, or one sample more exactly when its left-over ticks reach another output from the phase it starts at |
| `Resampler.CountedIsAllIff` | ALOE_DOCENCIA_20210116/modules/CPLX_FILTER/src/CPLX_FILTER_functions.c:171-220 | over any run of calls, sending on as many samples of each call as it returned sends the whole output exactly when DECIM divides the ticks of every call; otherwise samples are lost |
| `Resampler.ConvBlock` | ALOE_DOCENCIA_20210116/modules/CPLX_FILTER/src/CPLX_FILTER_functions.c:206-212 | inside one block of taps only the tap of the current phase meets a sample, so the polyphase sum is the full convolution |
| `Resampler.WholeFilterIff` | ALOE_DOCENCIA_20210116/modules/CPLX_FILTER/src/CPLX_FILTER_functions.c:206-212 | the loop computes the convolution with the whole filter, for every stream, exactly when the taps behind the last full block of INTER are zero; none are left over exactly when INTER divides the length |
| `Resampler.ConvPrefix` | ALOE_DOCENCIA_20210116/modules/CPLX_FILTER/src/CPLX_FILTER_functions.c:171-220 | causality: samples that arrive later never change an output that is due |
| `Resampler.Push` | ALOE_DOCENCIA_20210116/modules/CPLX_FILTER/src/CPLX_FILTER_functions.c:199-204 | shifting the delay line keeps it the last samples of the stream, newest first |
| `Resampler.PlainFilter.StreamConv` | ALOE_DOCENCIA_20210116/modules/CPLX_FILTER/src/CPLX_FILTER_functions.c:136-161 | over any sequence of calls the outputs are the convolution of the whole stream, one per sample |
| `Resampler.PlainOutputs` | ALOE_DOCENCIA_20210116/modules/CPLX_FILTER/src/CPLX_FILTER_functions.c:136-161 | at rate 1:1 the resampler's reference is one output per sample, the sum of x[k - j] * h[j] over all taps |
| `Pool.Pool.New` | ALOE_DOCENCIA_20210116/hw_api/lnx/src/mem.c:75-135 | for every buffer size: a pool exactly when the pool object and one slot fit, then consistent, empty, inside the buffer, with the largest number of slots and data on a multiple of 4 that lies inside the slot flags; a buffer smaller than the object gives null or fails the assertion, as the unsigned division decides |
| `Pool.Pool.Alloc` | ALOE_DOCENCIA_20210116/hw_api/lnx/src/mem.c:152-210 | the search and fill loops make exactly the transition AllocSpec, about which the lemmas below speak |
| `Pool.Pool.Search` | ALOE_DOCENCIA_20210116/hw_api/lnx/src/mem.c:181-196 | the single pass finds the window that the lowest-start specification names, or reports that there is none |
| `Pool.AllocIsFirstFit` | ALOE_DOCENCIA_20210116/hw_api/lnx/src/mem.c:152-210 | a positive request that succeeds takes the lowest-starting run of exactly ceil(size / slot_sz) free slots and the first free descriptor, and no other flag or descriptor changes; one that fails changes nothing |
| `Pool.AllocEmpty` | ALOE_DOCENCIA_20210116/hw_api/lnx/src/mem.c:152-210 | a request of 0 bytes takes slot 0 if it is free; if not, it takes no slot and gets the offset of slot 1 |
| `Pool.AllocFailsIff` | ALOE_DOCENCIA_20210116/hw_api/lnx/src/mem.c:167-209 | a positive request fails exactly when no run of enough free slots exists; running out of descriptors never fails it first |
| `Pool.NoDescriptorNoSlot` | ALOE_DOCENCIA_20210116/hw_api/lnx/src/mem.c:167-176 | pigeonhole: when every chunk descriptor is live, every slot is used |
| `Pool.AllocKeepsIff` | ALOE_DOCENCIA_20210116/hw_api/lnx/src/mem.c:152-210 | consistency survives an allocation exactly when the request is positive, or slot 0 is free, or no descriptor is free |
| `Pool.Pool.Free` | ALOE_DOCENCIA_20210116/hw_api/lnx/src/mem.c:226-266 | makes exactly the transition FreeSpec and keeps the pool consistent, for valid and invalid offsets |
| `Pool.FreeExact` | ALOE_DOCENCIA_20210116/hw_api/lnx/src/mem.c:242-265 | a free returns 1 exactly when some live chunk has the offset; then that chunk's slots and descriptor become free and nothing else changes; with result 0 nothing changes |
| `Pool.StaysAllocated` | ALOE_DOCENCIA_20210116/hw_api/lnx/src/mem.c:152-266 | over every run of positive requests and frees of other offsets a live chunk keeps its descriptor and its slots stay used |
| `Pool.FreeKeeps` | ALOE_DOCENCIA_20210116/hw_api/lnx/src/mem.c:226-266 | any free, also of an offset never allocated, keeps flags and live chunks in agreement |
| `Pool.AllocThenFree` | ALOE_DOCENCIA_20210116/hw_api/lnx/src/mem.c:152-266 | freeing what was just allocated restores the slot map and the chunk table exactly |
| `Pool.RunConsistent` | ALOE_DOCENCIA_20210116/hw_api/lnx/src/mem.c:152-266 | every run of positive requests and arbitrary frees keeps live chunks disjoint, inside the pool, and covering exactly the set flags |
| `Pool.CoveredOnce` | ALOE_DOCENCIA_20210116/hw_api/lnx/src/mem.c:152-266 | a set flag is covered by exactly one live chunk |
| `Pool.OffsetsUnique` | ALOE_DOCENCIA_20210116/hw_api/lnx/src/mem.c:242-246 | two live chunks never share an offset, so the search in a free finds the right one |
| `Handshake.InvFromCreation` | ALOE_DOCENCIA_20210116/hw_api/lnx/src/hwapi_linux_proc.c:189-200 | from the record of a new object, in every interleaving progress stays in {0, 1, 2} with nothing pending at 0, and until a request is accepted its gets return 1 from the time of creation on and 0 before |
| `Handshake.InvAlways` | ALOE_DOCENCIA_20210116/hw_api/lnx/src/hwapi_linux_proc.c:353-450 | every call of every party keeps that |
| `Handshake.PhasesRefine` | ALOE_DOCENCIA_20210116/hw_api/lnx/src/hwapi_linux_proc.c:353-450 | between two accepted requests the record walks Pending, Announced, Adopted, Acked, whatever the order of gets, acks and refused requests |
| `Handshake.GetReturnsIff` | ALOE_DOCENCIA_20210116/hw_api/lnx/src/hwapi_linux_proc.c:353-374 | a get returns the requested status exactly when it is due itself or an earlier get was due; before that it returns the old one |
| `Handshake.NextAcceptedIff` | ALOE_DOCENCIA_20210116/hw_api/lnx/src/hwapi_linux_proc.c:379-420 | an unforced request is accepted exactly when the run since the last one holds a due get, then another get, then an ack |
| `Handshake.SameStatusNeverEnds` | ALOE_DOCENCIA_20210116/hw_api/lnx/src/hwapi_linux_proc.c:379-450 | a request for the status the object already has is never over: no run of unforced calls acknowledges it |
| `Handshake.CanEndIff` | ALOE_DOCENCIA_20210116/hw_api/lnx/src/hwapi_linux_proc.c:379-450 | an accepted request can be brought to its end exactly when it asks for another status |
| `Handshake.ProcDb.StatusGet` | ALOE_DOCENCIA_20210116/hw_api/lnx/src/hwapi_linux_proc.c:353-374 | only the caller's record changes, by the transition Get |
| `Handshake.ProcDb.StatusNew` | ALOE_DOCENCIA_20210116/hw_api/lnx/src/hwapi_linux_proc.c:379-420 | 0, 1 and -1 paths: a terminating object and an unknown id change nothing, otherwise only the first record with the id changes, by the transition New |
| `Handshake.ReturnedFromStampOn` | ALOE_DOCENCIA_20210116/hw_api/lnx/src/hwapi_linux_proc.c:353-420 | after a request for another status with stamp t and any quiet run, a get returns that status exactly when it or an earlier get is at t or later, and the old status before; the stamp 0 means the time of the request, and a forced request is taken in any state |
| `Handshake.NextTakenIff` | ALOE_DOCENCIA_20210116/hw_api/lnx/src/hwapi_linux_proc.c:379-450 | the next unforced request is refused without effect until a get at t or later, another get and an ack have followed each other, and is taken after that |
| `Handshake.AckSucceedsIff` | ALOE_DOCENCIA_20210116/hw_api/lnx/src/hwapi_linux_proc.c:425-450 | an ack is answered with 1 exactly when it completes the request, and with 0 otherwise |
| `Handshake.ProcDb.StatusAck` | ALOE_DOCENCIA_20210116/hw_api/lnx/src/hwapi_linux_proc.c:425-450 | an unknown id changes nothing, otherwise only the first record with the id changes |
| `Handshake.ProcDb.StatusPass` | ALOE_DOCENCIA_20210116/sw_api/src/phal_services.c:293-320 | one pass of the loop of Status makes the transition Pass, with any requests and acks of other parties between its calls |
| `Handshake.PassOutcome` | ALOE_DOCENCIA_20210116/sw_api/src/phal_services.c:298-318 | a pass returns RUN exactly when its first get returns RUN or STEP, STOP exactly for STOP and ABNSTOP, INIT exactly for INIT before initialisation is over, and waits otherwise; unless it steps, the record changes by that get alone, plus one stamp for RUN |
| `Handshake.TstampCountsRuns` | ALOE_DOCENCIA_20210116/sw_api/src/phal_services.c:293-320 | in every run of passes, relinquishes and foreign calls the object's stamp grows by exactly the number of passes that returned RUN |
| `Handshake.OwnAcceptedIff` | ALOE_DOCENCIA_20210116/sw_api/src/phal_services.c:309-315 | in a pass that steps, the object's own PAUSE request is accepted exactly when no request by another party is accepted before it during the step and the object was not already in STEP with a request still pending |
| `Handshake.StepRunsOnce` | ALOE_DOCENCIA_20210116/sw_api/src/phal_services.c:293-320 | a step that no accepted request disturbs makes Status return RUN with the stamp advanced by one and leaves the object with an announced PAUSE |
| `Handshake.StepDespiteAcks` | ALOE_DOCENCIA_20210116/sw_api/src/phal_services.c:293-320 | a due STEP request always ends like that when the other parties only acknowledge, however their acks interleave |
| `Handshake.NoRunAfterStep` | ALOE_DOCENCIA_20210116/sw_api/src/phal_services.c:293-320 | after such a step no pass returns RUN and the stamp stands still until another request is accepted |
| `Handshake.StuckIsReached` | ALOE_DOCENCIA_20210116/sw_api/src/phal_services.c:309-315 | from the record of a new object, a second STEP request that falls between the object's ack and its own request leaves STEP pending while in STEP |
| `Handshake.StuckRunsOn` | ALOE_DOCENCIA_20210116/sw_api/src/phal_services.c:293-320 | such an object returns RUN in every later pass, and its record never changes, until a request is forced |
| `Handshake.InitialIff` | ALOE_DOCENCIA_20210116/sw_api/src/phal_services.c:239-320 | after any run of passes, relinquishes and calls by others, a pass returns INIT exactly when its get does and the object has never relinquished in INIT |
| `Mailbox.Interface.Send` | ALOE_DOCENCIA_20210116/hw_api/lnx/src/hwapi_linux_itf.c:536-644 | a closed interface and an oversized packet give -1, a full queue 0; otherwise the packet goes to the end with the type of its reader slot; without a delay the stamp in its header is whatever the unset variable held |
| `Mailbox.Interface.Receive` | ALOE_DOCENCIA_20210116/hw_api/lnx/src/hwapi_linux_itf.c:699-799 | takes the first message of the lowest type not above the reader's stamp and removes only that one, whole exactly when it fits the user's buffer; an empty selection changes nothing |
| `Mailbox.Lowest` | ALOE_DOCENCIA_20210116/hw_api/lnx/src/hwapi_linux_itf.c:748-753 | the selection rule itself: lowest type, then oldest, and -1 exactly when all types are above the bound |
| `Mailbox.QueueIsFifo` | ALOE_DOCENCIA_20210116/hw_api/lnx/src/hwapi_linux_itf.c:576-628 | with non-decreasing writer stamps, for every delay and all reader stamps, every run delivers in send order: delivered followed by pending is accepted |
| `Mailbox.LatencyKept` | ALOE_DOCENCIA_20210116/hw_api/lnx/src/hwapi_linux_itf.c:576-628 | in every run each delivered packet is the one of a particular accepted send, with its body; a reader at stamp 1 or later gets it only from the send's stamp plus the interface's own delay on, or the default delay if that is 0, plus the external delay exactly on external links; a forced slot replaces this |
| `Mailbox.DeliveredWhenDue` | ALOE_DOCENCIA_20210116/hw_api/lnx/src/hwapi_linux_itf.c:536-799 | and not later: after any run with non-decreasing writer stamps a receive takes the packet of the first send not yet delivered exactly when that send's slot has come, at once if both delays are 0 |
| `Mailbox.TypeIsFifo` | ALOE_DOCENCIA_20210116/hw_api/lnx/src/hwapi_linux_itf.c:536-799 | whatever the stamps, packets of the same type are delivered in sending order |
| `Mailbox.ReaderTakes` | ALOE_DOCENCIA_20210116/hw_api/lnx/src/hwapi_linux_itf.c:748-753 | a daemon takes the head of the queue, due or not; an object from stamp 1 on takes the oldest packet of the lowest type, if one is due |
| `Mailbox.EarlyIffStampZero` | ALOE_DOCENCIA_20210116/hw_api/lnx/src/hwapi_linux_itf.c:748-753 | in every run a delivery comes before its slot exactly when the reader's stamp was 0 |
| `Mailbox.NothingIffNotDue` | ALOE_DOCENCIA_20210116/hw_api/lnx/src/hwapi_linux_itf.c:536-799 | after any run with non-decreasing writer stamps a receive takes the first accepted packet that is not yet delivered, and from stamp 1 on finds nothing exactly when there is none or it is not due |
| `Mailbox.NothingLost` | ALOE_DOCENCIA_20210116/hw_api/lnx/src/hwapi_linux_itf.c:536-799 | for arbitrary stamps, delivered and pending packets together are the accepted ones, as multisets |
| `Scheduler.AlwaysInv` | ALOE_DOCENCIA_20210116/hw_api/lnx/src/hwapi_linux_base.c:465-469 | in every run every semaphore has value + waits = 1 + posts |
| `Scheduler.RunBounded` | ALOE_DOCENCIA_20210116/hw_api/lnx/src/hwapi_linux_base.c:465-469 | after S time slots the object at position k has passed its wait at most S + 2k + 1 times, in every run |
| `Scheduler.QuiescentExact` | ALOE_DOCENCIA_20210116/hw_api/lnx/src/hwapi_linux_base.c:465-469 | and exactly that often once no object can move |
| `Scheduler.NoDeadlock` | ALOE_DOCENCIA_20210116/hw_api/lnx/src/hwapi_linux_base.c:465-469 | as long as work is left in a slot, some object can post or pass |
| `Scheduler.SlotWorkIsFixed` | ALOE_DOCENCIA_20210116/hw_api/lnx/src/hwapi_linux_base.c:465-469 | between two slots the number of moves is bounded by the work left, and the core stands still exactly when all of it is done: order does not matter |
| `Scheduler.OneSlotOneRound` | ALOE_DOCENCIA_20210116/hw_api/lnx/src/hwapi_backd_exec.c:77-83 | one time slot lets every object post once and pass once, no more and no less |
| `Scheduler.ChainOrder` | ALOE_DOCENCIA_20210116/hw_api/lnx/src/hwapi_linux_base.c:465-469 | within a slot object k + 1 resumes only after object k has resumed and posted |
| `Scheduler.StartInv` | ALOE_DOCENCIA_20210116/hw_api/lnx/src/hwapi_backd_mem.c:296 | semaphores that start at 1 satisfy the conservation law |
| `Scheduler.Node.PostObjects` | ALOE_DOCENCIA_20210116/hw_api/lnx/src/hwapi_backd_exec.c:77-83 | the next slot begins on every core: one added to each first semaphore and nothing else |
| `Scheduler.Core.RelinquishPost` | ALOE_DOCENCIA_20210116/hw_api/lnx/src/hwapi_linux_base.c:433-468 | marks the object, remembers its stamp and adds one to the next semaphore only |
| `Scheduler.Core.RelinquishPass` | ALOE_DOCENCIA_20210116/hw_api/lnx/src/hwapi_linux_base.c:469-475 | takes one from its own semaphore; the new stamp is the remembered one plus 1 |
| `Clock.SlotClock.SyncTslot` | ALOE_DOCENCIA_20210116/hw_api/lnx/src/hwapi_backd_exec.c:169-224 | makes exactly the transition Sync, in which a jump converts the stamp and any other tick adds a slot length; from a slot that starts on time the next one does exactly if no jump lands out of range |
| `Clock.AlwaysOnTimeIff` | ALOE_DOCENCIA_20210116/hw_api/lnx/src/hwapi_backd_exec.c:169-224 | over every run of ticks and requests the slot start is slot number times slot length at every moment, microseconds below one million, exactly when every jump lands in range |
| `Clock.RunAgreesIff` | ALOE_DOCENCIA_20210116/hw_api/lnx/src/hwapi_backd_exec.c:169-224 | after such a run the slot start equals the conversion of the slot number exactly when that number is in range |
| `Clock.StepAgreesIff` | ALOE_DOCENCIA_20210116/hw_api/lnx/src/hwapi_backd_exec.c:188-195 | from an agreeing slot in range, one incremental step agrees with the closed form exactly when the next slot is in range |
| `Clock.FormsPart` | ALOE_DOCENCIA_20210116/hw_api/lnx/src/hwapi_backd_exec.c:188-195 | with slots of two seconds the two forms part at slot 0x40000000 |
| `Clock.RoundTrip` | ALOE_DOCENCIA_20210116/hw_api/lnx/src/hwapi_linux_time.c:186-208 | stamp to time and back is the identity for every stamp in range |
| `Clock.StampOfTimeIff` | ALOE_DOCENCIA_20210116/hw_api/lnx/src/hwapi_linux_time.c:186-208 | a time has stamp t exactly when it lies between the starts of slots t and t + 1 |
| `Clock.ExactIffInRange` | ALOE_DOCENCIA_20210116/hw_api/lnx/src/hwapi_linux_time.c:199-208 | the conversion is exact exactly when the seconds fit an int; otherwise the cast loses a multiple of 2^32 |
| `Clock.ShortSlotsInRange` | ALOE_DOCENCIA_20210116/hw_api/lnx/src/hwapi_linux_time.c:199-208 | with slots of at most one second every int stamp is in range |
| `Clock.OffsetSticks` | ALOE_DOCENCIA_20210116/hw_api/lnx/src/hwapi_backd_exec.c:177-215 | the extra slot added by later jumps is set by the first backward adjustment and never cleared |
| `Clock.AdjustThenJump` | ALOE_DOCENCIA_20210116/hw_api/lnx/src/hwapi_backd_exec.c:177-215 | a request with an adjustment costs one ordinary slot and jumps at the tick after it |
| `Clock.LastRequestWins` | ALOE_DOCENCIA_20210116/hw_api/lnx/src/hwapi_linux_time.c:126-135 | after any run, a stamp requested without adjustment decides the next tick: it jumps one slot behind the stamp, or two if a tick so far met a backward adjustment |
| `Clock.LastRequestArms` | ALOE_DOCENCIA_20210116/hw_api/lnx/src/hwapi_backd_exec.c:200-215 | the timer is armed with the adjustment of the last request since the last tick, a negative one counted from the end of a slot, and left alone when there was none |
| `CircBuffer.CBuffer.constructor` | ALOE_DOCENCIA_20210116/modules/CIRC_BUFFER/src/CIRC_BUFFER_functions.c:180-195 | equal indices: the buffer starts empty with all of its cells free |
| `CircBuffer.CBuffer.Write` | ALOE_DOCENCIA_20210116/modules/CIRC_BUFFER/src/CIRC_BUFFER_functions.c:207-241 | refused exactly when the block exceeds the room, with data and write index unchanged; otherwise cells and index are those of storing sample by sample, and the contents become Written of the old ones |
| `CircBuffer.CBuffer.Read` | ALOE_DOCENCIA_20210116/modules/CIRC_BUFFER/src/CIRC_BUFFER_functions.c:251-291 | refused exactly when too few samples are stored, with output and read index unchanged; otherwise the oldest samples in order, and the rest stays |
| `CircBuffer.WriteAppendsIff` | ALOE_DOCENCIA_20210116/modules/CIRC_BUFFER/src/CIRC_BUFFER_functions.c:217-225 | for all positions of the indices, storing a block that fits the room leaves the old contents followed by the block between the indices exactly when a cell stays free, and makes the indices meet when none does |
| `CircBuffer.RunIsFifoIff` | ALOE_DOCENCIA_20210116/modules/CIRC_BUFFER/src/CIRC_BUFFER_functions.c:207-291 | over every run of writes and reads, refused ones included, what was read followed by the contents is the accepted input exactly when no accepted block took the last free cell |
| `CircBuffer.Reblocker.Work` | ALOE_DOCENCIA_20210116/modules/CIRC_BUFFER/src/CIRC_BUFFER.c:109-155 | one call stores the block and sends at most one output block, as WorkSpec says; a refused block ends the call at once |
| `CircBuffer.WorkSendsIff` | ALOE_DOCENCIA_20210116/modules/CIRC_BUFFER/src/CIRC_BUFFER.c:134-155 | a call fails exactly when the block exceeds the room, without effect; else, if a cell stays free, it sends one output block of the oldest samples exactly when enough are stored |
| `CircBuffer.AllWholeBlocksSent` | ALOE_DOCENCIA_20210116/modules/CIRC_BUFFER/src/CIRC_BUFFER.c:109-155 | with blocks no longer than an output block, none of which takes the last free cell, every run has sent every whole output block of its accepted input and keeps less than one |
| `CircBuffer.WorkIsFifoIff` | ALOE_DOCENCIA_20210116/modules/CIRC_BUFFER/src/CIRC_BUFFER.c:109-155 | over every run output + contents = accepted input exactly when no accepted block filled the last free cell; then the output is a prefix of the accepted input |
| `CircBuffer.LossCount` | ALOE_DOCENCIA_20210116/modules/CIRC_BUFFER/src/CIRC_BUFFER_functions.c:207-291 | samples once lost never come back, and a block that takes the last free cell loses some |
| `Packets.Str.Set` | ALOE_DOCENCIA_20210116/utils/src/str.c:145-167 | empty strings are answered with 1 and oversized ones with 0, and change nothing; otherwise the text is the string, and the length field is right exactly when it did not hold one more than the new length |
| `Packets.SetLenIff` | ALOE_DOCENCIA_20210116/utils/src/str.c:145-167 | in that case the field stays one too large |
| `Packets.FreshRight` | ALOE_DOCENCIA_20210116/utils/src/str.c:64-76 | a fresh object has the text and the length of its string |
| `Packets.Str.Get` | ALOE_DOCENCIA_20210116/utils/src/str.c:181-199 | a copy of at most max_len - 1 characters, a NUL, and nothing else written; -1 for an empty object |
| `Packets.StrToPkt` | ALOE_DOCENCIA_20210116/utils/src/str.c:273-298 | all or nothing: as many characters as the length field says and a NUL, or the packet and the cursor unchanged |
| `Packets.SetToPkt` | ALOE_DOCENCIA_20210116/utils/src/set.c:391-423 | succeeds exactly when the list has at most 127 members and the packet fits; then exactly the packet is written and the cursor stands behind it; no byte outside the range is touched |
| `Packets.SetFromPkt` | ALOE_DOCENCIA_20210116/utils/src/set.c:425-458 | reads what ReadList says of the bytes, for malformed packets too, with its own outcomes for a failed assertion and for reads C does not define |
| `Packets.RoundTripIff` | ALOE_DOCENCIA_20210116/utils/src/set.c:391-458 | reading a written packet consumes exactly its bytes and gives the texts of the list, reversed, exactly when every member's length field is the length of its text |
| `Packets.StaleLength` | ALOE_DOCENCIA_20210116/utils/src/set.c:391-458 | a list on which it fails: a member set to "ab" and then to "a" makes the reader stop one member early with an empty string in its place |
| `Packets.CutPacket` | ALOE_DOCENCIA_20210116/utils/src/set.c:425-458 | a packet that ends early reads as null at a cut between members, fails the assertion at a cut inside a member that is not the last, and is read whole, past its end, at a cut inside the last one |
| `Packets.TwoRoundTrips` | ALOE_DOCENCIA_20210116/utils/src/set.c:391-458 | what was read is made of fresh objects, and sending it on gives the original texts in order |
| `Lists.ReverseTwice` | ALOE_DOCENCIA_20210116/utils/src/set.c:218-240 | two reversals cancel, for the lists that put every member in front |
| `Params.ParamRoundTrip` | ALOE_DOCENCIA_20210116/utils/src/params.c:123-249 | every integer, hexadecimal and string value comes back from its text as the same value of its type |
| `Params.CastIff` | ALOE_DOCENCIA_20210116/utils/src/params.c:123-173 | a cast changes a number exactly when it is outside the type, and then by a multiple of the type's size |
| `Params.DecimalText` | ALOE_DOCENCIA_20210116/utils/src/params.c:192-218 | decimal text digit by digit: one more digit at its end is ten times the number plus that digit, and a minus sign negates |
| `Params.HexText` | ALOE_DOCENCIA_20210116/utils/src/params.c:221-224 | hexadecimal text is 0x and lower-case digits, digit by digit |
| `Params.PrintsAsIntIff` | ALOE_DOCENCIA_20210116/utils/src/params.c:192-218 | the text is that of the value exactly when the value fits an int; a larger unsigned one prints as negative |
| `Params.AtoiReads` | ALOE_DOCENCIA_20210116/utils/src/params.c:123-173 | blanks in front, a sign of either kind and anything behind the digits do not change the number read |
| `Params.DecimalRoundTrip` | ALOE_DOCENCIA_20210116/utils/src/params.c:192-232 | decimal text of any int, sign included, is read back as the same number |
| `Params.HexRoundTrip` | ALOE_DOCENCIA_20210116/utils/src/params.c:192-232 | 0x and hexadecimal digits are read back as the same number |
| `Params.CastBack` | ALOE_DOCENCIA_20210116/utils/src/params.c:123-173 | printing an unsigned value with %d and casting what was parsed loses nothing, at every width |
| `Strdata.StrData.Push` | ALOE_DOCENCIA_20210116/utils/src/strdata.c:60-70 | the text of the value goes in front of the list |
| `Strdata.StrData.Pop` | ALOE_DOCENCIA_20210116/utils/src/strdata.c:72-81 | walks the list from its front; the code returned does not tell a value from an exhausted list |
| `Strdata.StrData.Write` | ALOE_DOCENCIA_20210116/utils/src/strdata.c:83-116 | the text of the list with a separator behind each string, and an emptied list |
| `Strdata.StrData.Read` | ALOE_DOCENCIA_20210116/utils/src/strdata.c:118-164 | for every text, the strings before the separators, in front of one another; the number returned counts them |
| `Strdata.DecodeEncodeIff` | ALOE_DOCENCIA_20210116/utils/src/strdata.c:83-164 | splitting a written list gives it back exactly when no string holds the separator or ends in a bar |
| `Strdata.TailDropped` | ALOE_DOCENCIA_20210116/utils/src/strdata.c:145-161 | what follows the last separator is dropped |
| `Strdata.ReceivedIff` | ALOE_DOCENCIA_20210116/utils/src/strdata.c:60-164 | push all, write, read: the list arrives in push order exactly when every string is clean, since three reversals cancel |
| `Strdata.Transfer` | ALOE_DOCENCIA_20210116/utils/src/strdata.c:60-164 | push all, write, read, pop all gives the same values in push order |
| `CfgParser.Parser.CopyLine` | ALOE_DOCENCIA_20210116/utils/src/cfg_parser.c:221-238 | the text of one line in the shared buffer, cut at its size, and the bytes to move on |
| `CfgParser.Parser.ParseSection` | ALOE_DOCENCIA_20210116/utils/src/cfg_parser.c:240-317 | the recursion over the shared line buffer and the cursor is the parse function, for every text without NUL; it ends because every line moves the cursor |
| `CfgParser.Parser.CfgNew` | ALOE_DOCENCIA_20210116/utils/src/cfg_parser.c:324-352 | the loop over the file is the file function on every text |
| `CfgParser.ParseRender` | ALOE_DOCENCIA_20210116/utils/src/cfg_parser.c:221-352 | for every configuration within the limits, parsing its text ends at its end and gives its tree with every key list and every section list reversed |
| `CfgParser.ParseItems` | ALOE_DOCENCIA_20210116/utils/src/cfg_parser.c:280-314 | inside a section, parsing the lines of its items is skipping their text and putting keys and sections in front |
| `CfgParser.WriteParseTwice` | ALOE_DOCENCIA_20210116/utils/src/cfg_parser.c:221-352 | write, parse, write what was parsed, parse again: the original tree |
| `CfgParser.KeyTextIff` | ALOE_DOCENCIA_20210116/utils/src/cfg_parser.c:298-312 | a key line is read back as written exactly when its name holds no '=' |
| `CfgParser.LineWholeIff` | ALOE_DOCENCIA_20210116/utils/src/cfg_parser.c:221-238 | a line is read as it stands exactly when it has fewer than 168 characters; of a longer one the first 167 are read, one is lost, and the rest is taken for another line |
| `CfgParser.KeyLineOutcome` | ALOE_DOCENCIA_20210116/utils/src/cfg_parser.c:297-313 | a line without braces is a key exactly when both sides of its first '=' have fewer than 128 characters, and undefined otherwise |
| `CfgParser.CloseAnywhere` | ALOE_DOCENCIA_20210116/utils/src/cfg_parser.c:283-285 | a closing brace anywhere on a line ends the section, whatever else is on the line |
| `CfgParser.JunkIgnored` | ALOE_DOCENCIA_20210116/utils/src/cfg_parser.c:264-271 | what follows an opening brace on its line is ignored |
| `CfgParser.LongTitle` | ALOE_DOCENCIA_20210116/utils/src/cfg_parser.c:264-271 | a title of 128 characters or more is undefined at every level |
| `CfgParser.UndefinedLines` | ALOE_DOCENCIA_20210116/utils/src/cfg_parser.c:221-313 | a line with neither brace nor '=' and a text that ends inside a line are undefined |
| `CfgParser.EndCloses` | ALOE_DOCENCIA_20210116/utils/src/cfg_parser.c:281-317 | the end of the file closes every open section |
| `CfgParser.MirrorTwice` | ALOE_DOCENCIA_20210116/utils/src/cfg_parser.c:280-314 | reversing every list of a tree twice is the identity |

## Left out

- CrcEngine.Engine.CrcInit: orders from 1 to 32; the code also accepts 40 and more, which its own message excludes, and shifts by a negative number for orders below 1.
- CrcEngine.Engine.ReverseCrcBit: its argument is an unsigned int in C; the constants and registers that reach it fit 32 bits, so the model keeps them in a 64-bit word.
- Resampler.Resampler.StreamConvIntDec: samples are exact complex pairs, so rounding of float is not modelled; the static state belongs to one filter, as two filters sharing it would not work.
- Pool.Pool.New: flags, descriptors and data are separate arrays; in bytes the data area is rounded down and starts inside the flags, so nothing is claimed about disjointness of bytes. Fewer than 32768 slots, the range of a short; int overflow of the offset, which only a buffer smaller than the pool object can cause, is not modelled.
- Pool.Pool.Alloc: `mem_calloc` and the bytes of a chunk are not modelled.
- Handshake.ProcDb.StatusPass: an object that is being terminated, whose own request returns at once, is not modelled.
- Handshake.InitialIff: the wait for several slots and the statistics that a relinquish logs are not modelled.
- Mailbox.Interface.Receive: non-blocking reads only; interrupted and failing system calls are not modelled.
- Scheduler.Core.RelinquishPass: real-time checks, removals of objects and the daemon semaphores are not modelled.
- Clock.SlotClock.SyncTslot: the slot number does not wrap at 32 bits; setting the system clock and arming the timer are its results, not effects.
- Packets.SetToPkt: the members of a list are values; one str object that is in two lists, or changes while it is in one, is not modelled.
- Packets.SetFromPkt: a string that runs past the buffer, or is too long for a `str` object, is an undefined outcome.
- Params.ParamRoundTrip: float, double and boolean parameters are not modelled; the first two lose digits in text and the last prints and parses differently.
- Strdata.StrData.Read: the message arrives whole; partial reads of a file descriptor and the size word in front are not modelled.
- CfgParser.Parser.ParseSection: texts hold no NUL; a line without '=', a string of 128 characters or more, and a text without a final newline are undefined in C and fail here; allocation does not fail.
- Hashed sets: the bucket pointer is never set in that mode.
- Sockets, message-queue and shared-memory calls, signals, fork and exec, real-time priorities, launching and removing processes.
- Console, printing, completion, JNI, MATLAB, JACK and DAC code.
- FFT, gain and phase estimation, and modules that copy their input.
