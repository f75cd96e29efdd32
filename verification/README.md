# Models and proofs for the WCH IoT SDK core

The project models the parts of the SDK whose correctness is not visible in one function body, and proves them in Dafny.
`dafny verify dfyconfig.toml` checks everything.

| module | what it models |
|---|---|
| `MachineInts` | C integer widths as ranges of `int`, the wrap-arounds, division with C's truncation, shared division facts |
| `TimeUnits` | the time-unit converter: every fast and slow path against one definition of rounding |
| `SysTimer` | the system tick driver as a class over an up-counting 64-bit counter, and whole runs of it |
| `Sequences`, `SList`, `GpioCallbacks` | the generated singly-linked list, GPIO callback registration, and the dispatcher whose handlers change the list it walks |
| `DList`, `StableInsertion` | the circular doubly-linked list over a whole family of lists, and ordered insertion |
| `AdcSequence` | one interrupt-driven ADC read with CONTINUE / REPEAT / FINISH callbacks |
| `LsiCalibration57`, `LsiCalibration58` | the two low-speed-oscillator calibration loops over an arbitrary sensor |
| `AtomicBitmap` | bitmaps of machine words as sets, under any interleaving |
| `ByteOrder` | big- and little-endian stores and loads, byte swaps, buffer reversal |

Code that changes state is a class or an array method whose contract ties the new state to a specification function. The
lemmas then say what that function amounts to, over all inputs, all runs, or all callback and sensor behaviour. Counters,
data registers, sensors and callback answers are parameters or arbitrary functions, so a statement holds for all of them.

## Where the code and its promises differ

- The conversion guard macro can itself wrap. With a large enough `CONFIG_SYS_CLOCK_MAX_TIMEOUT_DAYS` it selects the fast
  path for times that then overflow (`TimeUnits.GuardUnsoundWhenItWraps`). Up to 49710 days it cannot wrap
  (`TimeUnits.GuardFitsUsualSettings`; the default is 365), and then it is sound (`TimeUnits.GuardIsSound`).
  What it sends down the fast path is exact if and only if the fast form does not overflow at the configured maximum
  (`TimeUnits.GuardedConversionsExactIff`).
- The integer-ratio division path adds its rounding offset first. It is exact if and only if that sum does not wrap, and
  returns 0 when it does (`TimeUnits.DivRatioExactIff`, with an input in `DivRatioFailsAtTheEnd`).
- A tickless timeout is programmed in the past if and only if one of the 32-bit sums in `sys_clock_set_timeout` wraps, which
  needs the last announced tick boundary to be about 2^31 cycles ago or more (`SysTimer.AlarmInPastIff`, with an
  input in `AlarmCanBeInPast`).
- In periodic mode the alarm can be closer than `MIN_DELAY`. It never is if and only if a tick has at least `MIN_DELAY - 1`
  cycles (`SysTimer.PeriodicDelayKeptIff`). The ch57x default of one cycle to a tick does not
  (`SysTimer.PeriodicAlarmTooClose`).
- Tickless ticks of a single cycle lose the count even when every interrupt is taken at the very cycle of its alarm: waiting
  forever can announce -2^31 ticks (`SysTimer.OneCycleTicksOverflow`). The driver's own alarms prevent this if and only if a
  tick has at least two cycles (`SysTimer.ClosedLoopIsTimelyIff`).
- The comment at drivers/timer/sys_timer.c:33 says that one chip's counter counts down while the driver assumes that it
  counts up. The model follows the driver's assumption.
- The ch57x calibration saves the last trim it tried even when it puts the previous, better one back in the register, and
  saves a trim it never measured when it gives up. For which sensors and starts this happens is
  `LsiCalibration57.SavedIsNotRegisterIff`, with a case at the default 60 MHz in `SavedTuneCanDiffer`.
- The ch57x calibration converges in two measurements at 8 to 60 MHz (`LsiCalibration57.SelectableClocksConverge`). At 4 and
  2 MHz one count is already more than the accepted error, and it need not (`LsiCalibration57.SlowClocksNeedMore`).
- include/drivers/gpio.h:1026-1028 leaves open whether a callback added by a handler runs for the current event. The code
  decides it: it does not (`GpioCallbacks.FireCallbacks`).

## Model

| member | source | states |
|---|---|---|
| TimeUnits.ExactRounds | include/sys/time_units.h:118-130 | adding 0, half the divisor or the divisor less one before dividing gives floor, nearest (halves up) and ceiling, odd divisors included, and no other number satisfies the division-free definition of that rounding |
| TimeUnits.TmcvtIsExact | include/sys/time_units.h:99-161 | whichever path runs, with any guard value, the result is the correctly rounded `t * to / from` modulo the result width, provided the path's own 64-bit sum does not wrap; identity, up-ratio and divide-first need no such proviso; every 32-bit result but the down-ratio's is cut to 32 bits |
| TimeUnits.DivideFirstIsExact | include/sys/time_units.h:154-158 | the overflow-safe form equals the exact result modulo 2^64 for every 64-bit time |
| TimeUnits.MultiplyFirstExactIff | include/sys/time_units.h:145-153 | multiplying first is exact if and only if product plus offset fits 64 bits |
| TimeUnits.MultiplyFirstIs | include/sys/time_units.h:145-153 | and what it computes when it wraps: the quotient of the wrapped sum |
| TimeUnits.Convert32IsExact | include/sys/time_units.h:99-161 | every 32-bit variant is free of intermediate overflow for every 32-bit time and exact modulo 2^32 |
| TimeUnits.ConstHzNeverChangesTheAnswer | include/sys/time_units.h:103-109 | compile-time knowledge of the frequencies selects another path and the same answer |
| TimeUnits.RoundOffWins | include/sys/time_units.h:118-130 | with both rounding flags set every conversion is to nearest |
| TimeUnits.DivRatioExactIff | include/sys/time_units.h:132-138 | the down-ratio path, for results of either width, is exact if and only if `t + off` does not wrap, and answers 0 when it does |
| TimeUnits.DivRatioFailsAtTheEnd | include/sys/time_units.h:132-138 | a concrete time that path converts to 0 |
| TimeUnits.FastExactIff | include/sys/time_units.h:147-153 | a full-precision conversion taken on the fast path is exact if and only if `t * to + off` fits 64 bits |
| TimeUnits.FastExactUpToIff | include/sys/time_units.h:147-153 | the fast form is exact for all times up to a given one if and only if it does not overflow at that one |
| TimeUnits.GuardedConversionsExactIff | include/sys/time_units.h:76-153 | wherever the guard holds, wrapped or not, the conversions it sends down the fast path are exact for all times up to the configured maximum if and only if the fast form does not overflow there |
| TimeUnits.GuardComputesCeiling | include/sys/time_units.h:76-78 | unless it wraps, the guard tests that the rounded-up 2^32-1 fraction of the longest time, times the target frequency, fits 32 bits |
| TimeUnits.GuardIff | include/sys/time_units.h:76-78 | unless it wraps, the guard holds if and only if that fraction of the configured maximum in days, times the target frequency, fits 32 bits |
| TimeUnits.GuardIsSound | include/sys/time_units.h:76-78 | when the guard holds (its own sum not wrapping), no time up to the configured maximum overflows the fast form, and fast form, slow form and exact result agree |
| TimeUnits.GuardFitsUsualSettings | include/sys/time_units.h:76-78 | up to 49710 days and for every frequency the guard's own arithmetic does not wrap |
| TimeUnits.GuardUnsoundWhenItWraps | include/sys/time_units.h:76-78 | a concrete setting where the guard wraps, holds, and the conversion of an in-range time goes wrong |
| TimeUnits.ExactGalois | include/sys/time_units.h:99-161 | ceiling there and floor back is at least the start, floor there and ceiling back at most, for all frequencies |
| TimeUnits.RoundingsOrdered | include/sys/time_units.h:118-130 | floor <= nearest <= ceiling <= floor + 1 |
| TimeUnits.Convert64IsExact | include/sys/time_units.h:386-404 | a 64-bit conversion whose result fits is the exact rounding, on any path |
| TimeUnits.TimeoutsNeverShorten | include/sys/time_units.h:386-404 | converting up with ceil64 and back with floor64 never shortens a timeout, each direction on any path of its own |
| TimeUnits.FloorsNeverLengthen | include/sys/time_units.h:1086-1104 | converting with floor64 and back with ceil64 never lengthens a time, each direction on any path of its own |
| TimeUnits.ConversionsMonotone | include/sys/time_units.h:99-161 | a later time never converts to an earlier one |
| TimeUnits.ConversionsOrdered | include/sys/time_units.h:99-161 | the three 64-bit conversions of one time are ordered and at most one apart |
| SysTimer.SysTimerDriver.constructor | drivers/timer/sys_timer.c:107-117 | start-up takes the counter as the last announced boundary and sets the alarm a tick later |
| SysTimer.SysTimerDriver.SysTickHandler | drivers/timer/sys_timer.c:31-53 | the interrupt's new word, announcement and (periodic) alarm, with the int32/uint32/uint64 conversions of the C expressions |
| SysTimer.SysTimerDriver.SetTimeout | drivers/timer/sys_timer.c:55-82 | the alarm word programmed for any request above INT_MIN is the one the alarm lemmas describe; nothing else changes, and nothing at all when not tickless |
| SysTimer.SysTimerDriver.Elapsed | drivers/timer/sys_timer.c:84-95 | the 32-bit elapsed ticks, 0 when not tickless |
| SysTimer.InterruptExactIff | drivers/timer/sys_timer.c:36-39 | the interrupt accounts for every whole tick if and only if the ticks fit 31 bits and their cycles 32 bits |
| SysTimer.TruncatedTicks | drivers/timer/sys_timer.c:36-95 | beyond those bounds too, what the interrupt's and the query's truncations leave of the whole ticks, for any counter values |
| SysTimer.ElapsedExactIff | drivers/timer/sys_timer.c:84-95 | the elapsed query is exact if and only if less than 2^32 cycles have passed since the last boundary |
| SysTimer.EveryRunConsistent | drivers/timer/sys_timer.c:31-53 | over every run whose interrupts come while their ticks can be counted, the word is the boundary of the last announced tick, less than a tick before the latest interrupt |
| SysTimer.InterruptKeepsConsistent | drivers/timer/sys_timer.c:31-53 | one interrupt keeps that invariant despite the 32-bit truncations |
| SysTimer.PromptIsTimely | drivers/timer/sys_timer.c:31-53 | interrupt gaps below 2^31 cycles are enough for that, although a tick's remainder adds to the gap |
| SysTimer.TicksConservedIff | drivers/timer/sys_timer.c:31-95 | after every such run announced plus elapsed ticks equal the whole ticks since start-up if and only if the last boundary is less than 2^32 cycles ago |
| SysTimer.TicksConserved | drivers/timer/sys_timer.c:31-95 | after every run of interrupts, timeouts and queries with gaps below 2^31 cycles, announced plus elapsed ticks equal the whole ticks since start-up |
| SysTimer.ClosedLoopIsTimely | drivers/timer/sys_timer.c:31-82 | with no assumption on gaps: if everything happens within a bounded latency of the alarm programmed last, the driver's own alarms keep every run countable, for ticks of two cycles or more |
| SysTimer.ClosedLoopConservesTicks | drivers/timer/sys_timer.c:31-95 | and so ticks are conserved over every such run |
| SysTimer.ScheduleGoesOn | drivers/timer/sys_timer.c:55-82 | every such run can be continued by the interrupt at its alarm, and, with ticks of at most 2^30 cycles, by any request right after it |
| SysTimer.OneCycleTicksOverflow | drivers/timer/sys_timer.c:36-39 | a run with one-cycle ticks and no latency at all that announces -2^31 ticks, from any start |
| SysTimer.ClosedLoopIsTimelyIff | drivers/timer/sys_timer.c:31-82 | for every latency within bounds, all runs on schedule stay countable if and only if a tick has at least two cycles |
| SysTimer.BoundaryAtIsLeast | drivers/timer/sys_timer.c:67-74 | rounding up as the driver does gives the least tick boundary not before its argument |
| SysTimer.RoundingIsExact | drivers/timer/sys_timer.c:65-74 | where the sum fits 32 bits, the wrapping and saturating code computes the intended boundary |
| SysTimer.ClampMeans | drivers/timer/sys_timer.c:59-60 | by inequalities and if and only if, for how many ticks every request stands: none up to 1, one less than asked, the clamp at the top, one less again for a request to wait forever |
| SysTimer.AlarmMeetsRequest | drivers/timer/sys_timer.c:55-82 | the tickless alarm is on a boundary, not before now, at least a tick or MIN_DELAY ahead, and the least boundary serving that many ticks, or the last below 2^31 cycles when saturated, or the next one when that is too close |
| SysTimer.AlarmForTicks | drivers/timer/sys_timer.c:55-82 | the same from the ticks asked for alone, by inequalities, for requests up to 1, in range, clamped, and forever |
| SysTimer.AlarmForAnyDistance | drivers/timer/sys_timer.c:62-79 | the alarm for any counter values at all, 32-bit wrap-around and saturation included |
| SysTimer.AlarmInPastIff | drivers/timer/sys_timer.c:55-82 | the alarm is programmed before now if and only if a 32-bit sum wraps, for any distance from the last boundary, and is the boundary intended otherwise |
| SysTimer.AlarmCanBeInPast | drivers/timer/sys_timer.c:55-82 | a concrete request whose alarm is in the past |
| SysTimer.AlarmServesRequest | drivers/timer/sys_timer.c:31-82 | the interrupt taken at the alarm of a request neither clamped nor saturated accounts for at least one tick less than asked, counted from the call |
| SysTimer.PeriodicAlarmIsNext | drivers/timer/sys_timer.c:41-48 | in periodic mode, for every tick length, the alarm is the first boundary after now, or the next when that is too close; it is MIN_DELAY away if and only if the second boundary is, and is then the first boundary that is |
| SysTimer.PeriodicDelayKeptIff | drivers/timer/sys_timer.c:41-48 | MIN_DELAY is kept at every moment if and only if a tick has at least MIN_DELAY - 1 cycles |
| SysTimer.PeriodicAlarmTooClose | drivers/timer/sys_timer.c:41-48 | a concrete alarm two cycles away, at one cycle to a tick |
| SList.SList.constructor | include/sys/slist.h:196-200 | a new list is valid and empty |
| SList.SList.Init | include/sys/slist.h:196-200 | initialising makes the list valid and empty whatever it was |
| SList.SList.IsEmpty | include/sys/list_gen.h:57-62 | true if and only if the sequence is empty |
| SList.SList.PeekNext | include/sys/list_gen.h:64-78 | the successor in the sequence, null after the last and for null |
| SList.SList.Prepend | include/sys/list_gen.h:80-93 | the node is put in front; the invariant (no duplicates, chain, tail is last, head null iff tail null) is kept |
| SList.SList.Append | include/sys/list_gen.h:95-111 | the node is put at the end, touching only the old tail, the node and the list |
| SList.SList.AppendList | include/sys/list_gen.h:113-130 | a null-terminated chain is put at the end; nothing happens if either end is null |
| SList.SList.Merge | include/sys/list_gen.h:132-143 | concatenation of two distinct lists, the second left empty |
| SList.SList.Insert | include/sys/list_gen.h:145-160 | insertion after the given node, in front for null, at the end included |
| SList.SList.GetNotEmpty | include/sys/list_gen.h:162-177 | takes the first node, the tail kept in agreement |
| SList.SList.Get | include/sys/list_gen.h:179-185 | takes the first node, null if there is none |
| SList.SList.Remove | include/sys/list_gen.h:187-214 | removes exactly the node after the given predecessor and clears its link |
| SList.SList.FindAndRemove | include/sys/list_gen.h:216-235 | true if and only if the node was present; then exactly it is removed, else nothing changes |
| GpioCallbacks.ManageCallback | drivers/gpio/gpio_utils.h:32-52 | list and result are those of the registration function, re-adding moves to the front, removal from an empty list succeeds |
| GpioCallbacks.ListIsRegisteredByRecency | drivers/gpio/gpio_utils.h:32-52 | after any history of calls the list holds exactly the callbacks whose latest call was an add, once each, most recent first |
| GpioCallbacks.RecencyDeterminesList | drivers/gpio/gpio_utils.h:32-52 | only one list fits that description |
| GpioCallbacks.ErrorIff | drivers/gpio/gpio_utils.h:39-51 | -EINVAL if and only if an unregistered callback is removed while another is registered, 0 otherwise |
| GpioCallbacks.RunAction | include/drivers/gpio.h:1052-1066 | one permitted change made by a handler keeps the list valid and leaves the rest of the pass in place as a suffix |
| GpioCallbacks.RunHandler | include/drivers/gpio.h:1052-1066 | the same for any sequence of permitted changes |
| GpioCallbacks.HitsAreCommonPins | drivers/gpio/gpio_utils.h:68-70 | the argument has exactly the pins in both mask and triggered pins, and is not zero if and only if there is one |
| GpioCallbacks.ScriptPermittedIff | include/drivers/gpio.h:1052-1066 | a script is permitted if and only if each action, when its time comes, changes a mask, the running callback or a callback not then registered |
| GpioCallbacks.TurnByPins | drivers/gpio/gpio_utils.h:68-70 | at its turn a callback is called, and its script run, if and only if a triggered pin is in the mask it then has, with exactly the common pins `mask & pins` |
| GpioCallbacks.Visit | drivers/gpio/gpio_utils.h:68-71 | the loop body does to the callbacks and the calls exactly what that turn does, and leaves the rest of the pass in place |
| GpioCallbacks.FireCallbacks | drivers/gpio/gpio_utils.h:61-73 | the pass ends and visits exactly the callbacks registered on entry in order and once each; pin by pin, each is called at its turn if and only if a triggered pin is in its mask, with the common pins; the final list is that of the reference pass, for all permitted handler behaviour |
| GpioCallbacks.CallsFixedOnEntry | drivers/gpio/gpio_utils.h:61-73 | unless a handler changes a pin mask, who is called with what is fixed by list and masks on entry; callbacks added or removed during the pass have no influence |
| GpioCallbacks.HitCallsByPins | drivers/gpio/gpio_utils.h:68-70 | those calls are exactly the listed callbacks with a triggered pin in their mask, each with `mask & pins` |
| GpioCallbacks.PassCallsByPins | drivers/gpio/gpio_utils.h:67-72 | the calls of the reference pass satisfy the pin-by-pin description |
| DList.LinkedIffInOneList | include/sys/dlist.h:225-228 | a node is linked if and only if it is in a sequence of the family, and then in only one and once |
| DList.Init | include/sys/dlist.h:197-201 | a new empty list joins the family, the others unchanged |
| DList.Insert | include/sys/dlist.h:443-451 | one insertion into one sequence, before a node or, for the head itself, at the end; all other lists and all rings kept |
| DList.Append | include/sys/dlist.h:404-413 | one sequence grows at its end, all others unchanged |
| DList.Prepend | include/sys/dlist.h:424-433 | one sequence grows at its front, all others unchanged |
| DList.Remove | include/sys/dlist.h:496-504 | told only the node, removes it from the one list it is in, leaves it unlinked, all other lists unchanged |
| DList.Get | include/sys/dlist.h:516-526 | takes the first node and leaves it unlinked, null and nothing changed when empty |
| DList.InsertAt | include/sys/dlist.h:468-485 | the walk ends and inserts before the first node the condition accepts, else at the end |
| DList.Family.OthersKept | include/sys/dlist.h:404-504 | writes confined to one ring leave every other ring of the family intact |
| DList.SplicedIn | include/sys/dlist.h:443-451 | the four link writes turn a ring into the ring with the node in place, next and prev inverse |
| DList.SplicedOut | include/sys/dlist.h:496-504 | the two bypassing writes turn a ring into the ring without the node |
| DList.IsLinked | include/sys/dlist.h:225-228 | answers membership in any list of the family |
| DList.IsEmpty | include/sys/dlist.h:266-269 | true if and only if the sequence is empty |
| DList.HasMultipleNodes | include/sys/dlist.h:281-284 | true if and only if there are two or more nodes |
| DList.PeekHead | include/sys/dlist.h:294-297 | the first element, null if none |
| DList.PeekTail | include/sys/dlist.h:390-393 | the last element, null if none |
| DList.PeekNext | include/sys/dlist.h:325-345 | the following element, null at the end and for null |
| DList.PeekPrev | include/sys/dlist.h:359-380 | the preceding element, null at the front and for null |
| StableInsertion.OrderedInsertSorted | include/sys/dlist.h:468-485 | with the condition "key greater than mine" insertion keeps a sorted list sorted |
| StableInsertion.OrderedInsertStable | include/sys/dlist.h:468-485 | and goes behind all equal keys |
| StableInsertion.InsertAllIsStableSort | include/sys/dlist.h:468-485 | any sequence of such insertions leaves the stable sort of the arrivals |
| StableInsertion.StableSortUnique | include/sys/dlist.h:468-485 | there is only one stable sort |
| StableInsertion.InsertByKey | include/sys/dlist.h:468-485 | the pointer operation is one step of that sort on one list of the family |
| StableInsertion.InsertAllByKey | include/sys/dlist.h:468-485 | inserting unlinked nodes one after the other into an empty list leaves their stable sort in it and every other list as it was |
| AdcSequence.AdcDriver.Read | drivers/adc/adc.c:147-204 | which requests are refused with which error (too small is less than two bytes for each of 1 + extra samplings, or two without options), the channel selected before the size test, nothing else changed by a refusal, and the complete state an accepted request starts in |
| AdcSequence.AdcDriver.StartSampling | drivers/adc/adc.c:57-64 | remembers the write position for a repeat and starts one conversion |
| AdcSequence.AdcDriver.UpdateBufferPointer | drivers/adc/adc.c:67-77 | back to the remembered position for a repeat, else one further |
| AdcSequence.AdcDriver.OnSamplingDone | drivers/adc/adc_context.h:72-114 | what the callback's answer does to the state; a conversion is started unless the read is complete |
| AdcSequence.AdcDriver.Handler | drivers/adc/adc.c:29-46 | one conversion interrupt is one step of the sequencing function, the sample corrected in 16 bits |
| AdcSequence.AfterInterrupts | drivers/adc/adc_context.h:72-114 | over every run the read is busy exactly until the first ending answer; position, repeat position, index and number of continues agree and stay within the checked size, so every further step stores inside the buffer |
| AdcSequence.ReadFillsSlots | drivers/adc/adc_context.h:52-114 | for arbitrary answers and samples each slot holds the last sample taken for it, and unreached slots are unchanged |
| AdcSequence.LatestForIsLatest | drivers/adc/adc_context.h:89-109 | the interrupt named there is the last one that stored into the slot |
| AdcSequence.ReadEndsInTime | drivers/adc/adc_context.h:72-114 | the read ends by interrupt 1 + extra samplings + repeats |
| AdcSequence.ReadWithoutCallback | drivers/adc/adc_context.h:81-103 | without a callback it takes exactly 1 + extra samplings interrupts and the buffer starts with the samples in order |
| AdcSequence.SingleSample | drivers/adc/adc_context.h:113-114 | without options one interrupt completes the read with one sample stored |
| AdcSequence.ReachableIff | drivers/adc/adc_context.h:89-109 | some run of answers stores into a slot if and only if it is at most the number of extra samplings |
| AdcSequence.SizeCheckIff | drivers/adc/adc.c:147-163 | the one size test accepts exactly the buffers with room for every slot a run can reach |
| AdcSequence.SizeCheckSuffices | drivers/adc/adc.c:147-163 | so every slot the read can reach is in the caller's buffer |
| AdcSequence.SingleChannelIff | drivers/adc/adc.c:182-189 | the channel test refuses exactly the masks with more than one bit and selects the channel of the one bit |
| LsiCalibration57.LsiOscillator.CalibrateLsi | hal/ch57x/ch57x_hal_clk.c:273-353 | register, saved tune, figure and measurements of the do-while loop are those of the loop function |
| LsiCalibration57.NextTrimIs | hal/ch57x/ch57x_hal_clk.c:338-347 | for every slope, trim and difference, by inequalities: down by the truncated product, wrapping at 16 bits, and one step up or down when that would stay |
| LsiCalibration57.NextOfRun | hal/ch57x/ch57x_hal_clk.c:302-347 | the same for the trajectory, from the reading alone |
| LsiCalibration57.StopsIff | hal/ch57x/ch57x_hal_clk.c:307-333 | the stopping conditions by inequalities between the readings and the nominal count |
| LsiCalibration57.WordsWrap | hal/ch57x/ch57x_hal_clk.c:303-326 | what the 16-bit difference and figure are when they do truncate |
| LsiCalibration57.ProfileIsNearest | hal/ch57x/ch57x_hal_clk.c:251-273 | the nominal count is that of five RTC periods rounded to nearest, kept in 16 bits, for every mode, divider and RTC frequency, and the slope that of the clock |
| LsiCalibration57.Run.GoesOn | hal/ch57x/ch57x_hal_clk.c:423-474 | a measurement that meets no stopping condition leads to the next trim of the trajectory, with its difference and correction carried over |
| LsiCalibration57.Run.EndIsReached | hal/ch57x/ch57x_hal_clk.c:423-474 | the loop ends with the first measurement of the trajectory that stops it, or the twentieth |
| LsiCalibration57.EndIsSound | hal/ch57x/ch57x_hal_clk.c:423-478 | what the loop leaves behind from there, on each of its exits |
| LsiCalibration57.EveryCalibrationIsSound | hal/ch57x/ch57x_hal_clk.c:288-352 | for every sensor whose readings in this call do not truncate: at most 20 measurements, consecutive trims differ, the register ends at a trim measured in this call, the figure times the nominal count brackets ten thousand times that trim's distance, on a bracketing exit the smaller of the two |
| LsiCalibration57.SavedIsNotRegisterIff | hal/ch57x/ch57x_hal_clk.c:305-350 | for every sensor and start: saved tune and register differ if and only if no trim of the trajectory stops the loop, or the first that does brackets the nominal count with a reading farther off than the one before; in the first case the trim saved is the twenty-first |
| LsiCalibration57.SavedTuneCanDiffer | hal/ch57x/ch57x_hal_clk.c:305-350 | a sensor at the default 60 MHz clock that never stops the loop and leaves them different |
| LsiCalibration57.SavedTuneCanDifferAfterTurningBack | hal/ch57x/ch57x_hal_clk.c:305-324 | a bracketing exit after which they differ, in the 32 kHz register mode |
| LsiCalibration57.OneCorrectionSuffices | hal/ch57x/ch57x_hal_clk.c:338-339 | for any negative slope and readings on the line up to half a count, one truncated correction leaves at most (9 + n) / n counts, where n is the slope in tenths |
| LsiCalibration57.ConvergesInTwo | hal/ch57x/ch57x_hal_clk.c:254-352 | for any negative slope for which those counts are a figure below 11: if the at most two readings taken are on the line and the corrected trim is in range, calibration ends within two measurements with a figure below 11 |
| LsiCalibration57.SelectableClocksConverge | hal/ch57x/ch57x_hal_clk.c:251-279 | the profiles of 60, 48, 40, 32, 24, 16 and 8 MHz with either RTC frequency fit, and from the default trim an oscillator on its line meets all those conditions and converges, for any ideal trim from 8 to 4080 |
| LsiCalibration57.SlowClocksNeedMore | hal/ch57x/ch57x_hal_clk.c:263-271 | the profiles of 4 and 2 MHz do not fit, and two readings on the line stop the loop at neither |
| LsiCalibration57.NeverBrackets | hal/ch57x/ch57x_hal_clk.c:309-329 | for slopes down to -1.9: when each reading not close enough is more than m counts off, that asks for two steps, and the nominal count is at most 0xFFFF - m, the bracketing exit is unreachable, whatever the sensor reads |
| LsiCalibration57.PllClocksNeverBracket | hal/ch57x/ch57x_hal_clk.c:258-329 | so it is at 60, 48, 40 and 32 MHz |
| LsiCalibration58.LsiOscillator.CalibrateCoarse | hal/ch58x/ch58x_hal_clk.c:277-292 | register, last offset and corrections of the coarse loop are those of the loop function |
| LsiCalibration58.OffsetIs | hal/ch58x/ch58x_hal_clk.c:285 | for every usable clock and capture, without a wrap: the low 14 bits of the count, plus 0x3FFF for each overflow, less the nominal count, which is given by inequalities |
| LsiCalibration58.ThresholdIs | hal/ch58x/ch58x_hal_clk.c:286 | the width of the band by inequalities, if and only if |
| LsiCalibration58.CorrectionIsNearest | hal/ch58x/ch58x_hal_clk.c:289 | the truncating expression rounds offset / threshold to nearest, halves away from zero, and is never zero out of band |
| LsiCalibration58.LoopIsSound | hal/ch58x/ch58x_hal_clk.c:277-292 | the loop invariant over the corrections already made |
| LsiCalibration58.CoarseIsSound | hal/ch58x/ch58x_hal_clk.c:277-292 | for every sensor: at most four measurements and three corrections, each the nearest one, ending in band or with all three spent |
| LsiCalibration58.CoarseIsSoundInCounts | hal/ch58x/ch58x_hal_clk.c:277-292 | the same in captures and frequencies alone: every measurement but the last is out of band and moves the trim by the nearest number of steps, the last is in band or the fourth |
| LsiCalibration58.OneCorrectionConverges | hal/ch58x/ch58x_hal_clk.c:277-292 | if the at most two offsets taken are on a line up to a quarter step and the corrected trim does not wrap, one correction brings the offset in band |
| LsiCalibration58.DefaultClockConverges | hal/ch58x/ch58x_hal_clk.c:277-292 | at 60 MHz with a 32768 Hz RTC an oscillator on its line within 40 steps of ideal meets those conditions and converges |
| AtomicBitmap.TestBit | include/sys/atomic.h:121-126 | answers as the word-array operation does and changes nothing |
| AtomicBitmap.TestAndClearBit | include/sys/atomic.h:142-150 | words and answer are those of one fetch-and-and |
| AtomicBitmap.TestAndSetBit | include/sys/atomic.h:166-174 | words and answer are those of one fetch-and-or |
| AtomicBitmap.SetBitTo | include/sys/atomic.h:188-236 | words are those of setting or clearing the bit |
| AtomicBitmap.SizeIsExact | include/sys/atomic.h:69-83 | the size macro gives every bit number below n a word and none to spare |
| AtomicBitmap.ShiftedBit | include/sys/atomic.h:121-126 | shifting the word down and testing the lowest place is testing with the mask |
| AtomicBitmap.BitIsPlace | include/sys/atomic.h:69-71 | bit b is place b modulo 32 of word b / 32, counted from the lowest |
| AtomicBitmap.OpTouchesOneBit | include/sys/atomic.h:121-236 | each operation answers its own bit, leaves the value it should there and every other bit of the array as it was |
| AtomicBitmap.OpRefinesSet | include/sys/atomic.h:69-236 | an array of the macro's size with the operations is a set of bit numbers with add, remove and member |
| AtomicBitmap.LatestReportDecides | include/sys/atomic.h:142-174 | at every moment of every interleaving the bit has the value of the latest reported change |
| AtomicBitmap.ReportsAlternate | include/sys/atomic.h:142-174 | in every interleaving reported sets and reported clears of a bit alternate, the first telling the initial value |
| ByteOrder.PutBe16 | include/sys/byteorder.h:226-230 | stores the two bytes of the word most significant first and touches nothing else |
| ByteOrder.PutBe24 | include/sys/byteorder.h:241-245 | the same for the low three bytes, composed from a byte and a 16-bit store |
| ByteOrder.PutBe32 | include/sys/byteorder.h:256-260 | the same for four bytes |
| ByteOrder.PutBe48 | include/sys/byteorder.h:271-275 | the same for the low six bytes, split 16 + 32 |
| ByteOrder.PutBe64 | include/sys/byteorder.h:286-290 | the same for eight bytes |
| ByteOrder.PutLe16 | include/sys/byteorder.h:301-305 | stores the two bytes least significant first and touches nothing else |
| ByteOrder.PutLe24 | include/sys/byteorder.h:316-320 | the same for the low three bytes |
| ByteOrder.PutLe32 | include/sys/byteorder.h:331-335 | the same for four bytes |
| ByteOrder.PutLe48 | include/sys/byteorder.h:346-350 | the same for the low six bytes, split 32 + 16 |
| ByteOrder.PutLe64 | include/sys/byteorder.h:361-365 | the same for eight bytes |
| ByteOrder.RoundTrip16 | include/sys/byteorder.h:226-455 | get and put are inverse both ways, in both byte orders |
| ByteOrder.RoundTrip24 | include/sys/byteorder.h:241-470 | the same, the unstored top byte dropped |
| ByteOrder.RoundTrip32 | include/sys/byteorder.h:256-485 | the same for 32 bits |
| ByteOrder.RoundTrip48 | include/sys/byteorder.h:271-500 | the same although put and get split the word at different points |
| ByteOrder.RoundTrip64 | include/sys/byteorder.h:286-515 | the same for 64 bits |
| ByteOrder.Bswap16Reverses | include/sys/byteorder.h:20 | the swapped word has the bytes in reverse order, and swapping twice is the identity |
| ByteOrder.Bswap24Reverses | include/sys/byteorder.h:21-23 | the same for the low three bytes |
| ByteOrder.Bswap32Reverses | include/sys/byteorder.h:24-27 | the same for four bytes |
| ByteOrder.Bswap48Reverses | include/sys/byteorder.h:28-33 | the same for the low six bytes |
| ByteOrder.Bswap64Reverses | include/sys/byteorder.h:34-41 | the same for eight bytes |
| ByteOrder.MemSwap | include/sys/byteorder.h:556-566 | the in-place loop reverses the first `length` bytes, for every length, and leaves the rest |
| ByteOrder.MemcpySwap | include/sys/byteorder.h:530-544 | the copying loop writes the same reversal into the other area and nothing else |
| ByteOrder.ReversedTwice | include/sys/byteorder.h:530-566 | swapping a buffer twice restores it |

## Left out

- Registers, safe-access unlock sequences, busy polling and interrupt locking: a register is a field or a parameter, a
  counter, capture or data register is an arbitrary value, and an interrupt-locked section is one step.
- The system timer in periodic mode announces 1 tick however far the counter moved; only its word and alarm are stated.
- Ticks of less than 1 or more than 2^31-1 hardware cycles, which no shipped setting gives.
- SysTimer.SysTimerDriver.SetTimeout: a request of INT_MIN is excluded, because `ticks - 1` then overflows in C.
- SysTimer.ClosedLoopConservesTicks: a timeout set later than about 2^31 cycles after the last boundary is outside the
  schedule; the alarm is then as `AlarmInPastIff` and `RoundingIsExact` say.
- SysTimer.AlarmMeetsRequest: stated away from the last 2^33 cycles of 64-bit time, where `cyc + last_count` could wrap.
- The microsecond, nanosecond and cycle wrappers of `z_tmcvt` are instances of the general statements and are not listed.
- SList.SList.Merge: merging a list with itself is excluded; the source then loses the list's contents.
- The head and tail peeks and the container macros of the singly-linked list: reads of one field.
- GpioCallbacks.FireCallbacks: handlers that remove other registered callbacks are excluded, as include/drivers/gpio.h
  forbids them; a handler's behaviour is a script fixed per position, which covers every run of handlers that end.
- A null callback list, `CONFIG_GPIO_SUPPORT_INTERRUPT` off, and GPIO port and pin access.
- `sys_dlist_is_head`, `sys_dlist_is_tail` and the `not_empty` / `no_check` peeks on their own, and the iteration macros.
- DList.InsertAt: the condition is a pure function of the node; one that changes the list while it is walked is not modelled.
- ADC reads that overlap a read in progress, the non-interrupt build, channel set-up other than the selection, the DMA flag and calibration.
- AdcSequence.AdcDriver.Read: a request for no channel at all is excluded; the source then shifts by a wrapped index.
- AdcSequence.AdcDriver.Handler: the stored pointer is a position in the caller's buffer, which is assumed to have the size
  that the request states; callbacks answer one of the three actions and do not write the buffer.
- Floating point in the ch57x calibration: the slope is an exact number of tenths, truncated toward zero as in C, so float
  rounding of `diff_1 * CNT_STEP_K` at exact multiples is not captured.
- LsiCalibration57.EveryCalibrationIsSound: readings so far off that a 16-bit difference or figure truncates are excluded.
- Clocks with a divider field of 0 (1 MHz, or a 15 MHz PLL), for which the ch57x calibration divides by zero: the profile
  requires a divider. Register mode 2 has a profile, though the clock set-up never selects it.
- The second attempt in the ch57x `hal_clk_lsi_calibrate`, which repeats the loop when the figure is above 15.
- LsiCalibration58.CoarseIsSound: a threshold of 0 is excluded (a system clock too slow for the RTC frequency); the source
  then divides by zero. Clocks above 1 GHz, where the 32-bit products overflow, are excluded too.
- The ch58x fine trim after the coarse loop.
- Negative bit numbers in atomic.h, and how the target makes each fetch-and-or or fetch-and-and atomic.
- The host-order wrappers of byteorder.h (`sys_le16_to_cpu` and its family): identities or the swaps proved here.
- The ring buffer, buffer pools, RTC, UART, pin control, power management, Bluetooth, logging, boot and build parts.
