/** One interrupt-mode ADC read: drivers/adc/adc.c with the sequencing of drivers/adc/adc_context.h.  The class is the
    driver's data; `Step` is what one conversion interrupt does to it; the lemmas describe whole reads for arbitrary samples
    and arbitrary callback answers. */
module AdcSequence {
  import opened MachineInts

  datatype Action = Continue | Repeat | Finish

  datatype Options = Options(hasCallback: bool, extraSamplings: u16)

  datatype Option<+T> = None | Some(value: T)

  datatype Request = Request(channels: u32, buffer: array<u16>, bufferSize: u32, options: Option<Options>)

  datatype Error = NoError | NotSupported | NoMemory

  // ----- the code ------------------------------------------------------------------------------------------------

  /** `find_lsb_set(x) - 1`. */
  function LowestBit(x: nat): nat
    requires 0 < x
  {
    if x % 2 == 1 then 0 else 1 + LowestBit(x / 2)
  }

  /** `BIT(k)`, for the bit numbers of a word. */
  function Pow2(k: nat): (p: nat)
    ensures 0 < p
  {
    if k == 0 then 1 else 2 * Pow2(k - 1)
  }

  /** Bytes the request will fill, in 32 unsigned bits. */
  function NeededSize(options: Option<Options>): u32 {
    if options.Some? then U32(2 * (1 + options.value.extraSamplings)) else 2
  }

  /** The driver's words that a conversion interrupt reads and writes, and the caller's buffer. */
  datatype Sampling = Sampling(busy: bool, index: u16, pos: nat, repeatPos: nat, slots: seq<u16>)

  /** `adc_wch_handler` and `adc_context_on_sampling_done` for a stored value and a callback's answer. */
  function Step(st: Sampling, options: Option<Options>, sample: u16, answer: Action): Sampling
    requires st.pos < |st.slots|
  {
    var stored := st.(slots := st.slots[st.pos := sample]);
    if options.None? then
      stored.(busy := false)
    else
      var action := if options.value.hasCallback then answer else Continue;
      var last := action == Finish || (action == Continue && st.index >= options.value.extraSamplings);
      var index := if action == Continue && !last then U16(st.index + 1) else st.index;
      var pos := if last then st.pos else if action == Repeat then st.repeatPos else st.pos + 1;
      Sampling(!last, index, pos, if last then st.repeatPos else pos, stored.slots)
  }

  class AdcDriver {
    var channel: nat              // the hardware's channel selection
    var offset: i16
    var status: int
    var options: Option<Options>  // `ctx.sequence.options`, pointing at the driver's copy
    var samplingIndex: u16
    var buffer: array<u16>
    var pos: nat                  // where `data->buffer` points in the buffer
    var repeatPos: nat            // where `data->repeat_buffer` points
    ghost var started: nat        // conversions started with `hal_adc_start`

    constructor (offset: i16)
      ensures this.offset == offset && status == 0
    {
      channel := 0;
      this.offset, status, options, samplingIndex, pos, repeatPos, started := offset, 0, None, 0, 0, 0, 0;
      buffer := new u16[0];
    }

    ghost function View(): Sampling
      reads this, buffer
    {
      Sampling(status != 0, samplingIndex, pos, repeatPos, buffer[..])
    }

    /** `adc_wch_read` followed by `adc_context_start_read`.  The caller's buffer really has the size it states. */
    method Read(request: Request) returns (err: Error)
      requires 0 < request.channels && request.bufferSize <= 2 * request.buffer.Length
      modifies this
      ensures err == (if request.channels > Pow2(LowestBit(request.channels)) then NotSupported
                      else if request.bufferSize < NeededSize(request.options) then NoMemory
                      else NoError)
      ensures err == NoMemory ==>
                request.bufferSize < if request.options.Some? then 2 * (1 + request.options.value.extraSamplings) else 2
      ensures err == NoError ==>
                (if request.options.Some? then 2 * (1 + request.options.value.extraSamplings) else 2) <= request.bufferSize
      ensures channel == if err == NotSupported then old(channel) else LowestBit(request.channels)
      ensures offset == old(offset)
      ensures if err != NoError then
                unchanged(this`status, this`options, this`samplingIndex, this`buffer, this`pos, this`repeatPos, this`started)
              else
              && buffer == request.buffer && options == request.options && started == old(started) + 1
              && View() == Sampling(true, if options.Some? then 0 else old(samplingIndex), 0, 0, buffer[..])
    {
      var index := LowestBit(request.channels);
      if request.channels > Pow2(index) {
        return NotSupported;
      }
      channel := index;
      var needed := 2;
      if request.options.Some? {
        needed := U32(needed * (1 + request.options.value.extraSamplings));
      }
      if request.bufferSize < needed {
        return NoMemory;
      }
      buffer := request.buffer;
      pos := 0;
      options := request.options;
      status := 1;
      if request.options.Some? {
        samplingIndex := 0;
      }
      StartSampling();
      err := NoError;
    }

    /** `adc_context_start_sampling`. */
    method StartSampling()
      modifies this`repeatPos, this`started
      ensures repeatPos == pos && started == old(started) + 1
    {
      repeatPos := pos;
      started := started + 1;
    }

    /** `adc_context_update_buffer_pointer`. */
    method UpdateBufferPointer(repeatSampling: bool)
      modifies this`pos
      ensures pos == if repeatSampling then repeatPos else old(pos) + 1
    {
      if repeatSampling {
        pos := repeatPos;
      } else {
        pos := pos + 1;
      }
    }

    /** `adc_context_on_sampling_done`; `answer` is what the callback, if there is one, returns. */
    method OnSamplingDone(answer: Action)
      requires status != 0
      modifies this
      ensures buffer == old(buffer) && options == old(options) && offset == old(offset) && channel == old(channel)
      ensures old(pos) < buffer.Length ==>
                View() == Step(old(View()), options, buffer[old(pos)], answer).(slots := buffer[..])
      ensures started == old(started) + (if status == 0 then 0 else 1)
    {
      if options.Some? {
        var finish, repeat := false, false;
        var action := if options.value.hasCallback then answer else Continue;
        match action {
          case Repeat => repeat := true;
          case Finish => finish := true;
          case Continue =>
            if samplingIndex < options.value.extraSamplings {
              samplingIndex := samplingIndex + 1;
            } else {
              finish := true;
            }
        }
        if !finish {
          UpdateBufferPointer(repeat);
          StartSampling();
          return;
        }
      }
      status := 0;
    }

    /** `adc_wch_handler` when the conversion flag is set: `raw` is the data register. */
    method Handler(raw: u16, answer: Action)
      requires status != 0 && pos < buffer.Length
      modifies this, buffer
      ensures buffer == old(buffer) && options == old(options) && offset == old(offset) && channel == old(channel)
      ensures View() == Step(old(View()), options, U16(raw + offset), answer)
      ensures started == old(started) + (if status == 0 then 0 else 1)
    {
      buffer[pos] := U16(raw + offset);
      OnSamplingDone(answer);
    }
  }

  // ----- whole reads ---------------------------------------------------------------------------------------------

  /** The driver right after `Read` accepted a request with options, the buffer holding `slots`. */
  function Started(slots: seq<u16>): Sampling {
    Sampling(true, 0, 0, 0, slots)
  }

  /** The answer an interrupt acts on. */
  function Effective(options: Options, answer: Action): Action {
    if options.hasCallback then answer else Continue
  }

  function Continues(o: Options, answers: seq<Action>): nat {
    if answers == [] then 0
    else Continues(o, answers[..|answers| - 1]) + (if Effective(o, answers[|answers| - 1]) == Continue then 1 else 0)
  }

  function Repeats(o: Options, answers: seq<Action>): nat {
    if answers == [] then 0
    else Repeats(o, answers[..|answers| - 1]) + (if Effective(o, answers[|answers| - 1]) == Repeat then 1 else 0)
  }

  /** The answers that end a read: a finish, or one more continue than there are extra samplings. */
  ghost predicate Ending(o: Options, answers: seq<Action>) {
    (exists i :: 0 <= i < |answers| && Effective(o, answers[i]) == Finish) || Continues(o, answers) > o.extraSamplings
  }

  /** The driver after one interrupt for each sample and answer, in order. */
  function AfterInterrupts(o: Options, slots: seq<u16>, samples: seq<u16>, answers: seq<Action>): Sampling
    requires |samples| == |answers| && o.extraSamplings < |slots|
    requires answers != [] ==> !Ending(o, answers[..|answers| - 1])
    ensures var st := AfterInterrupts(o, slots, samples, answers);
            && st.busy == !Ending(o, answers)
            && (st.busy ==> st.pos == st.index == st.repeatPos == Continues(o, answers) <= o.extraSamplings)
            && (!st.busy ==> st.pos == st.index == st.repeatPos == Continues(o, answers[..|answers| - 1]) <= o.extraSamplings)
            && |st.slots| == |slots|
  {
    if answers == [] then
      Started(slots)
    else
      var n := |answers| - 1;
      assert n > 0 ==> !Ending(o, answers[..n][..n - 1]) by {
        EndingPersists(o, answers[..n]);
      }
      EndingStep(o, answers);
      var st := AfterInterrupts(o, slots, samples[..n], answers[..n]);
      Step(st, Some(o), samples[n], answers[n])
  }

  lemma EndingPersists(o: Options, answers: seq<Action>)
    ensures answers != [] && Ending(o, answers[..|answers| - 1]) ==> Ending(o, answers)
  {
  }

  lemma EndingStep(o: Options, answers: seq<Action>)
    requires answers != [] && !Ending(o, answers[..|answers| - 1])
    ensures var last := Effective(o, answers[|answers| - 1]);
            Ending(o, answers) <==> last == Finish || (last == Continue && Continues(o, answers[..|answers| - 1]) == o.extraSamplings)
  {
    var n := |answers| - 1;
    assert forall i :: 0 <= i < n ==> answers[i] == answers[..n][i];
  }

  /** The slot an interrupt stores into, by the answers before it. */
  function SlotOf(o: Options, answers: seq<Action>, i: nat): nat
    requires i <= |answers|
  {
    Continues(o, answers[..i])
  }

  /** The latest interrupt that stored into slot `k`, -1 if none did. */
  function LatestFor(o: Options, answers: seq<Action>, k: nat): (i: int)
    ensures -1 <= i < |answers|
  {
    if answers == [] then -1
    else if Continues(o, answers[..|answers| - 1]) == k then |answers| - 1
    else LatestFor(o, answers[..|answers| - 1], k)
  }

  lemma {:induction false} LatestForIsLatest(o: Options, answers: seq<Action>, k: nat)
    ensures var i := LatestFor(o, answers, k);
            && (i >= 0 ==> SlotOf(o, answers, i) == k)
            && forall j :: i < j < |answers| ==> SlotOf(o, answers, j) != k
  {
    if answers != [] {
      var n := |answers| - 1;
      LatestForIsLatest(o, answers[..n], k);
      forall j | 0 <= j <= n ensures j < n ==> SlotOf(o, answers, j) == SlotOf(o, answers[..n], j) {
        assert j < n ==> answers[..j] == answers[..n][..j];
      }
    }
  }

  /** During any read, whatever the samples and answers, each slot holds the last sample taken for it, and every slot not yet
      reached what the buffer held before. */
  lemma {:induction false} ReadFillsSlots(o: Options, slots: seq<u16>, samples: seq<u16>, answers: seq<Action>)
    requires |samples| == |answers| && o.extraSamplings < |slots|
    requires answers != [] ==> !Ending(o, answers[..|answers| - 1])
    ensures var st := AfterInterrupts(o, slots, samples, answers);
            forall k :: 0 <= k < |slots| ==>
                 st.slots[k] == if LatestFor(o, answers, k) >= 0 then samples[LatestFor(o, answers, k)] else slots[k]
  {
    forall k: nat { LatestForIsLatest(o, answers, k); }
    if answers != [] {
      var n := |answers| - 1;
      EndingPersists(o, answers[..n]);
      ReadFillsSlots(o, slots, samples[..n], answers[..n]);
      forall k: nat { LatestForIsLatest(o, answers[..n], k); }
    }
  }

  /** A read that has not ended has had at most `extraSamplings` interrupts besides the repeats, so it ends by interrupt
      number `1 + extraSamplings + repeats` at the latest. */
  lemma {:induction false} ReadEndsInTime(o: Options, answers: seq<Action>)
    ensures !Ending(o, answers) ==> |answers| == Continues(o, answers) + Repeats(o, answers) <= o.extraSamplings + Repeats(o, answers)
    ensures |answers| >= 1 + o.extraSamplings + Repeats(o, answers) ==> Ending(o, answers)
  {
    if answers != [] && !Ending(o, answers) {
      var n := |answers| - 1;
      EndingPersists(o, answers);
      ReadEndsInTime(o, answers[..n]);
    }
  }

  /** Without a callback the read takes exactly `1 + extraSamplings` interrupts and the samples are in the buffer in order. */
  lemma {:induction false} ReadWithoutCallback(o: Options, slots: seq<u16>, samples: seq<u16>, answers: seq<Action>)
    requires !o.hasCallback && |samples| == |answers| <= 1 + o.extraSamplings && o.extraSamplings < |slots|
    ensures answers != [] ==> !Ending(o, answers[..|answers| - 1])
    ensures Continues(o, answers) == |answers|
    ensures var st := AfterInterrupts(o, slots, samples, answers);
            && (st.busy <==> |answers| <= o.extraSamplings)
            && st.slots == samples + slots[|samples|..]
  {
    if answers != [] {
      var n := |answers| - 1;
      ReadWithoutCallback(o, slots, samples[..n], answers[..n]);
    }
  }

  /** A request without options is one sample in slot 0. */
  lemma SingleSample(st: Sampling, sample: u16, answer: Action)
    requires st.pos == 0 && st.slots != []
    ensures var after := Step(st, None, sample, answer);
            after == st.(busy := false, slots := [sample] + st.slots[1..])
  {
  }

  /** Whether the first interrupts of some run leave the read busy and about to store into slot `k`. */
  ghost predicate Reachable(o: Options, k: nat) {
    exists answers :: !Ending(o, answers) && Continues(o, answers) == k
  }

  lemma {:induction false} OnlyContinues(o: Options, k: nat)
    ensures var answers := seq(k, i => Continue);
            Continues(o, answers) == k && forall i :: 0 <= i < k ==> Effective(o, answers[i]) == Continue
  {
    if k > 0 {
      OnlyContinues(o, k - 1);
      assert seq(k, i => Continue)[..k - 1] == seq(k - 1, i => Continue);
    }
  }

  /** Reachable are exactly the slots up to the number of extra samplings, for a callback or none. */
  lemma ReachableIff(o: Options, k: nat)
    ensures Reachable(o, k) <==> k <= o.extraSamplings
  {
    if k <= o.extraSamplings {
      OnlyContinues(o, k);
      assert !Ending(o, seq(k, i => Continue));
    }
  }

  /** The size test made once at the start accepts exactly the buffers with room for every slot a run of answers can reach:
      not a byte less, and not a byte more is asked for. */
  lemma SizeCheckIff(options: Option<Options>, bufferSize: u32)
    ensures NeededSize(options) <= bufferSize
       <==> 2 <= bufferSize && (options.Some? ==> forall k: nat :: Reachable(options.value, k) ==> 2 * (k + 1) <= bufferSize)
  {
    if options.Some? {
      ReachableIff(options.value, options.value.extraSamplings);
      forall k: nat ensures Reachable(options.value, k) <==> k <= options.value.extraSamplings { ReachableIff(options.value, k); }
    }
  }

  /** So every slot the read can reach is in the caller's buffer. */
  lemma SizeCheckSuffices(options: Option<Options>, bufferSize: u32, length: nat)
    requires NeededSize(options) <= bufferSize <= 2 * length
    ensures 0 < length && (options.Some? ==> options.value.extraSamplings < length)
    ensures options.Some? ==> forall k: nat :: Reachable(options.value, k) ==> k < length
  {
    SizeCheckIff(options, bufferSize);
  }

  lemma LowestBitOfDouble(x: nat)
    requires 0 < x
    ensures LowestBit(2 * x) == 1 + LowestBit(x)
  {
    assert (2 * x) / 2 == x;
  }

  lemma {:induction false} PowerIsItsLowestBit(k: nat)
    ensures LowestBit(Pow2(k)) == k
  {
    hide LowestBit;
    if k > 0 {
      PowerIsItsLowestBit(k - 1);
      LowestBitOfDouble(Pow2(k - 1));
    } else {
      OddHasLowestBitZero(1);
    }
  }

  lemma OddHasLowestBitZero(x: nat)
    requires x % 2 == 1
    ensures LowestBit(x) == 0
  {
  }

  lemma {:induction false} LowestBitIsBelow(channels: nat)
    requires 0 < channels
    ensures Pow2(LowestBit(channels)) <= channels
  {
    if channels % 2 == 0 {
      LowestBitIsBelow(channels / 2);
    }
  }

  /** The channel test rejects exactly the masks with more than one bit, and of the others it selects the one channel. */
  lemma SingleChannelIff(channels: nat)
    requires 0 < channels
    ensures channels > Pow2(LowestBit(channels)) <==> !exists k :: channels == Pow2(k)
    ensures forall k :: channels == Pow2(k) ==> LowestBit(channels) == k
  {
    hide LowestBit, Pow2;
    LowestBitIsBelow(channels);
    forall k | channels == Pow2(k) ensures LowestBit(channels) == k { PowerIsItsLowestBit(k); }
  }
}
