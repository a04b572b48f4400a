/**
 The configuration of the audio processing module as a state machine: stream formats,
 processing rates, the capture buffer, and the handles of the seven components.
 */
module AudioProcessingModel {
  import opened Maybe

  const RATE_8K := 8000
  const RATE_16K := 16000
  const RATE_32K := 32000
  const RATE_48K := 48000

  datatype Error =
    | NoError
    | CreationFailed
    // A handle's own error; the source reports both alike.
    | InitFailed
    | ConfigureFailed
    | BadParameter
    | BadSampleRate
    | BadDataLength
    | BadNumberChannels
    | UnsupportedComponent

  // ---------------------------------------------------------------- formats

  datatype Stream = Stream(rate: int, channels: int, keyboard: bool)

  datatype Config = Config(input: Stream, output: Stream, reverseInput: Stream, reverseOutput: Stream)

  /** The number of 10 ms frames as the source computes it: truncated, and wrapped when negative. */
  function Frames(rate: int): nat {
    if rate >= 0 then rate * 10 / 1000
    else if -rate * 10 < 1000 then 0
    else 0x1_0000_0000_0000_0000 - (-rate * 10 / 1000) % 0x1_0000_0000_0000_0000
  }

  /** What a new configuration is refused for. */
  function StreamError(s: Stream): Error {
    if s.channels < 0 then BadNumberChannels
    else if s.channels > 0 && s.rate <= 0 then BadSampleRate
    else NoError
  }

  function FirstError(a: Error, b: Error): Error {
    if a != NoError then a else b
  }

  function ConfigError(c: Config, o: Options): Error {
    var e := FirstError(FirstError(StreamError(c.input), StreamError(c.output)),
                        FirstError(StreamError(c.reverseInput), StreamError(c.reverseOutput)));
    if e != NoError then e
    else if c.input.channels == 0 || !(c.output.channels == 1 || c.output.channels == c.input.channels) then
      BadNumberChannels
    else if o.beamformer && (c.input.channels != o.microphones || c.output.channels > 1) then BadNumberChannels
    else NoError
  }

  /** The closest native rate at or above the lower of the two rates, but 16 kHz at most for AECM. */
  function ForwardRate(input: int, output: int, mobile: bool): nat {
    var low := if output < input then output else input;
    if mobile && low > RATE_16K then RATE_16K
    else if low > RATE_32K then RATE_48K
    else if low > RATE_16K then RATE_32K
    else if low > RATE_8K then RATE_16K
    else RATE_8K
  }

  function ReverseRate(forward: nat, reverseInput: int): nat {
    if forward == RATE_8K then RATE_8K
    else if reverseInput == RATE_32K then RATE_32K
    else RATE_16K
  }

  function SplitRate(forward: nat): nat {
    if forward == RATE_32K || forward == RATE_48K then RATE_16K else forward
  }

  // ---------------------------------------------------------------- buffers

  /** The shape of an audio buffer. */
  datatype Buffer = Buffer(
    inputFrames: nat, inputChannels: int, frames: nat, channels: int, outputFrames: nat,
    bands: nat, framesPerBand: nat, splittingFilter: bool)

  function NumBands(frames: nat): (n: nat)
    ensures 1 <= n <= 3 && frames % n == 0
  {
    if frames == 320 || frames == 480 then frames / 160 else 1
  }

  function NewBuffer(inputFrames: nat, inputChannels: int, frames: nat, channels: int, outputFrames: nat): Buffer {
    var bands := NumBands(frames);
    Buffer(inputFrames, inputChannels, frames, channels, outputFrames, bands, frames / bands, bands > 1)
  }

  /** What the constructor of a buffer asserts. */
  predicate BufferAsserts(b: Buffer) {
    && b.inputFrames > 0 && b.frames > 0 && b.outputFrames > 0
    && b.inputChannels > 0 && 0 < b.channels <= b.inputChannels
  }

  // ---------------------------------------------------------------- components

  /** A handle is missing, created but not initialised, or initialised for a rate and perhaps configured. */
  datatype Handle = Missing | Unready | Live(rate: nat, configured: bool)

  datatype Component = Component(enabled: bool, initialized: bool, numHandles: nat, handles: seq<Handle>)

  const NEW_COMPONENT := Component(false, false, 0, [])

  /** What the source asserts of a component whenever it walks over its handles. */
  predicate Sound(c: Component) {
    c.numHandles <= |c.handles|
  }

  /** How the foreign code answers while a component initialises: where it first fails, if at all. */
  datatype Answer = AllWell | CreateFails(at: nat) | InitFails(at: nat) | ConfigureFails(at: nat)

  datatype Handles = Handles(handles: seq<Handle>, error: Error)

  /** Creates and initialises the handles from i to n. */
  function InitHandles(handles: seq<Handle>, i: nat, n: nat, rate: nat, answer: Answer): (r: Handles)
    requires i <= n <= |handles|
    ensures |r.handles| == |handles|
    decreases n - i
  {
    if i == n then Handles(handles, NoError)
    else if handles[i] == Missing && answer == CreateFails(i) then Handles(handles, CreationFailed)
    else if answer == InitFails(i) then Handles(handles[i := Unready], InitFailed)
    else InitHandles(handles[i := Live(rate, false)], i + 1, n, rate, answer)
  }

  function Configured(h: Handle, done: bool): Handle {
    if h.Live? then h.(configured := done) else h
  }

  /** Configures the handles from i to n. */
  function ConfigureHandles(handles: seq<Handle>, i: nat, n: nat, answer: Answer): (r: Handles)
    requires i <= n <= |handles|
    ensures |r.handles| == |handles|
    decreases n - i
  {
    if i == n then Handles(handles, NoError)
    else if answer == ConfigureFails(i) then Handles(handles[i := Configured(handles[i], false)], ConfigureFailed)
    else ConfigureHandles(handles[i := Configured(handles[i], true)], i + 1, n, answer)
  }

  function Missings(n: nat): (s: seq<Handle>)
    ensures |s| == n
  {
    if n == 0 then [] else [Missing] + Missings(n - 1)
  }

  datatype Outcome = Outcome(component: Component, error: Error)

  function Configure(c: Component, answer: Answer): (r: Outcome)
    requires Sound(c)
    ensures Sound(r.component)
  {
    if !c.initialized then Outcome(c, NoError)
    else
      var r := ConfigureHandles(c.handles, 0, c.numHandles, answer);
      Outcome(c.(handles := r.handles), r.error)
  }

  function InitComponent(c: Component, required: nat, rate: nat, answer: Answer): (r: Outcome)
    requires Sound(c)
    ensures Sound(r.component)
  {
    if !c.enabled then Outcome(c, NoError)
    else
      var room := if required > |c.handles| then c.handles + Missings(required - |c.handles|) else c.handles;
      var r := InitHandles(room, 0, required, rate, answer);
      var c' := c.(numHandles := required, handles := r.handles);
      if r.error != NoError then Outcome(c', r.error)
      else Configure(c'.(initialized := true), answer)
  }

  // The components in the order of the component list.
  datatype Kind = Aec | Aecm | Agc | HighPass | Level | Noise | Voice

  function Index(k: Kind): (i: nat)
    ensures i < 7
  {
    match k
    case Aec => 0
    case Aecm => 1
    case Agc => 2
    case HighPass => 3
    case Level => 4
    case Noise => 5
    case Voice => 6
  }

  // ---------------------------------------------------------------- the module

  datatype Options = Options(beamformer: bool, microphones: nat, newAgc: bool, intelligibility: bool)

  datatype Apm = Apm(
    options: Options, transient: bool, api: Config, forward: nat, reverse: nat, split: nat,
    render: Option<Buffer>, capture: Buffer, components: seq<Component>)

  predicate Formed(s: Apm) {
    |s.components| == 7 && AllSound(s.components) && s.api.output.channels >= 0
  }

  predicate AllSound(cs: seq<Component>) {
    forall i :: 0 <= i < |cs| ==> Sound(cs[i])
  }

  predicate Enabled(s: Apm, k: Kind)
    requires Formed(s)
  {
    s.components[Index(k)].enabled
  }

  /** How many handles a component needs: the reverse stream is always processed in mono. */
  function Required(i: nat, outputs: nat): nat {
    if i == Index(Level) || i == Index(Voice) then 1 else outputs
  }

  /** Initialises one component; AECM refuses rates above 16 kHz. */
  function InitKind(i: nat, c: Component, outputs: nat, forward: nat, answer: Answer): (r: Outcome)
    requires Sound(c)
    ensures Sound(r.component)
  {
    if i == Index(Aecm) && c.enabled && forward > RATE_16K then Outcome(c, BadSampleRate)
    else InitComponent(c, Required(i, outputs), forward, answer)
  }

  /**
   Failures the module swallows: of the manager of the new gain control, of a change of its
   compression gain, and of the options of the echo canceller.
   */
  datatype Ignored = Ignored(manager: Error, compressor: Option<Error>, options: Error)

  const NOTHING := Ignored(NoError, None, NoError)

  /** The state after a call, what it reports, and what it does not report. */
  datatype Result = Result(apm: Apm, error: Error, ignored: Ignored := NOTHING)

  /** The answers of the seven components, and from FIRST_OF_MANAGER on those to the gain manager. */
  function AnswerOf(answers: seq<Answer>, i: nat): Answer {
    if i < |answers| then answers[i] else AllWell
  }

  datatype Components = Components(components: seq<Component>, error: Error)

  /** Initialises the components from the i-th on, up to the first that fails. */
  function InitComponents(cs: seq<Component>, i: nat, outputs: nat, forward: nat, answers: seq<Answer>): (r: Components)
    requires i <= |cs| && AllSound(cs)
    ensures |r.components| == |cs| && AllSound(r.components)
    decreases |cs| - i
  {
    if i == |cs| then Components(cs, NoError)
    else
      var r := InitKind(i, cs[i], outputs, forward, AnswerOf(answers, i));
      var cs' := cs[i := r.component];
      if r.error != NoError then Components(cs', r.error)
      else InitComponents(cs', i + 1, outputs, forward, answers)
  }

  function CaptureBuffer(api: Config, forward: nat, o: Options): Buffer {
    NewBuffer(Frames(api.input.rate), api.input.channels, Frames(forward),
              if o.beamformer then api.input.channels else api.output.channels, Frames(api.output.rate))
  }

  /** The buffer of the reverse stream, if there is one. */
  function RenderBuffer(api: Config, reverse: nat): Option<Buffer> {
    var out := Frames(api.reverseOutput.rate);
    if api.reverseInput.channels > 0 then
      Some(NewBuffer(Frames(api.reverseInput.rate), api.reverseInput.channels, Frames(reverse), 1,
                     if out == 0 then Frames(reverse) else out))
    else None
  }

  const FIRST_OF_MANAGER := 7

  /** Configures a component for the i-th to n-th answer, up to the first failure. */
  function ConfigureAll(c: Component, answers: seq<Answer>, i: nat, n: nat): (r: Outcome)
    requires Sound(c) && i <= n
    ensures Sound(r.component)
    decreases n - i
  {
    if i == n then Outcome(c, NoError)
    else
      var r := Configure(c, AnswerOf(answers, i));
      if r.error != NoError then r else ConfigureAll(r.component, answers, i + 1, n)
  }

  /** The manager of the new gain control sets its mode, which initialises it again, and three settings. */
  function ManageGain(c: Component, outputs: nat, forward: nat, answers: seq<Answer>): (r: Outcome)
    requires Sound(c)
    ensures Sound(r.component)
  {
    var r := InitKind(Index(Agc), c, outputs, forward, AnswerOf(answers, FIRST_OF_MANAGER));
    if r.error != NoError then r
    else ConfigureAll(r.component, answers, FIRST_OF_MANAGER + 1, FIRST_OF_MANAGER + 4)
  }

  /** Initialises for the current format; a failure of the gain manager is not reported. */
  function Initialize(s: Apm, answers: seq<Answer>): (r: Result)
    requires Formed(s)
    ensures Formed(r.apm)
  {
    var r := InitComponents(s.components, 0, s.api.output.channels, s.forward, answers);
    var s' := s.(render := RenderBuffer(s.api, s.reverse), capture := CaptureBuffer(s.api, s.forward, s.options),
                 components := r.components);
    if r.error != NoError then Result(s', r.error)
    else if !s.options.newAgc then Result(s', NoError)
    else
      var gain := ManageGain(r.components[Index(Agc)], s.api.output.channels, s.forward, answers);
      Result(s'.(components := r.components[Index(Agc) := gain.component]), NoError, NOTHING.(manager := gain.error))
  }

  /** The new gain control may change its compression gain while a stream is processed; a failure is not reported. */
  function Compress(r: Result, compressor: Option<Answer>): (r': Result)
    requires Formed(r.apm)
    ensures Formed(r'.apm)
  {
    var s := r.apm;
    if s.options.newAgc && Enabled(s, Agc) && compressor.Some? then
      var gain := Configure(s.components[Index(Agc)], compressor.value);
      Result(s.(components := s.components[Index(Agc) := gain.component]), r.error,
             r.ignored.(compressor := Some(gain.error)))
    else r
  }

  function MaybeProcess(s: Apm, c: Config, answers: seq<Answer>, compressor: Option<Answer>): (r: Result)
    requires Formed(s)
    ensures Formed(r.apm)
  {
    var r := MaybeInitialize(s, c, answers);
    if r.error != NoError then r else Compress(r, compressor)
  }

  /** Options for the whole module; the echo canceller is configured for them, and a failure is not reported. */
  function SetExtraOptions(s: Apm, transient: bool, answer: Answer): (r: Result)
    requires Formed(s)
    ensures Formed(r.apm)
  {
    var aec := Configure(s.components[Index(Aec)], answer);
    Result(s.(transient := transient, components := s.components[Index(Aec) := aec.component]), NoError,
           NOTHING.(options := aec.error))
  }

  /** With the new gain control the settings of the old one do nothing. */
  predicate Shielded(s: Apm, k: Kind) {
    k == Agc && s.options.newAgc
  }

  /** Adopts a format, unless it is refused, and initialises for it. */
  function InitializeWith(s: Apm, c: Config, answers: seq<Answer>): (r: Result)
    requires Formed(s)
    ensures Formed(r.apm)
  {
    var e := ConfigError(c, s.options);
    if e != NoError then Result(s, e)
    else
      var forward := ForwardRate(c.input.rate, c.output.rate, Enabled(s, Aecm));
      Initialize(s.(api := c, forward := forward, reverse := ReverseRate(forward, c.reverseInput.rate),
                    split := SplitRate(forward)), answers)
  }

  /** Only a changed format initialises anew. */
  function MaybeInitialize(s: Apm, c: Config, answers: seq<Answer>): (r: Result)
    requires Formed(s)
    ensures Formed(r.apm)
  {
    if c == s.api then Result(s, NoError) else InitializeWith(s, c, answers)
  }

  /** Enabling a component initialises it, and takes the enabling back if that fails. */
  function EnableOne(i: nat, c: Component, enable: bool, outputs: nat, forward: nat, answer: Answer): (r: Outcome)
    requires Sound(c)
    ensures Sound(r.component)
  {
    if enable && !c.enabled then
      var r := InitKind(i, c.(enabled := true), outputs, forward, answer);
      if r.error != NoError then Outcome(r.component.(enabled := false), r.error) else r
    else Outcome(c.(enabled := enable), NoError)
  }

  function EnableComponent(s: Apm, k: Kind, enable: bool, answer: Answer): (r: Result)
    requires Formed(s)
    ensures Formed(r.apm)
  {
    var i := Index(k);
    var r := EnableOne(i, s.components[i], enable, s.api.output.channels, s.forward, answer);
    Result(s.(components := s.components[i := r.component]), r.error)
  }

  function Enable(s: Apm, k: Kind, enable: bool, answer: Answer): (r: Result)
    requires Formed(s)
    ensures Formed(r.apm)
  {
    if enable && ((k == Aec && Enabled(s, Aecm)) || (k == Aecm && Enabled(s, Aec))) then Result(s, BadParameter)
    else EnableComponent(s, k, enable, answer)
  }

  /** A setting that configures one component anew. */
  function Reconfigure(s: Apm, k: Kind, answer: Answer): (r: Result)
    requires Formed(s)
    ensures Formed(r.apm)
  {
    var i := Index(k);
    var r := if Shielded(s, k) then Outcome(s.components[i], NoError) else Configure(s.components[i], answer);
    Result(s.(components := s.components[i := r.component]), r.error)
  }

  /** A setting that initialises one component anew, such as an echo path or a gain mode. */
  function Reinitialize(s: Apm, k: Kind, answer: Answer): (r: Result)
    requires Formed(s)
    ensures Formed(r.apm)
  {
    var i := Index(k);
    var r := if Shielded(s, k) then Outcome(s.components[i], NoError)
             else InitKind(i, s.components[i], s.api.output.channels, s.forward, answer);
    Result(s.(components := s.components[i := r.component]), r.error)
  }

  predicate NativeRate(rate: int) {
    rate == RATE_8K || rate == RATE_16K || rate == RATE_32K || rate == RATE_48K
  }

  /** The 16-bit interface: one native rate for input and output, at most 16 kHz for AECM. */
  function ProcessFrame(
      s: Apm, rate: int, channels: int, samples: nat, answers: seq<Answer>, compressor: Option<Answer>): (r: Result)
    requires Formed(s)
    ensures Formed(r.apm)
  {
    if !NativeRate(rate) then Result(s, BadSampleRate)
    else if Enabled(s, Aecm) && rate > RATE_16K then Result(s, UnsupportedComponent)
    else
      var input := s.api.input.(rate := rate, channels := channels);
      var output := s.api.output.(rate := rate, channels := channels);
      var r := MaybeInitialize(s, s.api.(input := input, output := output), answers);
      if r.error != NoError then r
      else if samples != Frames(r.apm.api.input.rate) then r.(error := BadDataLength)
      else Compress(r, compressor)
  }

  /** The reverse stream of the 16-bit interface, at the rate of the input stream. */
  function ReverseFrame(s: Apm, rate: int, channels: int, samples: nat, answers: seq<Answer>): (r: Result)
    requires Formed(s)
    ensures Formed(r.apm)
  {
    if !NativeRate(rate) || rate != s.api.input.rate then Result(s, BadSampleRate)
    else if channels <= 0 then Result(s, BadNumberChannels)
    else
      var input := s.api.reverseInput.(rate := rate, channels := channels);
      var output := s.api.reverseOutput.(rate := rate, channels := channels);
      var r := MaybeInitialize(s, s.api.(reverseInput := input, reverseOutput := output), answers);
      if r.error != NoError then r
      else if samples != Frames(r.apm.api.reverseInput.rate) then r.(error := BadDataLength)
      else r
  }

  datatype Event =
    | SetEnabled(kind: Kind, enable: bool, answer: Answer)
    | Reset(kind: Kind, answer: Answer)
    | Adjust(kind: Kind, answer: Answer)
    | SetOptions(transient: bool, answer: Answer)
    | InitializeAgain(answers: seq<Answer>)
    | InitializeFor(config: Config, answers: seq<Answer>)
    | ProcessStream(input: Stream, output: Stream, answers: seq<Answer>, compressor: Option<Answer>)
    | ProcessReverse(input: Stream, output: Stream, answers: seq<Answer>)
    | ProcessInt16(rate: int, channels: int, samples: nat, answers: seq<Answer>, compressor: Option<Answer>)
    | ReverseInt16(rate: int, channels: int, samples: nat, answers: seq<Answer>)

  function Next(s: Apm, e: Event): (r: Result)
    requires Formed(s)
    ensures Formed(r.apm)
  {
    match e
    case SetEnabled(k, enable, answer) => Enable(s, k, enable, answer)
    case Reset(k, answer) => Reinitialize(s, k, answer)
    case Adjust(k, answer) => Reconfigure(s, k, answer)
    case SetOptions(transient, answer) => SetExtraOptions(s, transient, answer)
    case InitializeAgain(answers) => Initialize(s, answers)
    case InitializeFor(config, answers) => InitializeWith(s, config, answers)
    case ProcessStream(input, output, answers, compressor) =>
      MaybeProcess(s, s.api.(input := input, output := output), answers, compressor)
    case ProcessReverse(input, output, answers) =>
      if input.channels <= 0 then Result(s, BadNumberChannels)
      else MaybeInitialize(s, s.api.(reverseInput := input, reverseOutput := output), answers)
    case ProcessInt16(rate, channels, samples, answers, compressor) =>
      ProcessFrame(s, rate, channels, samples, answers, compressor)
    case ReverseInt16(rate, channels, samples, answers) => ReverseFrame(s, rate, channels, samples, answers)
  }

  const MONO_16K := Stream(RATE_16K, 1, false)

  /** The module after a successful creation: everything disabled, mono at 16 kHz. */
  function Created(o: Options, transient: bool): (s: Apm)
    ensures Formed(s)
  {
    var api := Config(MONO_16K, MONO_16K, MONO_16K, MONO_16K);
    Apm(o, transient, api, RATE_16K, RATE_16K, RATE_16K, RenderBuffer(api, RATE_16K), CaptureBuffer(api, RATE_16K, o),
        [NEW_COMPONENT, NEW_COMPONENT, NEW_COMPONENT, NEW_COMPONENT, NEW_COMPONENT, NEW_COMPONENT, NEW_COMPONENT])
  }

  function Run(s: Apm, events: seq<Event>): (r: Apm)
    requires Formed(s)
    ensures Formed(r)
    decreases |events|
  {
    if events == [] then s else Run(Next(s, events[0]).apm, events[1..])
  }

  // ---------------------------------------------------------------- what processing needs

  function EnabledCount(cs: seq<Component>): nat {
    if cs == [] then 0 else EnabledCount(cs[1..]) + if cs[0].enabled then 1 else 0
  }

  /** Whether any component changes the data: level estimation and voice detection only look at it. */
  predicate DataProcessed(s: Apm)
    requires Formed(s)
  {
    var n := EnabledCount(s.components);
    || s.options.beamformer
    || !(|| n == 0
         || (n == 1 && (Enabled(s, Level) || Enabled(s, Voice)))
         || (n == 2 && Enabled(s, Level) && Enabled(s, Voice)))
  }

  predicate SuperWideband(s: Apm) {
    s.forward == RATE_32K || s.forward == RATE_48K
  }

  predicate SynthesisNeeded(s: Apm)
    requires Formed(s)
  {
    DataProcessed(s) && SuperWideband(s)
  }

  predicate AnalysisNeeded(s: Apm)
    requires Formed(s)
  {
    if !DataProcessed(s) && !Enabled(s, Voice) && !s.transient then false else SuperWideband(s)
  }
}
