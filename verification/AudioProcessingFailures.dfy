/**
 Which answers of the foreign code leave a component of the audio processing module unready, and
 which calls therefore do, by the state before the call and its inputs alone.
 */
module AudioProcessingFailures {
  import opened Maybe
  import opened AudioProcessingModel
  import opened AudioProcessingLaws
  import opened AudioProcessingReady

  // ---------------------------------------------------------------- one component

  /** The answer fails one of the handles a component needs; only a missing handle is created. */
  predicate Hits(c: Component, required: nat, answer: Answer) {
    match answer
    case AllWell => false
    case CreateFails(k) => k < required && (k < |c.handles| ==> c.handles[k] == Missing)
    case InitFails(k) => k < required
    case ConfigureFails(k) => k < required
  }

  /** The answer fails the configuration of one of n handles. */
  predicate ConfigureHits(n: nat, answer: Answer) {
    answer.ConfigureFails? && answer.at < n
  }

  /** The answer fails the initialisation of one of n handles. */
  predicate InitHits(n: nat, answer: Answer) {
    answer.InitFails? && answer.at < n
  }

  function Failure(answer: Answer): Error {
    match answer
    case AllWell => NoError
    case CreateFails(_) => CreationFailed
    case InitFails(_) => InitFailed
    case ConfigureFails(_) => ConfigureFailed
  }

  lemma {:induction false} InitHandlesHit(handles: seq<Handle>, i: nat, n: nat, rate: nat, answer: Answer)
    requires i <= n <= |handles|
    ensures InitHandles(handles, i, n, rate, answer).error
            == if || (answer.InitFails? && i <= answer.at < n)
                  || (answer.CreateFails? && i <= answer.at < n && handles[answer.at] == Missing)
               then Failure(answer) else NoError
    decreases n - i
  {
    if i < n && !(handles[i] == Missing && answer == CreateFails(i)) && answer != InitFails(i) {
      InitHandlesHit(handles[i := Live(rate, false)], i + 1, n, rate, answer);
    }
  }

  lemma {:induction false} ConfigureHandlesHit(handles: seq<Handle>, i: nat, n: nat, answer: Answer)
    requires i <= n <= |handles|
    ensures ConfigureHandles(handles, i, n, answer).error
            == if answer.ConfigureFails? && i <= answer.at < n then ConfigureFailed else NoError
    decreases n - i
  {
    if i < n && answer != ConfigureFails(i) {
      ConfigureHandlesHit(handles[i := Configured(handles[i], true)], i + 1, n, answer);
    }
  }

  lemma ConfigureHit(c: Component, answer: Answer)
    requires Sound(c) && c.initialized
    ensures var r := Configure(c, answer);
            && r.error == (if ConfigureHits(c.numHandles, answer) then ConfigureFailed else NoError)
            && r.component.initialized && r.component.numHandles == c.numHandles
  {
    ConfigureHandlesHit(c.handles, 0, c.numHandles, answer);
  }

  /** Initialising an enabled component fails exactly when the answer hits it. */
  lemma InitHit(c: Component, required: nat, rate: nat, answer: Answer)
    requires Sound(c) && c.enabled
    ensures InitComponent(c, required, rate, answer).error
            == if Hits(c, required, answer) then Failure(answer) else NoError
  {
    hide InitHandles, ConfigureHandles;
    var room := if required > |c.handles| then c.handles + Missings(required - |c.handles|) else c.handles;
    if answer.CreateFails? && answer.at < required && answer.at >= |c.handles| {
      MissingAt(required - |c.handles|, answer.at - |c.handles|);
    }
    InitHandlesHit(room, 0, required, rate, answer);
    ConfigureHandlesHit(InitHandles(room, 0, required, rate, answer).handles, 0, required, answer);
  }

  lemma {:induction false} MissingAt(n: nat, k: nat)
    requires k < n
    ensures Missings(n)[k] == Missing
  {
    if k > 0 {
      MissingAt(n - 1, k - 1);
    }
  }

  /** So it leaves the component ready exactly when the answer does not hit it. */
  lemma ReadyUnlessHit(c: Component, required: nat, rate: nat, answer: Answer)
    requires Sound(c) && c.enabled
    ensures Ready(InitComponent(c, required, rate, answer).component, required, rate) <==> !Hits(c, required, answer)
  {
    hide InitComponent, Ready;
    InitHit(c, required, rate, answer);
    InitMakesReady(c, required, rate, answer);
  }

  lemma KindHit(i: nat, c: Component, outputs: nat, forward: nat, answer: Answer)
    requires Sound(c) && (i == Index(Aecm) && c.enabled ==> forward <= RATE_16K)
    ensures InitKind(i, c, outputs, forward, answer).error
            == if c.enabled && Hits(c, Required(i, outputs), answer) then Failure(answer) else NoError
  {
    hide InitHandles, ConfigureHandles, Required;
    if c.enabled {
      InitHit(c, Required(i, outputs), forward, answer);
    }
  }

  // ---------------------------------------------------------------- the gain manager

  /** One of the manager's calls fails a handle of gain control: setting its mode, or one of three settings. */
  predicate ManagerHits(outputs: nat, answers: seq<Answer>) {
    || InitHits(outputs, AnswerOf(answers, FIRST_OF_MANAGER))
    || exists j :: FIRST_OF_MANAGER <= j < FIRST_OF_MANAGER + 4 && ConfigureHits(outputs, AnswerOf(answers, j))
  }

  lemma {:induction false} ConfigureAllHit(c: Component, answers: seq<Answer>, i: nat, n: nat)
    requires Sound(c) && c.initialized && i <= n
    ensures var r := ConfigureAll(c, answers, i, n);
            && (r.error == NoError || r.error == ConfigureFailed)
            && (r.error == NoError <==> forall j :: i <= j < n ==> !ConfigureHits(c.numHandles, AnswerOf(answers, j)))
    decreases n - i
  {
    hide Configure, ConfigureHits, AnswerOf;
    if i < n {
      ConfigureHit(c, AnswerOf(answers, i));
      var r := Configure(c, AnswerOf(answers, i));
      if r.error == NoError {
        ConfigureAllHit(r.component, answers, i + 1, n);
      }
    }
  }

  /** On a gain control with live handles the manager fails exactly when one of its calls is hit. */
  lemma ManagerHit(c: Component, outputs: nat, forward: nat, answers: seq<Answer>)
    requires Sound(c) && c.enabled && Alive(c, outputs, forward)
    ensures var r := ManageGain(c, outputs, forward, answers);
            && (r.error == NoError <==> !ManagerHits(outputs, answers))
            && (Fatal(r.error) <==> InitHits(outputs, AnswerOf(answers, FIRST_OF_MANAGER)))
  {
    hide InitKind, ConfigureAll, AnswerOf;
    var answer := AnswerOf(answers, FIRST_OF_MANAGER);
    var r := InitKind(Index(Agc), c, outputs, forward, answer);
    KindHit(Index(Agc), c, outputs, forward, answer);
    ComponentReady(Index(Agc), c, outputs, forward, answer);
    if r.error == NoError {
      assert r.component.numHandles == outputs;
      ConfigureAllHit(r.component, answers, FIRST_OF_MANAGER + 1, FIRST_OF_MANAGER + 4);
    }
  }

  // ---------------------------------------------------------------- initialisation

  /** Some enabled component is hit by its answer. */
  predicate Struck(cs: seq<Component>, i: nat, outputs: nat, answers: seq<Answer>) {
    exists k :: i <= k < |cs| && cs[k].enabled && Hits(cs[k], Required(k, outputs), AnswerOf(answers, k))
  }

  lemma {:induction false} ComponentsHit(
      cs: seq<Component>, i: nat, outputs: nat, forward: nat, answers: seq<Answer>)
    requires i <= |cs| == 7 && AllSound(cs) && (cs[Index(Aecm)].enabled ==> forward <= RATE_16K)
    ensures InitComponents(cs, i, outputs, forward, answers).error == NoError <==> !Struck(cs, i, outputs, answers)
    decreases 7 - i
  {
    hide InitKind, Sound, Hits, AnswerOf, Required;
    if i < 7 {
      var answer := AnswerOf(answers, i);
      KindHit(i, cs[i], outputs, forward, answer);
      ComponentReady(i, cs[i], outputs, forward, answer);
      var r := InitKind(i, cs[i], outputs, forward, answer);
      FailureIsError(cs[i], Required(i, outputs), answer);
      if r.error == NoError {
        ComponentsHit(cs[i := r.component], i + 1, outputs, forward, answers);
      }
    }
  }

  lemma FailureIsError(c: Component, required: nat, answer: Answer)
    ensures Hits(c, required, answer) ==> Failure(answer) != NoError
  {
  }

  /** The new gain control is enabled, and the manager's calls fail one of its handles. */
  predicate ManagerStrikes(s: Apm, outputs: nat, answers: seq<Answer>)
    requires Formed(s)
  {
    s.options.newAgc && Enabled(s, Agc) && ManagerHits(outputs, answers)
  }

  /** What an initialisation reports and drops, by its answers. */
  lemma InitializeErrors(s: Apm, answers: seq<Answer>)
    requires Formed(s) && Exclusive(s)
    ensures var r := Initialize(s, answers);
            var outputs := s.api.output.channels;
            && (r.error == NoError <==> !Struck(s.components, 0, outputs, answers))
            && (r.error == NoError && Enabled(s, Agc) ==>
                  && (r.ignored.manager == NoError <==> !ManagerStrikes(s, outputs, answers))
                  && (Fatal(r.ignored.manager) <==>
                        s.options.newAgc && InitHits(outputs, AnswerOf(answers, FIRST_OF_MANAGER))))
  {
    hide InitComponents, ManageGain, CaptureBuffer, RenderBuffer, Ready, Alive, Struck, ManagerHits, InitHits, AnswerOf;
    var outputs := s.api.output.channels;
    ComponentsHit(s.components, 0, outputs, s.forward, answers);
    ComponentsReady(s.components, 0, outputs, s.forward, answers);
    InitKeepsEnabled(s.components, 0, outputs, s.forward, answers);
    var r := InitComponents(s.components, 0, outputs, s.forward, answers);
    var agc := r.components[Index(Agc)];
    SoundAt(r.components, Index(Agc));
    assert SameFlags(s.components[Index(Agc)], agc);
    if r.error == NoError && agc.enabled {
      assert Required(Index(Agc), outputs) == outputs;
      ReadyIsAlive(agc, outputs, s.forward);
      ManagerHit(agc, outputs, s.forward, answers);
    }
  }

  /** An initialisation with these answers leaves an enabled component unready. */
  predicate InitializeBreaks(s: Apm, outputs: nat, answers: seq<Answer>)
    requires Formed(s)
  {
    Struck(s.components, 0, outputs, answers) || ManagerStrikes(s, outputs, answers)
  }

  /**
   After an initialisation all enabled components are ready exactly when none of them is hit by
   its answer, and none of the gain manager's calls fails an enabled gain control.
   */
  lemma InitializeReadyWhen(s: Apm, answers: seq<Answer>)
    requires Formed(s) && Exclusive(s)
    ensures AllReady(Initialize(s, answers).apm) <==> !InitializeBreaks(s, s.api.output.channels, answers)
  {
    hide Initialize, AllReady, Struck, ManagerHits;
    InitializeReady(s, answers);
    InitializeErrors(s, answers);
  }

  // ---------------------------------------------------------------- streams

  /** Gain control is enabled and its compression gain changes. */
  predicate Compresses(s: Apm, compressor: Option<Answer>)
    requires Formed(s)
  {
    s.options.newAgc && Enabled(s, Agc) && compressor.Some?
  }

  /** A format that is let through: it is the present one, or accepted and initialised without an error. */
  predicate LetThrough(s: Apm, c: Config, answers: seq<Answer>)
    requires Formed(s)
  {
    || c == s.api
    || (ConfigError(c, s.options) == NoError && !Struck(s.components, 0, c.output.channels, answers))
  }

  /**
   Unseen failures of gain control for a new format: of a handle's initialisation by the manager,
   or of the last configuration, which is the compressor's if there is one.
   */
  predicate GainStruck(s: Apm, outputs: nat, answers: seq<Answer>, compressor: Option<Answer>)
    requires Formed(s)
  {
    && s.options.newAgc && Enabled(s, Agc)
    && match compressor
       case None => ManagerHits(outputs, answers)
       case Some(answer) =>
         InitHits(outputs, AnswerOf(answers, FIRST_OF_MANAGER)) || ConfigureHits(outputs, answer)
  }

  /** The present format and a ready module: only the compressor can do harm.  A new format initialises. */
  predicate StreamBreaks(s: Apm, c: Config, answers: seq<Answer>, compressor: Option<Answer>)
    requires Formed(s)
  {
    if c == s.api then Compresses(s, compressor) && ConfigureHits(c.output.channels, compressor.value)
    else
      && ConfigError(c, s.options) == NoError
      && (Struck(s.components, 0, c.output.channels, answers) || GainStruck(s, c.output.channels, answers, compressor))
  }

  lemma CompressHit(r: Result, compressor: Option<Answer>)
    requires Inv(r.apm) && Mendable(r.apm) && Compresses(r.apm, compressor)
    ensures var e := Compress(r, compressor).ignored.compressor;
            e.Some? && (e.value == NoError <==> !ConfigureHits(r.apm.api.output.channels, compressor.value))
  {
    hide Configure, Exclusive, Channels, Derived;
    var agc := r.apm.components[Index(Agc)];
    assert agc.initialized && agc.numHandles == r.apm.api.output.channels;
    ConfigureHit(agc, compressor.value);
  }

  /**
   Exactly when a stream is let through, and exactly when it finds all components ready: by what
   was ready before for the present format, and by the answers alone for a new one.
   */
  lemma StreamReadyWhen(s: Apm, c: Config, answers: seq<Answer>, compressor: Option<Answer>)
    requires Inv(s)
    ensures MaybeProcess(s, c, answers, compressor).error == NoError <==> LetThrough(s, c, answers)
    ensures AllReady(MaybeProcess(s, c, answers, compressor).apm)
            <==> if c == s.api then
                   if Compresses(s, compressor) then
                     Mendable(s) && !ConfigureHits(c.output.channels, compressor.value)
                   else AllReady(s)
                 else if ConfigError(c, s.options) != NoError then AllReady(s)
                 else
                   && !Struck(s.components, 0, c.output.channels, answers)
                   && !GainStruck(s, c.output.channels, answers, compressor)
  {
    hide Initialize, InitializeWith, Compress, AllReady, Mendable, Derived, Exclusive, Channels, Started;
    hide Struck, ManagerHits, InitHits, ConfigureHits, ConfigError;
    var r := MaybeInitialize(s, c, answers);
    InitializeWithReady(s, c, answers);
    InitializeWithKeeps(s, c, answers);
    if c != s.api && ConfigError(c, s.options) == NoError {
      AdoptErrors(s, c, answers);
    }
    assert Enabled(r.apm, Agc) == Enabled(s, Agc);
    CompressReady(r, compressor);
    if Mendable(r.apm) && Compresses(r.apm, compressor) {
      CompressHit(r, compressor);
    }
  }

  /** The errors of an accepted format, by the components as they stand and its answers. */
  lemma AdoptErrors(s: Apm, c: Config, answers: seq<Answer>)
    requires Inv(s) && ConfigError(c, s.options) == NoError
    ensures var r := InitializeWith(s, c, answers);
            var outputs := c.output.channels;
            && outputs >= 0 && r.apm.options == s.options && r.apm.api == c
            && (r.error == NoError <==> !Struck(s.components, 0, outputs, answers))
            && (r.error == NoError && Enabled(s, Agc) ==>
                  && (r.ignored.manager == NoError <==> !ManagerStrikes(s, outputs, answers))
                  && (Fatal(r.ignored.manager) <==>
                        s.options.newAgc && InitHits(outputs, AnswerOf(answers, FIRST_OF_MANAGER))))
  {
    hide InitComponents, ManageGain, CaptureBuffer, RenderBuffer, Derived, Started;
    hide Struck, ManagerHits, InitHits, AnswerOf;
    InitializeErrors(Adopt(s, c), answers);
  }

  // ---------------------------------------------------------------- calls

  /** The format of a 16-bit stream. */
  function FrameFormat(s: Apm, rate: int, channels: int): Config {
    s.api.(input := s.api.input.(rate := rate, channels := channels),
           output := s.api.output.(rate := rate, channels := channels))
  }

  function ReverseFrameFormat(s: Apm, rate: int, channels: int): Config {
    s.api.(reverseInput := s.api.reverseInput.(rate := rate, channels := channels),
           reverseOutput := s.api.reverseOutput.(rate := rate, channels := channels))
  }

  /** A call that leaves an enabled component of a ready module unready, by its inputs. */
  predicate Breaks(s: Apm, e: Event)
    requires Formed(s)
  {
    var outputs := s.api.output.channels;
    match e
    case SetEnabled(_, _, _) => false
    case Reset(k, answer) =>
      && Enabled(s, k) && !Shielded(s, k)
      && Hits(s.components[Index(k)], Required(Index(k), outputs), answer)
    case Adjust(k, answer) =>
      Enabled(s, k) && !Shielded(s, k) && ConfigureHits(Required(Index(k), outputs), answer)
    case SetOptions(_, answer) => Enabled(s, Aec) && ConfigureHits(outputs, answer)
    case InitializeAgain(answers) => InitializeBreaks(s, outputs, answers)
    case InitializeFor(c, answers) =>
      ConfigError(c, s.options) == NoError && InitializeBreaks(s, c.output.channels, answers)
    case ProcessStream(input, output, answers, compressor) =>
      StreamBreaks(s, s.api.(input := input, output := output), answers, compressor)
    case ProcessReverse(input, output, answers) =>
      input.channels > 0 && StreamBreaks(s, s.api.(reverseInput := input, reverseOutput := output), answers, None)
    case ProcessInt16(rate, channels, samples, answers, compressor) =>
      && NativeRate(rate) && !(Enabled(s, Aecm) && rate > RATE_16K)
      && StreamBreaks(s, FrameFormat(s, rate, channels), answers, if samples == Frames(rate) then compressor else None)
    case ReverseInt16(rate, channels, _, answers) =>
      && NativeRate(rate) && rate == s.api.input.rate && channels > 0
      && StreamBreaks(s, ReverseFrameFormat(s, rate, channels), answers, None)
  }

  lemma StreamStep(s: Apm, c: Config, answers: seq<Answer>, compressor: Option<Answer>)
    requires Inv(s) && AllReady(s)
    ensures AllReady(MaybeProcess(s, c, answers, compressor).apm) <==> !StreamBreaks(s, c, answers, compressor)
  {
    hide MaybeProcess, AllReady, Mendable, Derived, Exclusive, Channels, Started;
    hide Struck, GainStruck, ConfigureHits, ConfigError;
    ReadyIsMendable(s);
    StreamReadyWhen(s, c, answers, compressor);
  }

  /** Without a compressor a stream only initialises. */
  lemma NoCompressor(s: Apm, c: Config, answers: seq<Answer>)
    requires Formed(s)
    ensures MaybeProcess(s, c, answers, None).apm == MaybeInitialize(s, c, answers).apm
  {
  }

  lemma FrameStep(s: Apm, rate: int, channels: int, samples: nat, answers: seq<Answer>, compressor: Option<Answer>)
    requires Inv(s) && AllReady(s)
    ensures var e := ProcessInt16(rate, channels, samples, answers, compressor);
            AllReady(Next(s, e).apm) <==> !Breaks(s, e)
  {
    hide InitializeWith, Compress, AllReady, Derived, Exclusive, Channels, Started, StreamBreaks, Frames, NativeRate;
    var c := FrameFormat(s, rate, channels);
    NoCompressor(s, c, answers);
    StreamStep(s, c, answers, compressor);
    StreamStep(s, c, answers, None);
    InputRate(s, c, answers);
  }

  lemma ReverseFrameStep(s: Apm, rate: int, channels: int, samples: nat, answers: seq<Answer>)
    requires Inv(s) && AllReady(s)
    ensures var e := ReverseInt16(rate, channels, samples, answers);
            AllReady(Next(s, e).apm) <==> !Breaks(s, e)
  {
    hide InitializeWith, Compress, AllReady, Derived, Exclusive, Channels, Started, StreamBreaks, Frames, NativeRate;
    var c := ReverseFrameFormat(s, rate, channels);
    NoCompressor(s, c, answers);
    StreamStep(s, c, answers, None);
  }

  /** A format that is initialised without an error is the present one. */
  lemma InputRate(s: Apm, c: Config, answers: seq<Answer>)
    requires Inv(s)
    ensures var r := MaybeInitialize(s, c, answers); r.error == NoError ==> r.apm.api == c
  {
    hide InitComponents, ManageGain, CaptureBuffer, RenderBuffer, Derived;
  }

  lemma ResetStep(s: Apm, k: Kind, answer: Answer)
    requires Inv(s) && AllReady(s)
    ensures AllReady(Reinitialize(s, k, answer).apm) <==> !Breaks(s, Reset(k, answer))
  {
    hide InitKind, AllReady, Channels, Derived, Started, Hits, Required;
    var i := Index(k);
    ResetReady(s, k, answer);
    KindHit(i, s.components[i], s.api.output.channels, s.forward, answer);
    FailureIsError(s.components[i], Required(i, s.api.output.channels), answer);
  }

  /** Configuring a component of a ready module fails exactly when the answer hits one of its handles. */
  lemma ReadyConfigureHit(s: Apm, k: Kind, answer: Answer)
    requires Inv(s) && AllReady(s) && Enabled(s, k)
    ensures Configure(s.components[Index(k)], answer).error == NoError
            <==> !ConfigureHits(Required(Index(k), s.api.output.channels), answer)
  {
    hide Configure, Exclusive, Channels, Derived, Required, ConfigureHits;
    var i := Index(k);
    assert IsReady(s, i);
    assert s.components[i].initialized;
    ConfigureHit(s.components[i], answer);
  }

  lemma AdjustStep(s: Apm, k: Kind, answer: Answer)
    requires Inv(s) && AllReady(s)
    ensures AllReady(Reconfigure(s, k, answer).apm) <==> !Breaks(s, Adjust(k, answer))
  {
    hide Configure, AllReady, Channels, Derived, Started, ConfigureHits, Required;
    AdjustReady(s, k, answer);
    if Enabled(s, k) {
      ReadyConfigureHit(s, k, answer);
    }
  }

  lemma OptionsStep(s: Apm, transient: bool, answer: Answer)
    requires Inv(s) && AllReady(s)
    ensures AllReady(SetExtraOptions(s, transient, answer).apm) <==> !Breaks(s, SetOptions(transient, answer))
  {
    hide Configure, AllReady, Channels, Derived, Started, ConfigureHits;
    OptionsReady(s, transient, answer);
    if Enabled(s, Aec) {
      ReadyConfigureHit(s, Aec, answer);
    }
  }

  lemma FormatStep(s: Apm, c: Config, answers: seq<Answer>)
    requires Inv(s) && AllReady(s)
    ensures AllReady(InitializeWith(s, c, answers).apm) <==> !Breaks(s, InitializeFor(c, answers))
  {
    hide InitializeWith, AllReady, Mendable, Derived, Exclusive, Channels, Started, Struck, ManagerHits, ConfigError;
    InitializeWithReady(s, c, answers);
    if ConfigError(c, s.options) == NoError {
      AdoptErrors(s, c, answers);
    }
  }

  /** From a state where all enabled components are ready, exactly the breaking calls change that. */
  lemma ReadyStep(s: Apm, e: Event)
    requires Inv(s) && AllReady(s)
    ensures AllReady(Next(s, e).apm) <==> !Breaks(s, e)
  {
    hide Initialize, MaybeInitialize, InitializeWith, Enable, Reinitialize, Reconfigure, SetExtraOptions, Compress;
    hide MaybeProcess, Derived, Exclusive, Channels, Started, AllReady, StreamBreaks, InitializeBreaks, ConfigError;
    match e
    case SetEnabled(k, enable, answer) => EnableReady(s, k, enable, answer);
    case Reset(k, answer) => ResetStep(s, k, answer);
    case Adjust(k, answer) => AdjustStep(s, k, answer);
    case SetOptions(transient, answer) => OptionsStep(s, transient, answer);
    case InitializeAgain(answers) => InitializeReadyWhen(s, answers);
    case InitializeFor(c, answers) => FormatStep(s, c, answers);
    case ProcessStream(input, output, answers, compressor) =>
      StreamStep(s, s.api.(input := input, output := output), answers, compressor);
    case ProcessReverse(input, output, answers) =>
      var c := s.api.(reverseInput := input, reverseOutput := output);
      NoCompressor(s, c, answers);
      StreamStep(s, c, answers, None);
    case ProcessInt16(rate, channels, samples, answers, compressor) =>
      FrameStep(s, rate, channels, samples, answers, compressor);
    case ReverseInt16(rate, channels, samples, answers) => ReverseFrameStep(s, rate, channels, samples, answers);
  }

  /** The errors of a call, reported and dropped, tell exactly whether it breaks. */
  lemma ErrorsTell(s: Apm, e: Event)
    requires Inv(s) && AllReady(s)
    ensures Failed(s, e) <==> Breaks(s, e)
  {
    hide *;
    ReadyByErrors(s, e);
    ReadyStep(s, e);
  }

  predicate NeverBreaks(s: Apm, events: seq<Event>)
    requires Formed(s)
    decreases |events|
  {
    events == [] || (!Breaks(s, events[0]) && NeverBreaks(Next(s, events[0]).apm, events[1..]))
  }

  /** Without a breaking call the components stay ready throughout a run. */
  lemma {:induction false} ReadyThroughout(s: Apm, events: seq<Event>)
    requires Inv(s) && AllReady(s) && NeverBreaks(s, events)
    ensures AllReady(Run(s, events))
    decreases |events|
  {
    hide Next, Exclusive, Channels, Derived, Started, AllReady, Breaks;
    if events != [] {
      NextKeeps(s, events[0]);
      ReadyStep(s, events[0]);
      ReadyThroughout(Next(s, events[0]).apm, events[1..]);
    }
  }

  // ---------------------------------------------------------------- runs

  lemma CreatedReady(o: Options, transient: bool)
    ensures Inv(Created(o, transient)) && AllReady(Created(o, transient))
  {
    var s := Created(o, transient);
    assert forall i :: 0 <= i < 7 ==> s.components[i] == NEW_COMPONENT;
  }

  /** The module after its creation, with one component enabled. */
  function With(o: Options, k: Kind): (s: Apm)
    ensures Formed(s)
  {
    Next(Created(o, false), SetEnabled(k, true, AllWell)).apm
  }

  const LIVE := Component(true, true, 1, [Live(RATE_16K, true)])

  lemma WithIs(o: Options, k: Kind)
    ensures With(o, k) == Created(o, false).(components := Created(o, false).components[Index(k) := LIVE])
    ensures Inv(With(o, k)) && AllReady(With(o, k))
  {
    assert InitComponent(NEW_COMPONENT.(enabled := true), 1, RATE_16K, AllWell) == Outcome(LIVE, NoError) by {
      assert [] + Missings(1) == [Missing];
    }
    CreatedReady(o, false);
    EnableReady(Created(o, false), k, true, AllWell);
    EnableKeeps(Created(o, false), k, true, AllWell);
  }

  /** A run that enables a component and makes one more call. */
  lemma RunIs(o: Options, k: Kind, e: Event)
    ensures Run(Created(o, false), [SetEnabled(k, true, AllWell), e]) == Next(With(o, k), e).apm
  {
    hide Next, Created;
    var events := [SetEnabled(k, true, AllWell), e];
    assert events[1..] == [e] && [e][1..] == [];
    assert Run(With(o, k), [e]) == Run(Next(With(o, k), e).apm, []);
  }

  const AGC_FAILS := InitializeAgain([AllWell, AllWell, InitFails(0)])

  /** After a failed initialisation gain control has no live handle, and the same stream is let through. */
  lemma StaleHandles(o: Options)
    ensures var s := Run(Created(o, false), [SetEnabled(Agc, true, AllWell), AGC_FAILS]);
            && !AllReady(s) && Next(s, ProcessStream(s.api.input, s.api.output, [], None)) == Result(s, NoError)
    ensures Next(With(o, Agc), AGC_FAILS).error == InitFailed
  {
    hide Enable, InitComponents, InitializeWith, Created, AllReady, CaptureBuffer, RenderBuffer, With;
    var s := With(o, Agc);
    WithIs(o, Agc);
    CreatedFacts(o);
    AgcInitFails(s.components);
    assert Hits(s.components[2], Required(2, 1), AnswerOf(AGC_FAILS.answers, 2));
    ReadyStep(s, AGC_FAILS);
    RunIs(o, Agc, AGC_FAILS);
  }

  lemma AgcInitFails(cs: seq<Component>)
    requires |cs| == 7 && AllSound(cs) && cs[2] == LIVE && cs[0] == NEW_COMPONENT && cs[1] == NEW_COMPONENT
    ensures InitComponents(cs, 0, 1, RATE_16K, AGC_FAILS.answers).error == InitFailed
  {
    var answers := AGC_FAILS.answers;
    assert InitComponents(cs, 2, 1, RATE_16K, answers).error == InitFailed;
    assert cs[1 := cs[1]] == cs && cs[0 := cs[0]] == cs;
    assert InitComponents(cs, 1, 1, RATE_16K, answers).error == InitFailed;
  }

  lemma CreatedFacts(o: Options)
    ensures var s := Created(o, false);
            && s.options == o && s.forward == RATE_16K && |s.components| == 7
            && s.api == Config(MONO_16K, MONO_16K, MONO_16K, MONO_16K) && s.api.output.channels == 1
            && forall i :: 0 <= i < 7 ==> s.components[i] == NEW_COMPONENT
  {
  }

  const MANAGER_FAILS: seq<Answer> :=
    [AllWell, AllWell, AllWell, AllWell, AllWell, AllWell, AllWell, InitFails(0)]

  /** With the new gain control an initialisation reports success although the manager loses the handle. */
  lemma UnseenFailure(o: Options)
    requires o.newAgc
    ensures Next(With(o, Agc), InitializeAgain(MANAGER_FAILS)).error == NoError
    ensures !AllReady(Run(Created(o, false), [SetEnabled(Agc, true, AllWell), InitializeAgain(MANAGER_FAILS)]))
  {
    hide Initialize, AllReady, Created, With;
    var s := With(o, Agc);
    WithIs(o, Agc);
    CreatedFacts(o);
    assert !Struck(s.components, 0, 1, MANAGER_FAILS);
    assert InitHits(1, AnswerOf(MANAGER_FAILS, FIRST_OF_MANAGER));
    InitializeErrors(s, MANAGER_FAILS);
    ReadyStep(s, InitializeAgain(MANAGER_FAILS));
    RunIs(o, Agc, InitializeAgain(MANAGER_FAILS));
  }

  const COMPRESSOR_FAILS := ProcessStream(MONO_16K, MONO_16K, [], Some(ConfigureFails(0)))

  /** A change of the compression gain fails while a stream is processed, and the stream reports success. */
  lemma UnseenCompressorFailure(o: Options)
    requires o.newAgc
    ensures Next(With(o, Agc), COMPRESSOR_FAILS).error == NoError
    ensures !AllReady(Run(Created(o, false), [SetEnabled(Agc, true, AllWell), COMPRESSOR_FAILS]))
  {
    hide MaybeProcess, AllReady, Created, With;
    var s := With(o, Agc);
    WithIs(o, Agc);
    CreatedFacts(o);
    StreamReadyWhen(s, s.api, [], Some(ConfigureFails(0)));
    ReadyStep(s, COMPRESSOR_FAILS);
    RunIs(o, Agc, COMPRESSOR_FAILS);
  }

  /** Setting options fails to configure the echo canceller, and reports success. */
  lemma UnseenOptionsFailure(o: Options, transient: bool)
    ensures Next(With(o, Aec), SetOptions(transient, ConfigureFails(0))).error == NoError
    ensures var e := SetOptions(transient, ConfigureFails(0));
            !AllReady(Run(Created(o, false), [SetEnabled(Aec, true, AllWell), e]))
  {
    hide Configure, AllReady, Created, With;
    var s := With(o, Aec);
    WithIs(o, Aec);
    CreatedFacts(o);
    ReadyStep(s, SetOptions(transient, ConfigureFails(0)));
    RunIs(o, Aec, SetOptions(transient, ConfigureFails(0)));
  }
}
