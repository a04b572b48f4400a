/**
 What every run of the audio processing module keeps, and when its components are ready.
 */
module AudioProcessingLaws {
  import opened Maybe
  import opened AudioProcessingModel

  // ---------------------------------------------------------------- safety over all runs

  predicate Exclusive(s: Apm)
    requires Formed(s)
  {
    && !(Enabled(s, Aec) && Enabled(s, Aecm))
    && (Enabled(s, Aecm) ==> s.forward <= RATE_16K)
  }

  predicate Channels(s: Apm) {
    && s.api.input.channels >= 1
    && (s.api.output.channels == 1 || s.api.output.channels == s.api.input.channels)
    && (s.options.beamformer ==> s.api.output.channels == 1)
  }

  /** The rates and buffers are those of the format. */
  predicate Derived(s: Apm) {
    && NativeRate(s.forward) && s.split == SplitRate(s.forward)
    && s.reverse == ReverseRate(s.forward, s.api.reverseInput.rate)
    && s.capture == CaptureBuffer(s.api, s.forward, s.options)
    && s.render == RenderBuffer(s.api, s.reverse)
  }

  /** An enabled component was initialised at some time. */
  predicate Started(cs: seq<Component>) {
    forall i :: 0 <= i < |cs| ==> (cs[i].enabled ==> cs[i].initialized)
  }

  predicate Inv(s: Apm) {
    Formed(s) && Exclusive(s) && Channels(s) && Derived(s) && Started(s.components)
  }

  /** Initialising and configuring a component never enable or disable it, nor forget that it was initialised. */
  predicate SameFlags(c: Component, d: Component) {
    d.enabled == c.enabled && (c.initialized ==> d.initialized)
  }

  lemma InitComponentKeeps(i: nat, c: Component, outputs: nat, forward: nat, answer: Answer)
    requires Sound(c)
    ensures SameFlags(c, InitKind(i, c, outputs, forward, answer).component)
    ensures SameFlags(c, Configure(c, answer).component)
  {
  }

  lemma {:induction false} ConfigureAllKeeps(c: Component, answers: seq<Answer>, i: nat, n: nat)
    requires Sound(c) && i <= n
    ensures SameFlags(c, ConfigureAll(c, answers, i, n).component)
    decreases n - i
  {
    hide Configure;
    if i < n {
      InitComponentKeeps(0, c, 0, 0, AnswerOf(answers, i));
      ConfigureAllKeeps(Configure(c, AnswerOf(answers, i)).component, answers, i + 1, n);
    }
  }

  lemma ManageKeeps(c: Component, outputs: nat, forward: nat, answers: seq<Answer>)
    requires Sound(c)
    ensures SameFlags(c, ManageGain(c, outputs, forward, answers).component)
  {
    hide InitKind, ConfigureAll;
    var answer := AnswerOf(answers, FIRST_OF_MANAGER);
    InitComponentKeeps(Index(Agc), c, outputs, forward, answer);
    var r := InitKind(Index(Agc), c, outputs, forward, answer).component;
    ConfigureAllKeeps(r, answers, FIRST_OF_MANAGER + 1, FIRST_OF_MANAGER + 4);
  }

  /** Initialising never enables or disables a component. */
  lemma {:induction false} InitKeepsEnabled(
      cs: seq<Component>, i: nat, outputs: nat, forward: nat, answers: seq<Answer>)
    requires i <= |cs| && AllSound(cs)
    ensures var r := InitComponents(cs, i, outputs, forward, answers).components;
            |r| == |cs| && forall k :: 0 <= k < |cs| ==> SameFlags(cs[k], r[k])
    decreases |cs| - i
  {
    hide InitKind;
    if i < |cs| {
      var answer := AnswerOf(answers, i);
      InitComponentKeeps(i, cs[i], outputs, forward, answer);
      var r := InitKind(i, cs[i], outputs, forward, answer);
      if r.error == NoError {
        InitKeepsEnabled(cs[i := r.component], i + 1, outputs, forward, answers);
      }
    }
  }

  /** Components may be replaced by ones with the same flags. */
  lemma ReplaceKeeps(s: Apm, cs: seq<Component>)
    requires Inv(s) && |cs| == 7 && AllSound(cs)
    requires forall k :: 0 <= k < 7 ==> SameFlags(s.components[k], cs[k])
    ensures Inv(s.(components := cs))
  {
    hide CaptureBuffer, RenderBuffer, Sound;
    forall i | 0 <= i < 7 && cs[i].enabled ensures cs[i].initialized {
      assert SameFlags(s.components[i], cs[i]);
    }
    assert SameFlags(s.components[0], cs[0]) && SameFlags(s.components[1], cs[1]);
  }

  /** The state as Initialize finds it, apart from the buffers it renews. */
  predicate Due(s: Apm) {
    && Formed(s) && Exclusive(s) && Channels(s) && Started(s.components)
    && NativeRate(s.forward) && s.split == SplitRate(s.forward)
    && s.reverse == ReverseRate(s.forward, s.api.reverseInput.rate)
  }

  lemma InitializeKeeps(s: Apm, answers: seq<Answer>)
    requires Due(s)
    ensures Inv(Initialize(s, answers).apm)
    ensures forall k: Kind :: Enabled(Initialize(s, answers).apm, k) == Enabled(s, k)
  {
    hide InitComponents, ManageGain, CaptureBuffer, RenderBuffer, Exclusive, Channels, Started, AllSound;
    var outputs := s.api.output.channels;
    var r := InitComponents(s.components, 0, outputs, s.forward, answers);
    var s' := s.(render := RenderBuffer(s.api, s.reverse), capture := CaptureBuffer(s.api, s.forward, s.options));
    RenewedInv(s, s');
    InitKeepsEnabled(s.components, 0, outputs, s.forward, answers);
    ReplaceKeeps(s', r.components);
    SoundAt(r.components, Index(Agc));
    ManageKeeps(r.components[Index(Agc)], outputs, s.forward, answers);
    var gain := ManageGain(r.components[Index(Agc)], outputs, s.forward, answers).component;
    SoundUpdate(r.components, Index(Agc), gain);
    ReplaceKeeps(s'.(components := r.components), r.components[Index(Agc) := gain]);
    forall k: Kind ensures Enabled(Initialize(s, answers).apm, k) == Enabled(s, k) {
      assert SameFlags(s.components[Index(k)], r.components[Index(k)]);
    }
  }

  lemma RenewedInv(s: Apm, s': Apm)
    requires Due(s)
    requires s' == s.(render := RenderBuffer(s.api, s.reverse), capture := CaptureBuffer(s.api, s.forward, s.options))
    ensures Inv(s')
  {
    hide CaptureBuffer, RenderBuffer, AllSound, Started;
  }

  lemma SoundAt(cs: seq<Component>, i: nat)
    requires AllSound(cs) && i < |cs|
    ensures Sound(cs[i])
  {
  }

  lemma SoundUpdate(cs: seq<Component>, i: nat, c: Component)
    requires AllSound(cs) && i < |cs| && Sound(c)
    ensures AllSound(cs[i := c])
  {
  }

  lemma InitializeWithKeeps(s: Apm, c: Config, answers: seq<Answer>)
    requires Inv(s)
    ensures Inv(InitializeWith(s, c, answers).apm)
    ensures forall k: Kind :: Enabled(InitializeWith(s, c, answers).apm, k) == Enabled(s, k)
  {
    hide Initialize, CaptureBuffer, RenderBuffer, AllSound, Started;
    if ConfigError(c, s.options) == NoError {
      InitializeKeeps(Adopt(s, c), answers);
    }
  }

  /** The state with a new format and the rates derived from it. */
  function Adopt(s: Apm, c: Config): (s': Apm)
    requires Inv(s) && ConfigError(c, s.options) == NoError
    ensures Due(s')
  {
    var forward := ForwardRate(c.input.rate, c.output.rate, Enabled(s, Aecm));
    s.(api := c, forward := forward, reverse := ReverseRate(forward, c.reverseInput.rate), split := SplitRate(forward))
  }

  /** Enabling touches one component, and AECM is enabled only at a rate it supports. */
  lemma EnableEffect(s: Apm, k: Kind, enable: bool, answer: Answer)
    requires Formed(s)
    ensures var i, s' := Index(k), EnableComponent(s, k, enable, answer).apm;
            && s' == s.(components := s'.components)
            && (forall j :: 0 <= j < 7 && j != i ==> s'.components[j] == s.components[j])
            && (s'.components[i].enabled ==> enable)
            && (s'.components[i].enabled ==> s.components[i].enabled || s'.components[i].initialized)
            && (s.components[i].initialized ==> s'.components[i].initialized)
            && (s'.components[i].enabled && k == Aecm ==> s.components[i].enabled || s.forward <= RATE_16K)
  {
    hide InitHandles, ConfigureHandles;
    var i := Index(k);
    InitComponentKeeps(i, s.components[i].(enabled := true), s.api.output.channels, s.forward, answer);
  }

  lemma EnableKeeps(s: Apm, k: Kind, enable: bool, answer: Answer)
    requires Inv(s)
    ensures Inv(Enable(s, k, enable, answer).apm)
  {
    hide EnableComponent, CaptureBuffer, RenderBuffer, AllSound;
    EnableEffect(s, k, enable, answer);
  }

  lemma SettingKeeps(s: Apm, k: Kind, answer: Answer)
    requires Inv(s)
    ensures Inv(Reinitialize(s, k, answer).apm) && Inv(Reconfigure(s, k, answer).apm)
  {
    hide InitKind, Configure, Exclusive, Channels, Derived, Started;
    var i := Index(k);
    InitComponentKeeps(i, s.components[i], s.api.output.channels, s.forward, answer);
    ReplaceKeeps(s, Reinitialize(s, k, answer).apm.components);
    ReplaceKeeps(s, Reconfigure(s, k, answer).apm.components);
  }

  lemma OptionsKeep(s: Apm, transient: bool, answer: Answer)
    requires Inv(s)
    ensures Inv(SetExtraOptions(s, transient, answer).apm)
  {
    hide Configure, CaptureBuffer, RenderBuffer;
    InitComponentKeeps(0, s.components[0], 0, 0, answer);
    ReplaceKeeps(s, SetExtraOptions(s, transient, answer).apm.components);
  }

  lemma CompressKeeps(r: Result, compressor: Option<Answer>)
    requires Inv(r.apm)
    ensures Inv(Compress(r, compressor).apm)
  {
    hide Configure, Exclusive, Channels, Derived, Started;
    if compressor.Some? {
      InitComponentKeeps(0, r.apm.components[Index(Agc)], 0, 0, compressor.value);
      ReplaceKeeps(r.apm, Compress(r, compressor).apm.components);
    }
  }

  /** A stream adopts its format if it changed, and may change the compression gain. */
  lemma StreamKeeps(s: Apm, c: Config, answers: seq<Answer>, compressor: Option<Answer>)
    requires Inv(s)
    ensures Inv(MaybeInitialize(s, c, answers).apm)
    ensures Inv(Compress(MaybeInitialize(s, c, answers), compressor).apm)
  {
    hide InitializeWith, Compress, Exclusive, Channels, Derived, Started;
    InitializeWithKeeps(s, c, answers);
    CompressKeeps(MaybeInitialize(s, c, answers), compressor);
  }

  lemma NextKeeps(s: Apm, e: Event)
    requires Inv(s)
    ensures Inv(Next(s, e).apm)
  {
    hide Initialize, MaybeInitialize, InitializeWith, Enable, Reinitialize, Reconfigure, SetExtraOptions, Compress;
    hide CaptureBuffer, RenderBuffer, Exclusive, Channels, Started;
    match e
    case SetEnabled(k, enable, answer) => EnableKeeps(s, k, enable, answer);
    case Reset(k, answer) => SettingKeeps(s, k, answer);
    case Adjust(k, answer) => SettingKeeps(s, k, answer);
    case SetOptions(transient, answer) => OptionsKeep(s, transient, answer);
    case InitializeAgain(answers) => InitializeKeeps(s, answers);
    case InitializeFor(c, answers) => InitializeWithKeeps(s, c, answers);
    case ProcessStream(input, output, answers, compressor) =>
      StreamKeeps(s, s.api.(input := input, output := output), answers, compressor);
    case ProcessReverse(input, output, answers) =>
      StreamKeeps(s, s.api.(reverseInput := input, reverseOutput := output), answers, None);
    case ProcessInt16(rate, channels, samples, answers, compressor) =>
      StreamKeeps(s, s.api.(input := s.api.input.(rate := rate, channels := channels),
                            output := s.api.output.(rate := rate, channels := channels)), answers, compressor);
    case ReverseInt16(rate, channels, samples, answers) =>
      StreamKeeps(s, s.api.(reverseInput := s.api.reverseInput.(rate := rate, channels := channels),
                            reverseOutput := s.api.reverseOutput.(rate := rate, channels := channels)), answers, None);
  }

  lemma {:induction false} RunKeeps(s: Apm, events: seq<Event>)
    requires Inv(s)
    ensures Inv(Run(s, events))
    decreases |events|
  {
    hide Next, Exclusive, Channels, Derived, Started;
    if events != [] {
      NextKeeps(s, events[0]);
      RunKeeps(Next(s, events[0]).apm, events[1..]);
    }
  }

  /** What the components assert of the buffers and of each other. */
  predicate Safe(s: Apm)
    requires Formed(s)
  {
    && !(Enabled(s, Aec) && Enabled(s, Aecm))
    && (Enabled(s, Aecm) ==> s.forward <= RATE_16K)
    && s.capture.framesPerBand <= 160
    && (AnalysisNeeded(s) || SynthesisNeeded(s) ==> s.capture.splittingFilter)
    && (s.render.Some? ==> s.render.value.framesPerBand <= 160)
    && (s.render.Some? && s.reverse == RATE_32K ==> s.render.value.splittingFilter)
    && (if s.options.beamformer then 1 else s.capture.channels) == s.api.output.channels
  }

  lemma InvIsSafe(s: Apm)
    requires Inv(s)
    ensures Safe(s)
  {
    hide DataProcessed, AllSound;
  }

  /** Every state of every run of a created module is safe. */
  lemma AlwaysSafe(o: Options, transient: bool, events: seq<Event>)
    ensures Safe(Run(Created(o, transient), events))
  {
    hide Run;
    var s := Created(o, transient);
    assert forall i :: 0 <= i < 7 ==> s.components[i] == NEW_COMPONENT;
    RunKeeps(s, events);
    InvIsSafe(Run(s, events));
  }

  /** A reverse stream that was let through has a buffer. */
  lemma RenderPresent(s: Apm, e: Event)
    requires Inv(s) && (e.ProcessReverse? || e.ReverseInt16?) && Next(s, e).error == NoError
    ensures Next(s, e).apm.render.Some?
  {
    hide InitComponents, NewBuffer, CaptureBuffer, ConfigError, ForwardRate, ReverseRate;
  }

  /**
   A format that is not refused yields buffers whose constructors assert nothing false exactly
   when its rates are at least 100 Hz: below that 10 ms hold no sample.
   */
  lemma BuffersHold(s: Apm, c: Config, answers: seq<Answer>)
    requires Formed(s) && ConfigError(c, s.options) == NoError
    ensures var r := InitializeWith(s, c, answers).apm;
            BufferAsserts(r.capture) && (r.render.Some? ==> BufferAsserts(r.render.value))
            <==> && c.input.rate >= 100 && c.output.rate >= 100
                 && (c.reverseInput.channels > 0 ==> c.reverseInput.rate >= 100)
  {
    hide InitComponents, AllSound;
  }

  /** A format below 100 Hz that is accepted, and buffers that do not hold it. */
  lemma LowRateAccepted(o: Options)
    requires !o.beamformer
    ensures var slow := Stream(50, 1, false);
            var c := Config(slow, slow, slow, slow);
            var s := Run(Created(o, false), [InitializeFor(c, [])]);
            ConfigError(c, o) == NoError && s.api == c && !BufferAsserts(s.capture)
  {
    hide InitComponents, ManageGain;
    var slow := Stream(50, 1, false);
    var c := Config(slow, slow, slow, slow);
    var s := Created(o, false);
    BuffersHold(s, c, []);
    assert Run(s, [InitializeFor(c, [])]) == Run(InitializeWith(s, c, []).apm, [InitializeFor(c, [])][1..]);
  }

  /**
   The intelligibility enhancer, set up last, looks at the buffer of the reverse stream, which
   exists exactly when the format has reverse channels.
   */
  lemma EnhancerFindsRender(s: Apm, c: Config, answers: seq<Answer>)
    requires Formed(s) && ConfigError(c, s.options) == NoError
    ensures InitializeWith(s, c, answers).apm.render.Some? <==> c.reverseInput.channels > 0
  {
    hide InitComponents, ManageGain, NewBuffer, AllSound;
  }

  /** A format without reverse channels is accepted, so the enhancer finds no buffer. */
  lemma RenderMissing(o: Options)
    requires o.intelligibility && !o.beamformer
    ensures var c := Config(MONO_16K, MONO_16K, Stream(0, 0, false), Stream(0, 0, false));
            ConfigError(c, o) == NoError && InitializeWith(Created(o, false), c, []).apm.render.None?
  {
    hide InitComponents, ManageGain, NewBuffer;
    EnhancerFindsRender(Created(o, false), Config(MONO_16K, MONO_16K, Stream(0, 0, false), Stream(0, 0, false)), []);
  }

  // ---------------------------------------------------------------- the two echo components

  function OtherEcho(k: Kind): Kind
    requires k == Aec || k == Aecm
  {
    if k == Aec then Aecm else Aec
  }

  /** Enabling one echo component is refused, without any effect, exactly when the other one is enabled. */
  lemma EchoRefused(s: Apm, k: Kind, answer: Answer)
    requires Formed(s) && (k == Aec || k == Aecm)
    ensures Enable(s, k, true, answer).error == BadParameter <==> Enabled(s, OtherEcho(k))
    ensures Enabled(s, OtherEcho(k)) ==> Enable(s, k, true, answer).apm == s
  {
    hide InitHandles, ConfigureHandles;
    var c := s.components[Index(k)];
    NoBadParameter(c.(enabled := true), Required(Index(k), s.api.output.channels), s.forward, answer);
  }

  lemma NoBadParameter(c: Component, required: nat, rate: nat, answer: Answer)
    requires Sound(c)
    ensures InitComponent(c, required, rate, answer).error != BadParameter
  {
    hide Missings;
    var room := if required > |c.handles| then c.handles + Missings(required - |c.handles|) else c.handles;
    HandleErrors(room, 0, required, rate, answer);
    ConfigureErrors(InitHandles(room, 0, required, rate, answer).handles, 0, required, answer);
  }

  lemma {:induction false} HandleErrors(handles: seq<Handle>, i: nat, n: nat, rate: nat, answer: Answer)
    requires i <= n <= |handles|
    ensures InitHandles(handles, i, n, rate, answer).error in {NoError, CreationFailed, InitFailed}
    decreases n - i
  {
    if i < n {
      HandleErrors(handles[i := Live(rate, false)], i + 1, n, rate, answer);
    }
  }

  lemma {:induction false} ConfigureErrors(handles: seq<Handle>, i: nat, n: nat, answer: Answer)
    requires i <= n <= |handles|
    ensures ConfigureHandles(handles, i, n, answer).error in {NoError, ConfigureFailed}
    decreases n - i
  {
    if i < n {
      ConfigureErrors(handles[i := Configured(handles[i], true)], i + 1, n, answer);
    }
  }

  /** With AECM enabled, enabling AEC disables nothing: it is refused and AECM stays. */
  lemma SecondEchoRefused(o: Options, answer: Answer)
    ensures var s := Next(Created(o, false), SetEnabled(Aecm, true, AllWell)).apm;
            && Enabled(s, Aecm)
            && Next(s, SetEnabled(Aec, true, answer)) == Result(s, BadParameter)
  {
    var s := Next(Created(o, false), SetEnabled(Aecm, true, AllWell)).apm;
    assert InitComponent(NEW_COMPONENT.(enabled := true), 1, RATE_16K, AllWell)
        == Outcome(Component(true, true, 1, [Live(RATE_16K, true)]), NoError) by {
      assert [] + Missings(1) == [Missing];
    }
    EchoRefused(s, Aec, answer);
  }

  // ---------------------------------------------------------------- what changes the data

  /** The data is changed by the beamformer and by every component but level estimation and voice detection. */
  lemma DataProcessedMeans(s: Apm)
    requires Formed(s)
    ensures DataProcessed(s)
            <==> || s.options.beamformer || Enabled(s, Aec) || Enabled(s, Aecm) || Enabled(s, Agc)
                 || Enabled(s, HighPass) || Enabled(s, Noise)
  {
    hide AllSound, EnabledCount;
    var cs := s.components;
    CountNone(cs[7..]);
    CountStep(cs, 0);
    CountStep(cs, 1);
    CountStep(cs, 2);
    CountStep(cs, 3);
    CountStep(cs, 4);
    CountStep(cs, 5);
    CountStep(cs, 6);
    assert cs[0..] == cs;
  }

  lemma CountNone(cs: seq<Component>)
    requires |cs| == 0
    ensures EnabledCount(cs) == 0
  {
  }

  lemma CountStep(cs: seq<Component>, i: nat)
    requires i < |cs|
    ensures EnabledCount(cs[i..]) == EnabledCount(cs[i + 1..]) + if cs[i].enabled then 1 else 0
  {
    assert cs[i..][1..] == cs[i + 1..];
  }
}
