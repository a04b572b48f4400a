/**
 When the components of the audio processing module have the handles they need, and which
 calls change that.
 */
module AudioProcessingReady {
  import opened Maybe
  import opened AudioProcessingModel
  import opened AudioProcessingLaws

  // ---------------------------------------------------------------- one component

  /** An enabled component has the handles it needs, initialised for the rate. */
  predicate Alive(c: Component, required: nat, rate: nat) {
    c.enabled ==>
      && c.numHandles == required <= |c.handles|
      && forall k :: 0 <= k < required ==> c.handles[k].Live? && c.handles[k].rate == rate
  }

  /** They are configured as well. */
  predicate Ready(c: Component, required: nat, rate: nat) {
    c.enabled ==>
      && c.numHandles == required <= |c.handles|
      && forall k :: 0 <= k < required ==> c.handles[k] == Live(rate, true)
  }

  /** What initialising and configuring can report. */
  predicate Initializing(e: Error) {
    e == NoError || e == CreationFailed || e == InitFailed || e == ConfigureFailed
  }

  /** The failures that leave a handle without initialisation. */
  predicate Fatal(e: Error) {
    e == CreationFailed || e == InitFailed
  }

  lemma {:induction false} HandlesLive(handles: seq<Handle>, i: nat, n: nat, rate: nat, answer: Answer)
    requires i <= n <= |handles|
    ensures var r := InitHandles(handles, i, n, rate, answer);
            && (r.error == NoError || Fatal(r.error))
            && (forall k :: 0 <= k < i ==> r.handles[k] == handles[k])
            && (r.error == NoError ==> forall k :: i <= k < n ==> r.handles[k] == Live(rate, false))
            && (r.error != NoError ==> exists k :: i <= k < n && !r.handles[k].Live?)
    decreases n - i
  {
    if i < n && !(handles[i] == Missing && answer == CreateFails(i)) && answer != InitFails(i) {
      HandlesLive(handles[i := Live(rate, false)], i + 1, n, rate, answer);
    } else if i < n {
      var r := InitHandles(handles, i, n, rate, answer);
      assert !r.handles[i].Live?;
    }
  }

  lemma {:induction false} HandlesConfigured(handles: seq<Handle>, i: nat, n: nat, answer: Answer)
    requires i <= n <= |handles|
    ensures var r := ConfigureHandles(handles, i, n, answer);
            && (r.error == NoError || r.error == ConfigureFailed)
            && (forall k :: 0 <= k < n ==> r.handles[k] == handles[k] || r.handles[k] == Configured(handles[k], true)
                                           || r.handles[k] == Configured(handles[k], false))
            && (forall k :: 0 <= k < i ==> r.handles[k] == handles[k])
            && (r.error == NoError ==> forall k :: i <= k < n ==> r.handles[k] == Configured(handles[k], true))
            && (r.error != NoError ==> exists k :: i <= k < n && r.handles[k] == Configured(handles[k], false))
    decreases n - i
  {
    if i < n && answer != ConfigureFails(i) {
      HandlesConfigured(handles[i := Configured(handles[i], true)], i + 1, n, answer);
    } else if i < n {
      var r := ConfigureHandles(handles, i, n, answer);
      assert r.handles[i] == Configured(handles[i], false);
    }
  }

  /** Configuring keeps handles alive, and makes an enabled component ready exactly when it succeeds on live ones. */
  lemma ConfigureReady(c: Component, required: nat, rate: nat, answer: Answer)
    requires Sound(c) && (c.enabled ==> c.initialized)
    ensures var r := Configure(c, answer);
            && (r.error == NoError || r.error == ConfigureFailed)
            && (Alive(r.component, required, rate) <==> Alive(c, required, rate))
            && (c.enabled ==> (Ready(r.component, required, rate) <==> Alive(c, required, rate) && r.error == NoError))
            && (!c.enabled ==> Ready(r.component, required, rate))
  {
    hide ConfigureHandles;
    HandlesConfigured(c.handles, 0, c.numHandles, answer);
  }

  /** Initialising an enabled component succeeds exactly when it leaves it ready. */
  lemma InitMakesReady(c: Component, required: nat, rate: nat, answer: Answer)
    requires Sound(c) && c.enabled
    ensures var r := InitComponent(c, required, rate, answer);
            && Initializing(r.error)
            && (r.error == NoError <==> Ready(r.component, required, rate))
            && (Fatal(r.error) <==> !Alive(r.component, required, rate))
  {
    hide InitHandles, ConfigureHandles, Missings;
    var room := if required > |c.handles| then c.handles + Missings(required - |c.handles|) else c.handles;
    HandlesLive(room, 0, required, rate, answer);
    var r := InitHandles(room, 0, required, rate, answer);
    if r.error == NoError {
      HandlesConfigured(r.handles, 0, required, answer);
    }
  }

  /** The component's own initialisation, where AECM does not refuse the rate. */
  lemma ComponentReady(i: nat, c: Component, outputs: nat, forward: nat, answer: Answer)
    requires Sound(c) && (i == Index(Aecm) && c.enabled ==> forward <= RATE_16K)
    ensures var r := InitKind(i, c, outputs, forward, answer);
            && Initializing(r.error) && r.component.enabled == c.enabled
            && (r.error == NoError <==> Ready(r.component, Required(i, outputs), forward))
            && (Fatal(r.error) <==> !Alive(r.component, Required(i, outputs), forward))
            && (!c.enabled ==> r.component == c)
            && (c.enabled && !Fatal(r.error) ==> r.component.initialized)
  {
    hide InitHandles, ConfigureHandles, Alive, Ready, Missings;
    if c.enabled {
      InitMakesReady(c, Required(i, outputs), forward, answer);
      InitComponentKeeps(i, c, outputs, forward, answer);
    } else {
      DisabledReady(c, Required(i, outputs), forward);
    }
    HandlesLiveErrors(c, Required(i, outputs), forward, answer);
  }

  lemma DisabledReady(c: Component, required: nat, rate: nat)
    requires !c.enabled
    ensures Ready(c, required, rate) && Alive(c, required, rate)
  {
  }

  /** A component that is not left unready for good went through initialisation. */
  lemma HandlesLiveErrors(c: Component, required: nat, rate: nat, answer: Answer)
    requires Sound(c)
    ensures var r := InitComponent(c, required, rate, answer);
            c.enabled && !Fatal(r.error) ==> r.component.initialized
  {
    hide InitHandles, ConfigureHandles, Missings;
    var room := if required > |c.handles| then c.handles + Missings(required - |c.handles|) else c.handles;
    HandlesLive(room, 0, required, rate, answer);
  }

  lemma {:induction false} ConfigureAllReady(
      c: Component, answers: seq<Answer>, i: nat, n: nat, required: nat, rate: nat)
    requires Sound(c) && i <= n && (c.enabled ==> c.initialized) && Ready(c, required, rate)
    ensures var r := ConfigureAll(c, answers, i, n);
            && (r.error == NoError || r.error == ConfigureFailed)
            && Alive(r.component, required, rate)
            && (c.enabled ==> (r.error == NoError <==> Ready(r.component, required, rate)))
            && (!c.enabled ==> Ready(r.component, required, rate))
    decreases n - i
  {
    hide Configure, Ready, Alive;
    ReadyIsAlive(c, required, rate);
    if i < n {
      var r := Configure(c, AnswerOf(answers, i));
      ConfigureReady(c, required, rate, AnswerOf(answers, i));
      InitComponentKeeps(0, c, 0, 0, AnswerOf(answers, i));
      if r.error == NoError {
        ConfigureAllReady(r.component, answers, i + 1, n, required, rate);
      }
    }
  }

  lemma ReadyIsAlive(c: Component, required: nat, rate: nat)
    requires Ready(c, required, rate)
    ensures Alive(c, required, rate)
  {
  }

  /** The gain manager, whose failure nobody sees, leaves an enabled gain control ready exactly when it succeeds. */
  lemma ManagerReady(c: Component, outputs: nat, forward: nat, answers: seq<Answer>)
    requires Sound(c)
    ensures var r := ManageGain(c, outputs, forward, answers);
            && Initializing(r.error) && r.component.enabled == c.enabled
            && (c.enabled ==> (r.error == NoError <==> Ready(r.component, outputs, forward)))
            && (c.enabled ==> (Fatal(r.error) <==> !Alive(r.component, outputs, forward)))
            && (!c.enabled ==> Ready(r.component, outputs, forward))
  {
    hide InitKind, ConfigureAll, Ready, Alive;
    var answer := AnswerOf(answers, FIRST_OF_MANAGER);
    ComponentReady(Index(Agc), c, outputs, forward, answer);
    ManageKeeps(c, outputs, forward, answers);
    if !c.enabled {
      DisabledReady(ManageGain(c, outputs, forward, answers).component, outputs, forward);
    }
    var r := InitKind(Index(Agc), c, outputs, forward, answer);
    if r.error == NoError {
      ConfigureAllReady(r.component, answers, FIRST_OF_MANAGER + 1, FIRST_OF_MANAGER + 4, outputs, forward);
    }
  }

  // ---------------------------------------------------------------- the module

  predicate IsReady(s: Apm, i: nat)
    requires Formed(s) && i < 7
  {
    Ready(s.components[i], Required(i, s.api.output.channels), s.forward)
  }

  predicate AllReady(s: Apm)
    requires Formed(s)
  {
    forall i :: 0 <= i < 7 ==> IsReady(s, i)
  }

  /** All is ready, except that gain control may lack its configuration. */
  predicate Mendable(s: Apm)
    requires Formed(s)
  {
    && (forall i :: 0 <= i < 7 && i != Index(Agc) ==> IsReady(s, i))
    && Alive(s.components[Index(Agc)], s.api.output.channels, s.forward)
  }

  /** Initialising the components succeeds exactly when it leaves all of them ready. */
  lemma {:induction false} ComponentsReady(
      cs: seq<Component>, i: nat, outputs: nat, forward: nat, answers: seq<Answer>)
    requires i <= |cs| == 7 && AllSound(cs) && (cs[Index(Aecm)].enabled ==> forward <= RATE_16K)
    ensures var r := InitComponents(cs, i, outputs, forward, answers);
            && Initializing(r.error)
            && (forall k :: 0 <= k < i ==> r.components[k] == cs[k])
            && (r.error == NoError ==>
                  forall k :: i <= k < 7 ==> Ready(r.components[k], Required(k, outputs), forward))
            && (r.error != NoError ==>
                  exists k :: i <= k < 7 && !Ready(r.components[k], Required(k, outputs), forward))
    decreases 7 - i
  {
    hide InitKind, Ready, Alive, Sound;
    if i < 7 {
      var answer := AnswerOf(answers, i);
      var r := InitKind(i, cs[i], outputs, forward, answer);
      ComponentReady(i, cs[i], outputs, forward, answer);
      if r.error == NoError {
        ComponentsReady(cs[i := r.component], i + 1, outputs, forward, answers);
      }
    }
  }

  /**
   An initialisation leaves every enabled component ready exactly when it reports success and
   the gain manager, if it has an enabled gain control to manage, did not fail unseen.
   */
  lemma InitializeReady(s: Apm, answers: seq<Answer>)
    requires Formed(s) && Exclusive(s)
    ensures var r := Initialize(s, answers);
            && Initializing(r.error) && Initializing(r.ignored.manager)
            && r.ignored.compressor == None && r.ignored.options == NoError
            && (AllReady(r.apm) <==> r.error == NoError && (Enabled(s, Agc) ==> r.ignored.manager == NoError))
            && (r.error == NoError ==>
                  (Mendable(r.apm) <==> (Enabled(s, Agc) ==> !Fatal(r.ignored.manager))))
  {
    hide InitComponents, ManageGain, CaptureBuffer, RenderBuffer, Ready, Alive;
    var outputs := s.api.output.channels;
    ComponentsReady(s.components, 0, outputs, s.forward, answers);
    InitKeepsEnabled(s.components, 0, outputs, s.forward, answers);
    var r := InitComponents(s.components, 0, outputs, s.forward, answers);
    var agc := r.components[Index(Agc)];
    SoundAt(r.components, Index(Agc));
    assert SameFlags(s.components[Index(Agc)], agc);
    var s' := Initialize(s, answers).apm;
    if r.error != NoError {
      var k :| 0 <= k < 7 && !Ready(r.components[k], Required(k, outputs), s.forward);
      assert !IsReady(s', k);
    } else {
      ReadyIsAlive(agc, outputs, s.forward);
      ManagerReady(agc, outputs, s.forward, answers);
      var gain := ManageGain(agc, outputs, s.forward, answers).component;
      if !agc.enabled {
        DisabledReady(gain, outputs, s.forward);
      }
      assert Required(Index(Agc), outputs) == outputs;
      assert forall k :: 0 <= k < 7 && k != Index(Agc) ==> s'.components[k] == r.components[k];
      assert forall k :: 0 <= k < 7 && k != Index(Agc) ==> IsReady(s', k);
      assert AllReady(s') <==> IsReady(s', Index(Agc));
    }
  }

  lemma InitializeWithReady(s: Apm, c: Config, answers: seq<Answer>)
    requires Inv(s)
    ensures var r := InitializeWith(s, c, answers);
            && r.ignored.compressor == None && r.ignored.options == NoError
            && if ConfigError(c, s.options) != NoError then
                 r.apm == s && r.error == ConfigError(c, s.options) && !Initializing(r.error) && r.ignored == NOTHING
               else
                 && Initializing(r.error) && Initializing(r.ignored.manager)
                 && (AllReady(r.apm) <==> r.error == NoError && (Enabled(s, Agc) ==> r.ignored.manager == NoError))
                 && (r.error == NoError ==>
                       (Mendable(r.apm) <==> (Enabled(s, Agc) ==> !Fatal(r.ignored.manager))))
  {
    hide Initialize, CaptureBuffer, RenderBuffer, AllReady, Mendable, Derived, Started;
    if ConfigError(c, s.options) == NoError {
      InitializeReady(Adopt(s, c), answers);
    }
  }

  /** A change of the compression gain makes a mendable module ready, or unready if it fails. */
  lemma CompressReady(r: Result, compressor: Option<Answer>)
    requires Inv(r.apm)
    ensures var r' := Compress(r, compressor);
            if r.apm.options.newAgc && Enabled(r.apm, Agc) && compressor.Some? then
              && r'.error == r.error && r'.ignored.compressor.Some?
              && r'.ignored == r.ignored.(compressor := r'.ignored.compressor)
              && (AllReady(r'.apm) <==> Mendable(r.apm) && r'.ignored.compressor.value == NoError)
            else r' == r
  {
    hide Configure, Ready, Alive, Exclusive, Channels, Derived;
    var s := r.apm;
    if s.options.newAgc && Enabled(s, Agc) && compressor.Some? {
      var outputs, i := s.api.output.channels, Index(Agc);
      ConfigureReady(s.components[i], outputs, s.forward, compressor.value);
      InitComponentKeeps(0, s.components[i], 0, 0, compressor.value);
      var s' := Compress(r, compressor).apm;
      OthersReady(s, s', i);
      assert Required(i, outputs) == outputs;
      assert AllReady(s') <==> (forall k :: 0 <= k < 7 && k != i ==> IsReady(s', k)) && IsReady(s', i);
    }
  }

  /** A component that is replaced leaves the readiness of the others alone. */
  lemma OthersReady(s: Apm, s': Apm, i: nat)
    requires Formed(s) && Formed(s') && i < 7 && s'.api == s.api && s'.forward == s.forward
    requires s'.components == s.components[i := s'.components[i]]
    ensures forall k :: 0 <= k < 7 && k != i ==> IsReady(s', k) == IsReady(s, k)
  {
  }

  /** Nothing happened to gain control unseen: it was not lost, and not left without configuration. */
  predicate GainKept(ignored: Ignored) {
    match ignored.compressor
    case None => ignored.manager == NoError
    case Some(e) => e == NoError && !Fatal(ignored.manager)
  }

  lemma EnableReady(s: Apm, k: Kind, enable: bool, answer: Answer)
    requires Inv(s) && AllReady(s)
    ensures AllReady(Enable(s, k, enable, answer).apm) && Enable(s, k, enable, answer).ignored == NOTHING
  {
    hide Ready, EnableOne, Exclusive, Channels, Derived, Started;
    var i := Index(k);
    var s' := EnableComponent(s, k, enable, answer).apm;
    OthersReady(s, s', i);
    EnabledReady(s, k, enable, answer);
    assert forall j :: 0 <= j < 7 ==> IsReady(s', j);
  }

  /** An enabled component is ready, and one that fails to become so is disabled. */
  lemma EnabledReady(s: Apm, k: Kind, enable: bool, answer: Answer)
    requires Inv(s) && AllReady(s)
    ensures IsReady(EnableComponent(s, k, enable, answer).apm, Index(k))
  {
    hide InitKind, Derived, Channels, Started, Required;
    var i := Index(k);
    var c := s.components[i].(enabled := true);
    assert Sound(s.components[i]) && IsReady(s, i);
    if k != Aecm || s.forward <= RATE_16K {
      ComponentReady(i, c, s.api.output.channels, s.forward, answer);
    } else {
      AecmRefuses(c, s.api.output.channels, s.forward, answer);
    }
  }

  lemma AecmRefuses(c: Component, outputs: nat, forward: nat, answer: Answer)
    requires Sound(c) && c.enabled && forward > RATE_16K
    ensures InitKind(Index(Aecm), c, outputs, forward, answer) == Outcome(c, BadSampleRate)
  {
  }

  lemma ResetReady(s: Apm, k: Kind, answer: Answer)
    requires Inv(s) && AllReady(s)
    ensures var r := Reinitialize(s, k, answer);
            r.ignored == NOTHING && Initializing(r.error) && (AllReady(r.apm) <==> r.error == NoError)
  {
    hide InitKind, Ready, Channels, Derived, Started;
    var i := Index(k);
    ComponentReady(i, s.components[i], s.api.output.channels, s.forward, answer);
    var s' := Reinitialize(s, k, answer).apm;
    OthersReady(s, s', i);
    assert IsReady(s, i);
    assert AllReady(s') <==> IsReady(s', i);
  }

  lemma AdjustReady(s: Apm, k: Kind, answer: Answer)
    requires Inv(s) && AllReady(s)
    ensures var r := Reconfigure(s, k, answer);
            && r.ignored == NOTHING && Initializing(r.error)
            && (AllReady(r.apm) <==> !(Enabled(s, k) && r.error != NoError))
  {
    hide Configure, Ready, Alive, Exclusive, Channels, Derived;
    var i := Index(k);
    var required := Required(i, s.api.output.channels);
    assert IsReady(s, i);
    ReadyIsAlive(s.components[i], required, s.forward);
    ConfigureReady(s.components[i], required, s.forward, answer);
    var s' := Reconfigure(s, k, answer).apm;
    OthersReady(s, s', i);
    assert AllReady(s') <==> IsReady(s', i);
  }

  lemma OptionsReady(s: Apm, transient: bool, answer: Answer)
    requires Inv(s) && AllReady(s)
    ensures var r := SetExtraOptions(s, transient, answer);
            && r.error == NoError && r.ignored == NOTHING.(options := r.ignored.options)
            && (AllReady(r.apm) <==> !(Enabled(s, Aec) && r.ignored.options != NoError))
  {
    hide Configure, Ready, Alive, Exclusive, Channels, Derived;
    var i := Index(Aec);
    var required := Required(i, s.api.output.channels);
    assert IsReady(s, i);
    ReadyIsAlive(s.components[i], required, s.forward);
    ConfigureReady(s.components[i], required, s.forward, answer);
    var s' := SetExtraOptions(s, transient, answer).apm;
    OthersReady(s, s', i);
    assert AllReady(s') <==> IsReady(s', i);
  }

  // ---------------------------------------------------------------- calls

  /** Failures that callers see. */
  predicate Reported(e: Error) {
    Fatal(e) || e == ConfigureFailed
  }

  /**
   A call whose errors say that it leaves an enabled component unready: it reports a failure and
   is neither an enabling nor a setting of a disabled component, or it hides a failure of an
   enabled gain control or echo canceller.
   */
  predicate Failed(s: Apm, e: Event)
    requires Formed(s)
  {
    var r := Next(s, e);
    || (Reported(r.error) && !e.SetEnabled? && (e.Adjust? ==> Enabled(s, e.kind)))
    || (Enabled(s, Agc) && !GainKept(r.ignored))
    || (Enabled(s, Aec) && r.ignored.options != NoError)
  }

  /** What a stream does to a ready module. */
  lemma StreamReady(s: Apm, c: Config, answers: seq<Answer>, compressor: Option<Answer>)
    requires Inv(s) && AllReady(s)
    ensures var r := MaybeInitialize(s, c, answers);
            && r.ignored.options == NoError && r.ignored.compressor == None
            && (AllReady(r.apm) <==> !(Reported(r.error) || (Enabled(s, Agc) && !GainKept(r.ignored))))
    ensures var r := MaybeInitialize(s, c, answers);
            var r' := Compress(r, compressor);
            r.error == NoError ==>
              && r'.error == NoError && r'.ignored.options == NoError
              && (AllReady(r'.apm) <==> (Enabled(s, Agc) ==> GainKept(r'.ignored)))
  {
    hide InitializeWith, Compress, AllReady, Mendable, Exclusive, Channels, Derived, Started;
    InitializeWithReady(s, c, answers);
    InitializeWithKeeps(s, c, answers);
    ReadyIsMendable(s);
    var r := MaybeInitialize(s, c, answers);
    CompressReady(r, compressor);
    assert Enabled(r.apm, Agc) == Enabled(s, Agc);
  }

  lemma ReadyIsMendable(s: Apm)
    requires Formed(s) && AllReady(s)
    ensures Mendable(s)
  {
    hide Ready, Alive;
    assert IsReady(s, Index(Agc));
    ReadyIsAlive(s.components[Index(Agc)], s.api.output.channels, s.forward);
  }

  /** From a state where all enabled components are ready, the errors of a call say whether they stay so. */
  lemma ReadyByErrors(s: Apm, e: Event)
    requires Inv(s) && AllReady(s)
    ensures AllReady(Next(s, e).apm) <==> !Failed(s, e)
  {
    hide Initialize, MaybeInitialize, InitializeWith, Enable, Reinitialize, Reconfigure, SetExtraOptions, Compress;
    hide Derived, Exclusive, Channels, Started, AllReady;
    match e
    case SetEnabled(k, enable, answer) => EnableReady(s, k, enable, answer);
    case Reset(k, answer) => ResetReady(s, k, answer);
    case Adjust(k, answer) => AdjustReady(s, k, answer);
    case SetOptions(transient, answer) => OptionsReady(s, transient, answer);
    case InitializeAgain(answers) => InitializeReady(s, answers);
    case InitializeFor(c, answers) => InitializeWithReady(s, c, answers);
    case ProcessStream(input, output, answers, compressor) =>
      StreamReady(s, s.api.(input := input, output := output), answers, compressor);
    case ProcessReverse(input, output, answers) =>
      StreamReady(s, s.api.(reverseInput := input, reverseOutput := output), answers, None);
    case ProcessInt16(rate, channels, samples, answers, compressor) =>
      StreamReady(s, s.api.(input := s.api.input.(rate := rate, channels := channels),
                            output := s.api.output.(rate := rate, channels := channels)), answers, compressor);
    case ReverseInt16(rate, channels, samples, answers) =>
      StreamReady(s, s.api.(reverseInput := s.api.reverseInput.(rate := rate, channels := channels),
                            reverseOutput := s.api.reverseOutput.(rate := rate, channels := channels)), answers, None);
  }

  /**
   A stream that is let through finds its components ready exactly when they were ready before,
   or needed no more than the configuration it gives gain control, or its format changed; and
   gain control was not lost unseen.  An unchanged format initialises nothing.
   */
  lemma StreamFindsReady(s: Apm, input: Stream, output: Stream, answers: seq<Answer>, compressor: Option<Answer>)
    requires Inv(s) && Next(s, ProcessStream(input, output, answers, compressor)).error == NoError
    ensures var r := Next(s, ProcessStream(input, output, answers, compressor));
            var changed := input != s.api.input || output != s.api.output;
            AllReady(r.apm)
            <==> && (changed || (if r.ignored.compressor.Some? then Mendable(s) else AllReady(s)))
                 && (Enabled(s, Agc) ==> GainKept(r.ignored))
  {
    hide InitializeWith, Compress, AllReady, Mendable, Derived, Exclusive, Channels, Started;
    var c := s.api.(input := input, output := output);
    InitializeWithReady(s, c, answers);
    InitializeWithKeeps(s, c, answers);
    CompressReady(MaybeInitialize(s, c, answers), compressor);
    assert Enabled(MaybeInitialize(s, c, answers).apm, Agc) == Enabled(s, Agc);
  }
}
