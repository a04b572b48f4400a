/**
 The audio processing module as objects: components that own foreign handles, and the module
 that initialises, enables and runs them, proved against the state machine.
 */
module AudioProcessing {
  import opened Maybe
  import opened AudioProcessingModel
  import opened AudioProcessingLaws
  import opened AudioProcessingReady

  class ProcessingComponent {
    // The place in the component list, which tells AECM from the others.
    const index: nat
    var initialized: bool
    var enabled: bool
    var numHandles: nat
    var handles: seq<Handle>

    function Value(): Component
      reads this
    {
      Component(enabled, initialized, numHandles, handles)
    }

    constructor (index: nat)
      ensures this.index == index && Value() == NEW_COMPONENT
    {
      this.index := index;
      initialized, enabled, numHandles, handles := false, false, 0, [];
    }

    /** Gives all handles back. */
    method Destroy()
      modifies this
      ensures Value() == old(Value()).(handles := [], initialized := false)
    {
      while handles != []
        invariant Value() == old(Value()).(handles := handles)
        decreases |handles|
      {
        handles := handles[..|handles| - 1];
      }
      initialized := false;
    }

    method Configure(answer: Answer) returns (error: Error)
      requires Sound(Value())
      modifies this`handles
      ensures Outcome(Value(), error) == AudioProcessingModel.Configure(old(Value()), answer)
    {
      if !initialized {
        return NoError;
      }
      ghost var before := handles;
      for i := 0 to numHandles
        invariant |handles| == |before|
        invariant ConfigureHandles(before, 0, numHandles, answer) == ConfigureHandles(handles, i, numHandles, answer)
      {
        var ok := answer != ConfigureFails(i);
        handles := handles[i := Configured(handles[i], ok)];
        if !ok {
          return ConfigureFailed;
        }
      }
      return NoError;
    }

    /** Initialises as many handles as are required, creating the missing ones. */
    method InitializeHandles(required: nat, rate: nat, answer: Answer) returns (error: Error)
      requires Sound(Value())
      modifies this
      ensures Outcome(Value(), error) == InitComponent(old(Value()), required, rate, answer)
    {
      hide ConfigureHandles;
      if !enabled {
        return NoError;
      }
      numHandles := required;
      if numHandles > |handles| {
        handles := handles + Missings(numHandles - |handles|);
      }
      assert |handles| >= numHandles;
      ghost var room := handles;
      for i := 0 to numHandles
        invariant numHandles == required && |handles| == |room| && enabled && initialized == old(initialized)
        invariant InitHandles(room, 0, required, rate, answer) == InitHandles(handles, i, required, rate, answer)
      {
        ghost var before := handles;
        if handles[i] == Missing {
          if answer == CreateFails(i) {
            return CreationFailed;
          }
          handles := handles[i := Unready];
        }
        if answer == InitFails(i) {
          handles := handles[i := Unready];
          assert handles == before[i := Unready];
          return InitFailed;
        }
        handles := handles[i := Live(rate, false)];
        assert handles == before[i := Live(rate, false)];
      }
      initialized := true;
      error := Configure(answer);
    }

    /** The component's own initialisation: AECM refuses rates above 16 kHz. */
    method Initialize(outputs: nat, forward: nat, answer: Answer) returns (error: Error)
      requires Sound(Value())
      modifies this
      ensures Outcome(Value(), error) == InitKind(index, old(Value()), outputs, forward, answer)
    {
      hide InitComponent;
      if index == Index(Aecm) && enabled && forward > RATE_16K {
        return BadSampleRate;
      }
      error := InitializeHandles(Required(index, outputs), forward, answer);
    }

    /** Enabling initialises; a failure takes the enabling back. */
    method EnableComponent(enable: bool, outputs: nat, forward: nat, answer: Answer) returns (error: Error)
      requires Sound(Value())
      modifies this
      ensures error == NoError ==> enabled == enable
      ensures error != NoError ==> enable && !enabled
      ensures Outcome(Value(), error) == EnableOne(index, old(Value()), enable, outputs, forward, answer)
    {
      hide InitKind;
      if enable && !enabled {
        InitComponentKeeps(index, Value().(enabled := true), outputs, forward, answer);
        enabled := enable;
        error := Initialize(outputs, forward, answer);
        if error != NoError {
          enabled := false;
          return;
        }
      } else {
        enabled := enable;
      }
      error := NoError;
    }
  }

  /** The seven components, all disabled. */
  method NewComponents() returns (cs: seq<ProcessingComponent>)
    ensures |cs| == 7 && fresh(cs)
    ensures forall i :: 0 <= i < 7 ==> cs[i].index == i && cs[i].Value() == NEW_COMPONENT
  {
    cs := [];
    for i := 0 to 7
      invariant |cs| == i && fresh(cs)
      invariant forall k :: 0 <= k < i ==> cs[k].index == k && cs[k].Value() == NEW_COMPONENT
    {
      var c := new ProcessingComponent(i);
      cs := cs + [c];
    }
  }

  class AudioProcessingImpl {
    const options: Options
    const components: seq<ProcessingComponent>
    var transient: bool
    var api: Config
    var forward: nat
    var reverse: nat
    var split: nat
    var render: Option<Buffer>
    var capture: Buffer

    // The state as a value.
    ghost var state: Apm

    ghost predicate Valid()
      reads this, components
    {
      && |components| == 7 && Formed(state)
      && (forall i :: 0 <= i < 7 ==> components[i].index == i && state.components[i] == components[i].Value())
      && state == Apm(options, transient, api, forward, reverse, split, render, capture, state.components)
    }

    constructor (options: Options, transient: bool)
      ensures Valid() && state == Created(options, transient) && fresh(components)
    {
      hide CaptureBuffer, RenderBuffer;
      this.options, this.transient := options, transient;
      api := Config(MONO_16K, MONO_16K, MONO_16K, MONO_16K);
      forward, reverse, split := RATE_16K, RATE_16K, RATE_16K;
      var cs := NewComponents();
      components := cs;
      render := RenderBuffer(Config(MONO_16K, MONO_16K, MONO_16K, MONO_16K), RATE_16K);
      capture := CaptureBuffer(Config(MONO_16K, MONO_16K, MONO_16K, MONO_16K), RATE_16K, options);
      state := Created(options, transient);
    }

    /** Initialises buffers and components for the current format, up to the first failure. */
    method InitializeLocked(answers: seq<Answer>) returns (error: Error, ghost ignored: Ignored)
      requires Valid()
      modifies this`render, this`capture, this`state, components
      ensures Valid() && Result(state, error, ignored) == Initialize(old(state), answers)
    {
      hide CaptureBuffer, RenderBuffer, InitComponents, ManageGain;
      render := RenderBuffer(api, reverse);
      capture := CaptureBuffer(api, forward, options);
      state := state.(render := render, capture := capture);
      error := InitializeComponents(answers);
      ignored := NOTHING;
      if error != NoError {
        return;
      }
      if options.newAgc {
        var unseen := InitializeExperimentalAgc(answers);
        ignored := NOTHING.(manager := unseen);
      }
    }

    /** Initialises the components in order, up to the first that fails. */
    method InitializeComponents(answers: seq<Answer>) returns (error: Error)
      requires Valid()
      modifies this`state, components
      ensures Valid() && state == old(state).(components := state.components)
      ensures Components(state.components, error)
              == InitComponents(old(state).components, 0, api.output.channels, forward, answers)
    {
      hide InitKind;
      ghost var cs := state.components;
      error := NoError;
      var i := 0;
      while i < 7 && error == NoError
        invariant 0 <= i <= 7 && |cs| == 7 && AllSound(cs)
        invariant forall k :: 0 <= k < 7 ==> components[k].index == k && components[k].Value() == cs[k]
        invariant InitComponents(state.components, 0, api.output.channels, forward, answers)
                  == if error == NoError then InitComponents(cs, i, api.output.channels, forward, answers)
                     else Components(cs, error)
        decreases 7 - i
        modifies components
      {
        error := components[i].Initialize(api.output.channels, forward, AnswerOf(answers, i));
        cs := cs[i := components[i].Value()];
        i := i + 1;
      }
      state := state.(components := cs);
    }

    /** The manager of the new gain control sets it up once more; its result is dropped by the caller. */
    method InitializeExperimentalAgc(answers: seq<Answer>) returns (error: Error)
      requires Valid()
      modifies this`state, components[Index(Agc)]
      ensures Valid()
      ensures var gain := ManageGain(old(state).components[Index(Agc)], api.output.channels, forward, answers);
              && error == gain.error
              && state == old(state).(components := old(state).components[Index(Agc) := gain.component])
    {
      hide InitKind, AudioProcessingModel.Configure;
      var agc := components[Index(Agc)];
      ghost var c0 := agc.Value();
      error := agc.Initialize(api.output.channels, forward, AnswerOf(answers, FIRST_OF_MANAGER));
      var i := FIRST_OF_MANAGER + 1;
      while i < FIRST_OF_MANAGER + 4 && error == NoError
        invariant FIRST_OF_MANAGER + 1 <= i <= FIRST_OF_MANAGER + 4 && Sound(agc.Value())
        invariant ManageGain(c0, api.output.channels, forward, answers)
                  == if error == NoError then ConfigureAll(agc.Value(), answers, i, FIRST_OF_MANAGER + 4)
                     else Outcome(agc.Value(), error)
        decreases FIRST_OF_MANAGER + 4 - i
        modifies agc
      {
        error := agc.Configure(AnswerOf(answers, i));
        i := i + 1;
      }
      state := state.(components := state.components[Index(Agc) := agc.Value()]);
    }

    /** What a format is refused for, stream by stream and then as a whole. */
    method CheckConfig(config: Config) returns (error: Error)
      ensures error == ConfigError(config, options)
    {
      var streams := [config.input, config.output, config.reverseInput, config.reverseOutput];
      for i := 0 to 4
        invariant forall k :: 0 <= k < i ==> StreamError(streams[k]) == NoError
      {
        FirstRefused(config, options, streams, i);
        if streams[i].channels < 0 {
          return BadNumberChannels;
        }
        if streams[i].channels > 0 && streams[i].rate <= 0 {
          return BadSampleRate;
        }
      }
      assert forall k :: 0 <= k < 4 ==> StreamError(streams[k]) == NoError;
      assert StreamError(streams[0]) == NoError && StreamError(streams[1]) == NoError;
      assert StreamError(streams[2]) == NoError && StreamError(streams[3]) == NoError;
      var inputs, outputs := config.input.channels, config.output.channels;
      if inputs == 0 || !(outputs == 1 || outputs == inputs) {
        return BadNumberChannels;
      }
      if options.beamformer && (inputs != options.microphones || outputs > 1) {
        return BadNumberChannels;
      }
      error := NoError;
    }

    /** The processing rates for the format. */
    method SelectRates()
      requires |components| == 7
      modifies this`forward, this`reverse, this`split
      ensures forward == ForwardRate(api.input.rate, api.output.rate, components[Index(Aecm)].enabled)
      ensures reverse == ReverseRate(forward, api.reverseInput.rate) && split == SplitRate(forward)
    {
      var low := if api.output.rate < api.input.rate then api.output.rate else api.input.rate;
      if low > RATE_32K {
        forward := RATE_48K;
      } else if low > RATE_16K {
        forward := RATE_32K;
      } else if low > RATE_8K {
        forward := RATE_16K;
      } else {
        forward := RATE_8K;
      }
      if components[Index(Aecm)].enabled && low > RATE_16K {
        forward := RATE_16K;
      }
      reverse := RATE_16K;
      if forward == RATE_8K {
        reverse := RATE_8K;
      } else if api.reverseInput.rate == RATE_32K {
        reverse := RATE_32K;
      }
      if forward == RATE_32K || forward == RATE_48K {
        split := RATE_16K;
      } else {
        split := forward;
      }
    }

    /** Adopts a format and derives the processing rates from it. */
    method InitializeConfig(config: Config, answers: seq<Answer>) returns (error: Error, ghost ignored: Ignored)
      requires Valid()
      modifies this, components
      ensures Valid() && Result(state, error, ignored) == InitializeWith(old(state), config, answers)
    {
      hide Initialize, ConfigError, ForwardRate, ReverseRate, SplitRate;
      ignored := NOTHING;
      error := CheckConfig(config);
      if error != NoError {
        return;
      }
      PositiveOutputs(config, options);
      api := config;
      SelectRates();
      state := state.(api := api, forward := forward, reverse := reverse, split := split);
      error, ignored := InitializeLocked(answers);
    }

    method MaybeInitializeLocked(config: Config, answers: seq<Answer>) returns (error: Error, ghost ignored: Ignored)
      requires Valid()
      modifies this, components
      ensures Valid() && Result(state, error, ignored) == MaybeInitialize(old(state), config, answers)
    {
      hide InitializeWith;
      if config == api {
        return NoError, NOTHING;
      }
      error, ignored := InitializeConfig(config, answers);
    }

    /** Enables or disables a component; the two echo components exclude each other. */
    method SetEnabled(k: Kind, enable: bool, answer: Answer) returns (error: Error)
      requires Valid()
      modifies this`state, components[Index(k)]
      ensures Valid() && Result(state, error) == Enable(old(state), k, enable, answer)
    {
      hide EnableOne;
      if enable && k == Aecm && components[Index(Aec)].enabled {
        return BadParameter;
      }
      if enable && k == Aec && components[Index(Aecm)].enabled {
        return BadParameter;
      }
      var i := Index(k);
      error := components[i].EnableComponent(enable, api.output.channels, forward, answer);
      state := state.(components := state.components[i := components[i].Value()]);
    }

    /** Whether any component changes the data. */
    method IsDataProcessed() returns (processed: bool)
      requires Valid()
      ensures processed == DataProcessed(state)
      ensures processed
              <==> || options.beamformer || Enabled(state, Aec) || Enabled(state, Aecm) || Enabled(state, Agc)
                   || Enabled(state, HighPass) || Enabled(state, Noise)
    {
      DataProcessedMeans(state);
      if options.beamformer {
        return true;
      }
      var count := 0;
      for i := 0 to 7
        invariant count + EnabledCount(state.components[i..]) == EnabledCount(state.components)
      {
        assert state.components[i..][1..] == state.components[i + 1..];
        if components[i].enabled {
          count := count + 1;
        }
      }
      if count == 0 {
        return false;
      } else if count == 1 {
        if components[Index(Level)].enabled || components[Index(Voice)].enabled {
          return false;
        }
      } else if count == 2 {
        if components[Index(Level)].enabled && components[Index(Voice)].enabled {
          return false;
        }
      }
      processed := true;
    }

    predicate NeedsSynthesis(dataProcessed: bool)
      reads this
    {
      dataProcessed && (forward == RATE_32K || forward == RATE_48K)
    }

    predicate NeedsAnalysis(dataProcessed: bool)
      reads this, components
      requires |components| == 7
    {
      if !dataProcessed && !components[Index(Voice)].enabled && !transient then false
      else forward == RATE_32K || forward == RATE_48K
    }

    /**
     The skeleton of processing a stream: bands have the size the components assert, a splitting
     filter is there when it is used, bands are merged only when they were split, and every
     enabled component has a handle for each channel if and only if its count is up to date,
     which it is when the components are ready.
     */
    method ProcessStreamLocked() returns (splits: bool, merges: bool, handlesMatch: bool)
      requires Valid() && Inv(state)
      ensures splits == AnalysisNeeded(state) && merges == SynthesisNeeded(state)
      ensures merges ==> splits
      ensures handlesMatch <==> forall i :: 0 <= i < 7 ==> HandlesMatch(state, i)
      ensures AllReady(state) ==> handlesMatch
    {
      hide DataProcessed, Derived, AllReady, Exclusive, Channels, Started;
      InvIsSafe(state);
      var dataProcessed := IsDataProcessed();
      splits := NeedsAnalysis(dataProcessed);
      if splits {
        assert capture.splittingFilter;
      }
      var channels := if options.beamformer then 1 else capture.channels;
      assert channels == api.output.channels;
      handlesMatch := true;
      for i := 0 to 7
        invariant handlesMatch <==> forall k :: 0 <= k < i ==> HandlesMatch(state, k)
      {
        assert HandlesMatch(state, i)
          <==> (components[i].enabled ==> components[i].numHandles == Required(i, channels));
        if components[i].enabled {
          assert capture.framesPerBand <= 160;
          handlesMatch := handlesMatch && components[i].numHandles == Required(i, channels);
        }
      }
      ReadyHandles(state);
      merges := NeedsSynthesis(dataProcessed);
      if merges {
        assert capture.splittingFilter;
      }
    }
  }

  /** The assertion of a component on the number of its handles. */
  predicate HandlesMatch(s: Apm, i: nat)
    requires Formed(s) && i < 7
  {
    s.components[i].enabled ==> s.components[i].numHandles == Required(i, s.api.output.channels)
  }

  lemma ReadyHandles(s: Apm)
    requires Formed(s)
    ensures AllReady(s) ==> forall i :: 0 <= i < 7 ==> HandlesMatch(s, i)
  {
    if AllReady(s) {
      forall i | 0 <= i < 7 ensures HandlesMatch(s, i) {
        assert IsReady(s, i);
      }
    }
  }

  /** The first stream that is not accepted decides the error. */
  lemma FirstRefused(c: Config, o: Options, streams: seq<Stream>, i: nat)
    requires streams == [c.input, c.output, c.reverseInput, c.reverseOutput] && i < 4
    requires forall k :: 0 <= k < i ==> StreamError(streams[k]) == NoError
    ensures StreamError(streams[i]) != NoError ==> ConfigError(c, o) == StreamError(streams[i])
  {
    assert i > 0 ==> StreamError(streams[0]) == NoError;
    assert i > 1 ==> StreamError(streams[1]) == NoError;
    assert i > 2 ==> StreamError(streams[2]) == NoError;
  }

  lemma PositiveOutputs(c: Config, o: Options)
    requires ConfigError(c, o) == NoError
    ensures c.output.channels >= 1
  {
  }
}
