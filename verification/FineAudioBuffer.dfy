/**
 FineAudioBuffer: re-chunks audio between caller frames of any fixed size and the device's
 10 ms chunks.  Playout and recording each refine a plain first-in first-out stream.
 */
module FineAudio {
  import opened AudioStreams

  /** The device side: what it answers to requests, and what it was given. */
  class AudioDeviceBuffer {
    const chunkSize: nat
    var answers: seq<Answer>
    ghost var supplied: seq<Sample>
    ghost var delivered: seq<Sample>

    ghost predicate Valid()
      reads this`answers
    {
      forall i :: 0 <= i < |answers| && answers[i].Chunk? ==> |answers[i].data| == chunkSize
    }

    constructor (chunkSize: nat, answers: seq<Answer>)
      requires forall i :: 0 <= i < |answers| && answers[i].Chunk? ==> |answers[i].data| == chunkSize
      ensures this.chunkSize == chunkSize && this.answers == answers && supplied == [] && delivered == [] && Valid()
    {
      this.chunkSize := chunkSize;
      this.answers := answers;
      supplied, delivered := [], [];
    }

    /** Writes the next chunk, or nothing at all. */
    method GetPlayoutData(buffer: array<Sample>, at: nat) returns (ok: bool, ghost chunk: seq<Sample>)
      requires Valid() && at + chunkSize <= buffer.Length
      modifies this`answers, this`supplied, buffer
      ensures Valid() && |chunk| == (if ok then chunkSize else 0)
      ensures Pull(ok, chunk, answers) == PullAll(old(answers), 1)
      ensures supplied == old(supplied) + chunk
      ensures buffer[..] == Overwrite(old(buffer[..]), at, chunk)
    {
      if answers == [] || answers[0].Nothing? {
        if answers != [] {
          answers := answers[1..];
        }
        return false, [];
      }
      var data := answers[0].data;
      answers := answers[1..];
      forall k | 0 <= k < chunkSize {
        buffer[at + k] := data[k];
      }
      supplied := supplied + data;
      return true, data;
    }

    /** Hands a recorded chunk on. */
    method DeliverRecordedData(buffer: array<Sample>, at: nat)
      requires at + chunkSize <= buffer.Length
      modifies this`delivered
      ensures delivered == old(delivered) + buffer[at..at + chunkSize]
    {
      delivered := delivered + buffer[at..at + chunkSize];
    }
  }

  /** Copies n samples between two arrays. */
  method Copy(src: array<Sample>, from: nat, dst: array<Sample>, to: nat, n: nat)
    requires src != dst && from + n <= src.Length && to + n <= dst.Length
    modifies dst
    ensures dst[..] == Overwrite(old(dst[..]), to, src[from..from + n])
  {
    for i := 0 to n
      invariant dst[to..to + i] == src[from..from + i]
      invariant forall k :: 0 <= k < dst.Length && !(to <= k < to + i) ==> dst[k] == old(dst[k])
    {
      dst[to + i] := src[from + i];
    }
  }

  /** Moves n samples of an array to its front, first to last. */
  method MoveToFront(a: array<Sample>, from: nat, n: nat)
    requires from + n <= a.Length
    modifies a
    ensures a[..n] == old(a[from..from + n])
  {
    for i := 0 to n
      invariant forall k :: 0 <= k < i ==> a[k] == old(a[from + k])
      invariant forall k :: i <= k < a.Length ==> a[k] == old(a[k])
    {
      a[i] := a[from + i];
    }
  }

  /** Requests as many chunks as a number of missing samples needs, and writes them one after another. */
  method PullChunks(device: AudioDeviceBuffer, buffer: array<Sample>, first: nat, missing: nat)
    returns (ok: bool, requests: nat, left: int, ghost pulled: seq<Sample>)
    requires device.Valid() && device.chunkSize > 0 && missing > 0
    requires first + missing + device.chunkSize <= buffer.Length
    modifies device`answers, device`supplied, buffer
    ensures device.Valid() && device.supplied == old(device.supplied) + pulled
    ensures requests == Requests(missing, 0, device.chunkSize)
    ensures Pull(ok, pulled, device.answers) == PullAll(old(device.answers), requests)
    ensures |pulled| < missing + device.chunkSize
    ensures buffer[..] == Overwrite(old(buffer[..]), first, pulled)
    ensures ok ==> |pulled| == requests * device.chunkSize && |pulled| == missing - left && left <= 0
  {
    hide Overwrite, PullAll;
    var size := device.chunkSize;
    left, pulled := missing, [];
    requests := 1 + (left - 1) / size;
    var at := first;
    OverwriteNothing(buffer[..], first);
    PullNone(device.answers);
    for i := 0 to requests
      invariant device.Valid() && device.supplied == old(device.supplied) + pulled
      invariant at == first + |pulled| && |pulled| == missing - left && |pulled| == i * size
      invariant buffer[..] == Overwrite(old(buffer[..]), first, pulled)
      invariant PullAll(old(device.answers), i) == Pull(true, pulled, device.answers)
    {
      RequestBounds(missing, size, i);
      PullSplit(old(device.answers), i, 1);
      PullSplit(old(device.answers), i + 1, requests - (i + 1));
      assert left > 0;
      ghost var chunk;
      ok, chunk := device.GetPlayoutData(buffer, at);
      OverwriteAppend(old(buffer[..]), first, pulled, chunk);
      pulled := pulled + chunk;
      if !ok {
        return;
      }
      at := at + size;
      left := left - size;
    }
    RequestBounds(missing, size, requests);
    ok := true;
  }

  class FineAudioBuffer {
    const device: AudioDeviceBuffer
    const frameSize: nat
    const chunkSize: nat
    const playoutCache: array<Sample>
    var playoutStart: nat
    var playoutCached: nat
    const recordCache: array<Sample>
    var recordCached: nat
    var recordRead: nat
    var recordWrite: nat

    // Playout since the last reset or failure: where it starts in what the device supplied,
    // and how many frames were returned and chunks pulled.
    ghost var playoutOrigin: nat
    ghost var frames: nat
    ghost var chunks: nat

    // Recording since the last reset: where it starts in what the device was given, the
    // samples recorded, and how many chunks were delivered.
    ghost var recordOrigin: nat
    ghost var recorded: seq<Sample>
    ghost var deliveries: nat

    ghost predicate Shape()
      reads this
    {
      && chunkSize > 0 && device.chunkSize == chunkSize && playoutCache != recordCache
      && playoutCache.Length == chunkSize && recordCache.Length == 5 * (frameSize + chunkSize)
    }

    /** What the device supplied since playout started. */
    ghost function Stream(): seq<Sample>
      reads this, device
      requires playoutOrigin <= |device.supplied|
    {
      device.supplied[playoutOrigin..]
    }

    ghost predicate PlayoutValid()
      reads this, playoutCache, device
    {
      && Shape() && device.Valid() && playoutOrigin <= |device.supplied|
      && playoutStart + playoutCached < chunkSize
      && PlaysInOrder(Stream(), playoutCache[playoutStart..playoutStart + playoutCached],
                      frames, frameSize, chunks, chunkSize)
    }

    ghost predicate RecordValid()
      reads this, recordCache, device
    {
      && Shape()
      && recordRead + recordCached == recordWrite <= recordCache.Length && recordCached < chunkSize
      && RecordsInOrder(device.delivered, recordOrigin, recordCache[recordRead..recordWrite],
                        recorded, deliveries, chunkSize)
    }

    constructor (device: AudioDeviceBuffer, frameSize: nat, sampleRate: nat)
      requires device.chunkSize == sampleRate * 10 / 1000 * 2 && device.Valid()
      ensures this.device == device && this.frameSize == frameSize
      ensures chunkSize == sampleRate * 10 / 1000 * 2
      ensures PlayoutValid() <==> sampleRate >= 100
      ensures RecordValid() <==> sampleRate >= 100
      ensures frames == 0 && chunks == 0 && recorded == [] && deliveries == 0
      ensures fresh(playoutCache) && fresh(recordCache)
    {
      this.device := device;
      this.frameSize := frameSize;
      chunkSize := sampleRate * 10 / 1000 * 2;
      playoutStart, playoutCached := 0, 0;
      recordCached, recordRead, recordWrite := 0, 0, 0;
      playoutCache := new Sample[sampleRate * 10 / 1000 * 2];
      recordCache := new Sample[5 * (frameSize + sampleRate * 10 / 1000 * 2)](_ => 0);
      playoutOrigin, frames, chunks := |device.supplied|, 0, 0;
      recordOrigin, recorded, deliveries := |device.delivered|, [], 0;
    }

    method ResetPlayout()
      requires PlayoutValid()
      modifies this`playoutStart, this`playoutCached, this`playoutOrigin, this`frames, this`chunks, playoutCache
      ensures PlayoutValid() && frames == 0 && chunks == 0 && playoutOrigin == |device.supplied|
    {
      playoutStart, playoutCached := 0, 0;
      forall k | 0 <= k < chunkSize {
        playoutCache[k] := 0;
      }
      playoutOrigin, frames, chunks := |device.supplied|, 0, 0;
    }

    /** The next frame of the stream, unless the device fails, which starts the stream anew. */
    method GetPlayoutData(buffer: array<Sample>) returns (complete: bool)
      requires PlayoutValid() && buffer.Length >= frameSize + chunkSize
      requires buffer != playoutCache && buffer != recordCache
      modifies this`playoutStart, this`playoutCached, this`playoutOrigin, this`frames, this`chunks
      modifies playoutCache, device`answers, device`supplied, buffer
      ensures PlayoutValid()
      ensures var requests := Requests(frameSize, old(playoutCached), chunkSize);
              var pull := PullAll(old(device.answers), requests);
              && complete == pull.ok && device.answers == pull.rest
              && device.supplied == old(device.supplied) + pull.samples
              && (complete ==> chunks == old(chunks) + requests)
      ensures complete ==> frames == old(frames) + 1 && playoutOrigin == old(playoutOrigin)
      ensures complete ==> IsFrame(buffer[..frameSize], Stream(), old(frames), frameSize)
      ensures !complete ==> frames == 0 && playoutOrigin == |device.supplied|
      ensures buffer[frameSize + chunkSize..] == old(buffer[frameSize + chunkSize..])
    {
      hide PlaysInOrder, Overwrite, IsFrame, PullAll;
      ghost var stream, cache := Stream(), playoutCache[playoutStart..playoutStart + playoutCached];
      if frameSize <= playoutCached {
        PullNone(device.answers);
        FrameFromCache(stream, cache, frames, frameSize, chunks, chunkSize);
        Copy(playoutCache, playoutStart, buffer, 0, frameSize);
        OverwriteFront(old(buffer[..]), cache[..frameSize], frameSize);
        assert playoutCache[playoutStart..playoutStart + frameSize] == cache[..frameSize];
        playoutStart := playoutStart + frameSize;
        playoutCached := playoutCached - frameSize;
        assert playoutStart + playoutCached < chunkSize;
        assert playoutCache[playoutStart..playoutStart + playoutCached] == cache[frameSize..];
        frames := frames + 1;
        return true;
      }
      complete := FillFrame(buffer);
    }

    /** The cached samples and the chunks a frame needs, at the front of the caller's buffer. */
    method Gather(buffer: array<Sample>) returns (ok: bool, requests: nat, left: int, ghost pulled: seq<Sample>)
      requires PlayoutValid() && buffer.Length >= frameSize + chunkSize && playoutCached < frameSize
      requires buffer != playoutCache && buffer != recordCache
      modifies device`answers, device`supplied, buffer
      ensures device.Valid() && device.supplied == old(device.supplied) + pulled
      ensures requests == Requests(frameSize, playoutCached, chunkSize)
      ensures Pull(ok, pulled, device.answers) == PullAll(old(device.answers), requests)
      ensures playoutCached + |pulled| < frameSize + chunkSize
      ensures buffer[..playoutCached + |pulled|] == playoutCache[playoutStart..playoutStart + playoutCached] + pulled
      ensures buffer[frameSize + chunkSize..] == old(buffer[frameSize + chunkSize..])
      ensures ok ==> |pulled| == requests * chunkSize && |pulled| == frameSize - playoutCached - left && left <= 0
    {
      hide PlaysInOrder, Overwrite, PullAll;
      ghost var cache := playoutCache[playoutStart..playoutStart + playoutCached];
      Copy(playoutCache, playoutStart, buffer, 0, playoutCached);
      ok, requests, left, pulled := PullChunks(device, buffer, playoutCached, frameSize - playoutCached);
      ghost var w := cache + pulled;
      OverwriteAppend(old(buffer[..]), 0, cache, pulled);
      OverwriteFront(old(buffer[..]), w, |w|);
      TailOfTail(buffer[..], |w|, frameSize + chunkSize);
      TailOfTail(old(buffer[..]), |w|, frameSize + chunkSize);
    }

    /** The slow path: the cached samples, then as many chunks as the frame needs. */
    method FillFrame(buffer: array<Sample>) returns (complete: bool)
      requires PlayoutValid() && buffer.Length >= frameSize + chunkSize && playoutCached < frameSize
      requires buffer != playoutCache && buffer != recordCache
      modifies this`playoutStart, this`playoutCached, this`playoutOrigin, this`frames, this`chunks
      modifies playoutCache, device`answers, device`supplied, buffer
      ensures PlayoutValid()
      ensures var requests := Requests(frameSize, old(playoutCached), chunkSize);
              var pull := PullAll(old(device.answers), requests);
              && complete == pull.ok && device.answers == pull.rest
              && device.supplied == old(device.supplied) + pull.samples
              && (complete ==> chunks == old(chunks) + requests)
      ensures complete ==> frames == old(frames) + 1 && playoutOrigin == old(playoutOrigin)
      ensures complete ==> IsFrame(buffer[..frameSize], Stream(), old(frames), frameSize)
      ensures !complete ==> frames == 0 && playoutOrigin == |device.supplied|
      ensures buffer[frameSize + chunkSize..] == old(buffer[frameSize + chunkSize..])
    {
      hide PlaysInOrder, Overwrite, IsFrame, PullAll;
      ghost var stream, cache := Stream(), playoutCache[playoutStart..playoutStart + playoutCached];
      var ok, requests, left, pulled := Gather(buffer);
      ghost var w := cache + pulled;
      if !ok {
        playoutCached := 0;
        playoutOrigin, frames, chunks := |device.supplied|, 0, 0;
        FreshStart(frameSize, chunkSize);
        assert Stream() == [] && playoutCache[playoutStart..playoutStart + playoutCached] == [];
        return false;
      }
      assert left <= 0;
      SliceOfSlice(buffer[..], 0, |w|, frameSize);
      StreamGrows(old(device.supplied), playoutOrigin, pulled);
      FrameFromChunks(stream, cache, pulled, frames, frameSize, chunks, requests, chunkSize);
      KeepRest(buffer, requests * chunkSize - (frameSize - playoutCached));
      assert playoutCached <= chunkSize && 0 - left == playoutCached;
      frames, chunks := frames + 1, chunks + requests;
      complete := true;
    }

    /** Caches the samples behind the frame. */
    method KeepRest(buffer: array<Sample>, count: nat)
      requires Shape() && buffer != playoutCache && count <= chunkSize && frameSize + count <= buffer.Length
      modifies this`playoutStart, this`playoutCached, playoutCache
      ensures playoutStart == 0 && playoutCached == count
      ensures playoutCache[playoutStart..playoutStart + playoutCached] == buffer[frameSize..frameSize + count]
    {
      hide Overwrite;
      playoutCached := count;
      playoutStart := 0;
      OverwriteFront(playoutCache[..], buffer[frameSize..frameSize + count], count);
      Copy(buffer, frameSize, playoutCache, 0, count);
    }

    method ResetRecord()
      requires RecordValid()
      modifies this`recordCached, this`recordRead, this`recordWrite, recordCache
      modifies this`recordOrigin, this`recorded, this`deliveries
      ensures RecordValid() && recorded == [] && deliveries == 0 && recordOrigin == |device.delivered|
    {
      recordCached, recordRead, recordWrite := 0, 0, 0;
      forall k | 0 <= k < recordCache.Length {
        recordCache[k] := 0;
      }
      recordOrigin, recorded, deliveries := |device.delivered|, [], 0;
    }

    /** Takes in a frame and hands on every full chunk, in order. */
    method DeliverRecordedData(buffer: array<Sample>)
      requires RecordValid() && buffer.Length == frameSize && buffer != recordCache
      modifies this`recordCached, this`recordRead, this`recordWrite, recordCache, device`delivered
      modifies this`recorded, this`deliveries
      ensures RecordValid() && recordOrigin == old(recordOrigin)
      ensures recorded == old(recorded) + buffer[..] && old(device.delivered) <= device.delivered
    {
      hide RecordsInOrder, Overwrite;
      StoreFrame(buffer);
      RecordMore(device.delivered, recordOrigin, old(recordCache[recordRead..recordWrite]), buffer[..],
                 recorded, deliveries, chunkSize);
      recorded := recorded + buffer[..];
      DeliverChunks();
    }

    /** Appends a frame to the cache, moving the cache to the front when the frame does not fit behind it. */
    method StoreFrame(buffer: array<Sample>)
      requires RecordValid() && buffer.Length == frameSize && buffer != recordCache
      modifies this`recordCached, this`recordRead, this`recordWrite, recordCache
      ensures recordCached == old(recordCached) + frameSize
      ensures recordRead + recordCached == recordWrite <= recordCache.Length
      ensures recordCache[recordRead..recordWrite] == old(recordCache[recordRead..recordWrite]) + buffer[..]
    {
      hide RecordsInOrder, Overwrite;
      if recordWrite + frameSize > recordCache.Length {
        Compact();
      }
      OverwriteSlice(recordCache[..], recordRead, recordWrite, buffer[..]);
      assert buffer[0..frameSize] == buffer[..];
      Copy(buffer, 0, recordCache, recordWrite, frameSize);
      recordWrite := recordWrite + frameSize;
      recordCached := recordCached + frameSize;
    }

    /** Moves what is cached to the front of the cache. */
    method Compact()
      requires recordRead + recordCached == recordWrite <= recordCache.Length
      modifies this`recordRead, this`recordWrite, recordCache
      ensures recordRead == 0 && recordWrite == recordCached
      ensures recordCache[recordRead..recordWrite] == old(recordCache[recordRead..recordWrite])
    {
      if recordCached > 0 {
        MoveToFront(recordCache, recordRead, recordCached);
      }
      recordWrite := recordCached;
      recordRead := 0;
    }

    /** Hands on chunks until less than a chunk is cached. */
    method DeliverChunks()
      requires Shape() && recordRead + recordCached == recordWrite <= recordCache.Length
      requires RecordsInOrder(
                 device.delivered, recordOrigin, recordCache[recordRead..recordWrite], recorded, deliveries, chunkSize)
      modifies this`recordCached, this`recordRead, device`delivered, this`deliveries
      ensures RecordValid() && old(device.delivered) <= device.delivered
    {
      hide RecordsInOrder;
      while recordCached >= chunkSize
        invariant recordRead + recordCached == recordWrite && old(device.delivered) <= device.delivered
        invariant RecordsInOrder(
                    device.delivered, recordOrigin, recordCache[recordRead..recordWrite],
                    recorded, deliveries, chunkSize)
        decreases recordCached
      {
        ghost var cached := recordCache[recordRead..recordWrite];
        SliceOfSlice(recordCache[..], recordRead, recordWrite, chunkSize);
        DeliverOne(device.delivered, recordOrigin, cached, recorded, deliveries, chunkSize);
        device.DeliverRecordedData(recordCache, recordRead);
        recordRead := recordRead + chunkSize;
        recordCached := recordCached - chunkSize;
        deliveries := deliveries + 1;
      }
    }
  }

  /**
   A run of playout completes exactly when the device meets as many requests as the frames
   need, and then the frames are the first samples of those chunks.
   */
  method PlayFrames(b: FineAudioBuffer, buffer: array<Sample>, n: nat) returns (complete: bool, played: seq<Sample>)
    requires b.PlayoutValid() && b.frames == 0 && buffer.Length >= b.frameSize + b.chunkSize
    requires buffer != b.playoutCache && buffer != b.recordCache
    modifies b`playoutStart, b`playoutCached, b`playoutOrigin, b`frames, b`chunks
    modifies b.playoutCache, b.device`answers, b.device`supplied, buffer
    ensures b.PlayoutValid() && n * b.frameSize >= 0
    ensures var needed := ChunksFor(n * b.frameSize, b.chunkSize);
            var pull := PullAll(old(b.device.answers), needed);
            && complete == pull.ok
            && (complete ==>
                  && b.chunks == needed && b.device.answers == pull.rest
                  && |played| == n * b.frameSize && played <= pull.samples)
  {
    hide PlaysInOrder, IsFrame, PullAll, ChunksFor, Requests;
    played := [];
    ghost var answers := b.device.answers;
    StartsEmpty(b.Stream(), b.playoutCache[b.playoutStart..b.playoutStart + b.playoutCached],
                b.frameSize, b.chunks, b.chunkSize);
    PullNone(answers);
    for i := 0 to n
      invariant b.PlayoutValid() && b.frames == i && i * b.frameSize >= 0
      invariant b.chunks == ChunksFor(i * b.frameSize, b.chunkSize)
      invariant PullAll(answers, b.chunks) == Pull(true, b.Stream(), b.device.answers)
      invariant |played| == i * b.frameSize && played <= b.Stream()
    {
      ghost var before, chunks := b.Stream(), b.chunks;
      ghost var requests := Requests(b.frameSize, b.playoutCached, b.chunkSize);
      RequestsAddUp(before, b.playoutCache[b.playoutStart..b.playoutStart + b.playoutCached],
                    i, b.frameSize, chunks, b.chunkSize);
      PullSplit(answers, chunks, requests);
      complete := b.GetPlayoutData(buffer);
      if !complete {
        BreaksOff(answers, i + 1, n, b.frameSize, b.chunkSize);
        return;
      }
      StreamGrows(b.device.supplied[..b.playoutOrigin + |before|], b.playoutOrigin,
                  b.device.supplied[b.playoutOrigin + |before|..]);
      assert before <= b.Stream();
      AppendFrame(played, buffer[..b.frameSize], b.Stream(), i, b.frameSize);
      played := played + buffer[..b.frameSize];
    }
    complete := true;
  }

  /** A run of recording: exactly the full chunks of the recorded samples are handed on, in order. */
  method RecordFrames(b: FineAudioBuffer, frames: seq<array<Sample>>) returns (ghost samples: seq<Sample>)
    requires b.RecordValid() && b.recorded == []
    requires forall i :: 0 <= i < |frames| ==> frames[i].Length == b.frameSize && frames[i] != b.recordCache
    modifies b`recordCached, b`recordRead, b`recordWrite, b.recordCache, b.device`delivered
    modifies b`recorded, b`deliveries
    ensures b.RecordValid() && |samples| == |frames| * b.frameSize
    ensures forall i :: 0 <= i < |frames| ==> IsFrame(frames[i][..], samples, i, b.frameSize)
    ensures b.recordOrigin <= |b.device.delivered|
    ensures b.deliveries == |samples| / b.chunkSize && 0 <= b.deliveries * b.chunkSize <= |samples|
    ensures b.device.delivered[b.recordOrigin..] == samples[..b.deliveries * b.chunkSize]
  {
    hide RecordsInOrder, IsFrame;
    samples := [];
    for i := 0 to |frames|
      invariant b.RecordValid() && b.recorded == samples && |samples| == i * b.frameSize
      invariant forall k :: 0 <= k < i ==> IsFrame(frames[k][..], samples, k, b.frameSize)
    {
      b.DeliverRecordedData(frames[i]);
      GrowFrames(samples, frames[i][..], i, b.frameSize);
      forall k | 0 <= k < i ensures IsFrame(frames[k][..], samples + frames[i][..], k, b.frameSize) {
        KeepFrame(frames[k][..], samples, frames[i][..], k, b.frameSize);
      }
      samples := samples + frames[i][..];
    }
    ChunksDelivered(b.device.delivered, b.recordOrigin, b.recordCache[b.recordRead..b.recordWrite],
                    samples, b.deliveries, b.chunkSize);
  }
}
