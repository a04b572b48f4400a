/**
 Streams of samples cut into frames of one size and chunks of another.
 */
module AudioStreams {
  import opened Words

  type Sample = x: int | -128 <= x < 128

  /** s with w written at a position. */
  function Overwrite(s: seq<Sample>, at: nat, w: seq<Sample>): (r: seq<Sample>)
    requires at + |w| <= |s|
    ensures |r| == |s|
  {
    s[..at] + w + s[at + |w|..]
  }

  lemma OverwriteNothing(s: seq<Sample>, at: nat)
    requires at <= |s|
    ensures Overwrite(s, at, []) == s
  {
  }

  lemma OverwriteAppend(s: seq<Sample>, at: nat, v: seq<Sample>, w: seq<Sample>)
    requires at + |v| + |w| <= |s|
    ensures Overwrite(Overwrite(s, at, v), at + |v|, w) == Overwrite(s, at, v + w)
  {
  }

  lemma OverwriteFront(s: seq<Sample>, w: seq<Sample>, n: nat)
    requires n == |w| <= |s|
    ensures Overwrite(s, 0, w)[..n] == w && Overwrite(s, 0, w)[n..] == s[n..]
  {
  }

  lemma TailOfTail(s: seq<Sample>, m: nat, n: nat)
    requires m <= n <= |s|
    ensures s[n..] == s[m..][n - m..]
  {
  }

  lemma SliceOfSlice(s: seq<Sample>, from: nat, to: nat, n: nat)
    requires from + n <= to <= |s|
    ensures s[from..to][..n] == s[from..from + n] && s[from..to][n..] == s[from + n..to]
  {
  }

  lemma StreamGrows(s: seq<Sample>, origin: nat, w: seq<Sample>)
    requires origin <= |s|
    ensures (s + w)[origin..] == s[origin..] + w
  {
  }

  // ---------------------------------------------------------------- playout

  /**
   After a number of frames the stream consists of whole chunks, the frames are its first
   samples, and what is cached are the samples after them, less than a chunk.
   */
  predicate PlaysInOrder(
      stream: seq<Sample>, cached: seq<Sample>, frames: nat, frameSize: nat, chunks: nat, chunkSize: nat)
  {
    && |stream| == chunks * chunkSize && |cached| < chunkSize
    && frames * frameSize + |cached| == |stream| && cached == stream[frames * frameSize..]
  }

  /** The n-th frame of a stream. */
  predicate IsFrame(frame: seq<Sample>, stream: seq<Sample>, n: nat, size: nat) {
    var start := n * size;
    0 <= start && start + size <= |stream| && frame == stream[start..start + size]
  }

  lemma AppendFrame(played: seq<Sample>, frame: seq<Sample>, stream: seq<Sample>, n: nat, size: nat)
    requires |played| == n * size && played <= stream && IsFrame(frame, stream, n, size)
    ensures |played + frame| == (n + 1) * size && played + frame <= stream
  {
    Multiples(n, 1, size);
  }

  lemma GrowFrames(stream: seq<Sample>, frame: seq<Sample>, n: nat, size: nat)
    requires |stream| == n * size && |frame| == size
    ensures |stream + frame| == (n + 1) * size && IsFrame(frame, stream + frame, n, size)
  {
    Multiples(n, 1, size);
  }

  lemma KeepFrame(frame: seq<Sample>, stream: seq<Sample>, more: seq<Sample>, n: nat, size: nat)
    requires IsFrame(frame, stream, n, size)
    ensures IsFrame(frame, stream + more, n, size)
  {
  }

  lemma FreshStart(frameSize: nat, chunkSize: nat)
    requires chunkSize > 0
    ensures PlaysInOrder([], [], 0, frameSize, 0, chunkSize)
  {
  }

  lemma Multiples(n: nat, m: nat, size: nat)
    ensures (n + m) * size == n * size + m * size && n * size >= 0 && m * size >= 0
  {
  }

  /** A frame taken from the cache alone. */
  lemma FrameFromCache(
      stream: seq<Sample>, cached: seq<Sample>, frames: nat, frameSize: nat, chunks: nat, chunkSize: nat)
    requires PlaysInOrder(stream, cached, frames, frameSize, chunks, chunkSize) && frameSize <= |cached|
    ensures PlaysInOrder(stream, cached[frameSize..], frames + 1, frameSize, chunks, chunkSize)
    ensures IsFrame(cached[..frameSize], stream, frames, frameSize)
  {
    Multiples(frames, 1, frameSize);
  }

  /** A frame taken from the cache and new chunks. */
  lemma FrameFromChunks(
      stream: seq<Sample>, cached: seq<Sample>, pulled: seq<Sample>,
      frames: nat, frameSize: nat, chunks: nat, requests: nat, chunkSize: nat)
    requires PlaysInOrder(stream, cached, frames, frameSize, chunks, chunkSize)
    requires |pulled| == requests * chunkSize && frameSize <= |cached + pulled| < frameSize + chunkSize
    ensures PlaysInOrder(stream + pulled, (cached + pulled)[frameSize..], frames + 1, frameSize,
                         chunks + requests, chunkSize)
    ensures IsFrame((cached + pulled)[..frameSize], stream + pulled, frames, frameSize)
  {
    Multiples(frames, 1, frameSize);
    Multiples(chunks, requests, chunkSize);
    assert (stream + pulled)[frames * frameSize..] == cached + pulled;
  }

  /** How many requests a number of missing samples makes. */
  lemma RequestBounds(missing: nat, size: nat, i: nat)
    requires size > 0 && missing > 0
    ensures i < 1 + (missing - 1) / size ==> i * size < missing
    ensures i == 1 + (missing - 1) / size ==> missing <= i * size < missing + size
    ensures (i + 1) * size == i * size + size
  {
    var q := (missing - 1) / size;
    assert missing - 1 == q * size + (missing - 1) % size;
    if i <= q {
      Multiples(i, q - i, size);
    } else if i == q + 1 {
      Multiples(q, 1, size);
    }
  }

  // ---------------------------------------------------------------- requests

  /** What the device answers to a request. */
  datatype Answer = Nothing | Chunk(data: seq<Sample>)

  /** The end of a series of requests: whether all were met, the samples, and the answers still to come. */
  datatype Pull = Pull(ok: bool, samples: seq<Sample>, rest: seq<Answer>)

  /** A series of requests, broken off by the first one that is not met. */
  function PullAll(answers: seq<Answer>, n: nat): Pull {
    if n == 0 then Pull(true, [], answers)
    else if answers == [] then Pull(false, [], [])
    else if answers[0].Nothing? then Pull(false, [], answers[1..])
    else After(answers[0].data, PullAll(answers[1..], n - 1))
  }

  function After(samples: seq<Sample>, p: Pull): Pull {
    p.(samples := samples + p.samples)
  }

  /** A series succeeds exactly when its answers are all chunks. */
  lemma {:induction false} PullsChunks(answers: seq<Answer>, n: nat)
    ensures PullAll(answers, n).ok <==> n <= |answers| && forall i :: 0 <= i < n ==> answers[i].Chunk?
    ensures PullAll(answers, n).ok ==> PullAll(answers, n).rest == answers[n..]
  {
    if n > 0 && answers != [] && answers[0].Chunk? {
      PullsChunks(answers[1..], n - 1);
      assert forall i :: 0 < i < |answers| ==> answers[i] == answers[1..][i - 1];
      assert n - 1 <= |answers[1..]| ==> answers[1..][n - 1..] == answers[n..];
      if forall i :: 0 <= i < n - 1 && i < |answers[1..]| ==> answers[1..][i].Chunk? {
        assert forall i :: 0 < i < n && i < |answers| ==> answers[i].Chunk?;
      } else if n <= |answers| {
        var i :| 0 <= i < n - 1 && !answers[1..][i].Chunk?;
        assert !answers[i + 1].Chunk?;
      }
    }
  }

  /** One series after another. */
  lemma {:induction false} PullSplit(answers: seq<Answer>, m: nat, n: nat)
    ensures var first := PullAll(answers, m);
            PullAll(answers, m + n) == if first.ok then After(first.samples, PullAll(first.rest, n)) else first
  {
    if m == 0 {
      assert [] + PullAll(answers, n).samples == PullAll(answers, n).samples;
    } else if answers != [] && answers[0].Chunk? {
      PullSplit(answers[1..], m - 1, n);
      var first := PullAll(answers[1..], m - 1);
      if first.ok {
        assert answers[0].data + (first.samples + PullAll(first.rest, n).samples)
            == answers[0].data + first.samples + PullAll(first.rest, n).samples;
      }
    }
  }

  lemma PullNone(answers: seq<Answer>)
    ensures PullAll(answers, 0) == Pull(true, [], answers)
  {
  }

  /** The requests a frame makes when some samples are cached. */
  function Requests(frameSize: nat, cached: nat, chunkSize: nat): nat
    requires chunkSize > 0
  {
    if frameSize <= cached then 0 else 1 + (frameSize - cached - 1) / chunkSize
  }

  /** The chunks that hold a number of samples. */
  function ChunksFor(samples: nat, chunkSize: nat): nat
    requires chunkSize > 0
  {
    (samples + chunkSize - 1) / chunkSize
  }

  /** The next frame requests exactly the chunks that one more frame needs. */
  lemma RequestsAddUp(
      stream: seq<Sample>, cached: seq<Sample>, frames: nat, frameSize: nat, chunks: nat, chunkSize: nat)
    requires PlaysInOrder(stream, cached, frames, frameSize, chunks, chunkSize)
    ensures (frames + 1) * frameSize >= 0
    ensures chunks + Requests(frameSize, |cached|, chunkSize) == ChunksFor((frames + 1) * frameSize, chunkSize)
  {
    Multiples(frames, 1, frameSize);
    var k := Requests(frameSize, |cached|, chunkSize);
    Multiples(chunks, k, chunkSize);
    var samples := (frames + 1) * frameSize;
    if frameSize <= |cached| {
      DivModUnique(samples + chunkSize - 1, chunkSize, chunks, samples + chunkSize - 1 - chunks * chunkSize);
    } else {
      RequestBounds(frameSize - |cached|, chunkSize, k);
      DivModUnique(samples + chunkSize - 1, chunkSize, chunks + k, samples + chunkSize - 1 - (chunks + k) * chunkSize);
    }
  }

  lemma ChunksForMonotone(a: nat, b: nat, chunkSize: nat)
    requires a <= b && chunkSize > 0
    ensures ChunksFor(a, chunkSize) <= ChunksFor(b, chunkSize)
  {
    hide *;
    var x, y := a + chunkSize - 1, b + chunkSize - 1;
    QuotientBounds(x, chunkSize);
    QuotientBounds(y, chunkSize);
    QuotientsOrdered(x / chunkSize, y / chunkSize, chunkSize, x, y);
    ChunksForIs(a, chunkSize);
    ChunksForIs(b, chunkSize);
  }

  lemma ChunksForIs(samples: nat, chunkSize: nat)
    requires chunkSize > 0
    ensures ChunksFor(samples, chunkSize) == (samples + chunkSize - 1) / chunkSize
  {
  }

  lemma QuotientBounds(x: nat, d: nat)
    requires d > 0
    ensures x / d * d <= x < x / d * d + d
  {
  }

  lemma QuotientsOrdered(q: int, r: int, d: nat, x: int, y: int)
    requires d > 0 && q * d <= x <= y < r * d + d
    ensures q <= r
  {
    MultipleBounds(q - r, d);
    assert (q - r) * d == q * d - r * d;
  }

  /** Before the first frame nothing is pulled. */
  lemma StartsEmpty(stream: seq<Sample>, cached: seq<Sample>, frameSize: nat, chunks: nat, chunkSize: nat)
    requires PlaysInOrder(stream, cached, 0, frameSize, chunks, chunkSize)
    ensures chunks == 0 && stream == [] && 0 * frameSize == 0 && ChunksFor(0, chunkSize) == 0
  {
    MultipleBounds(chunks, chunkSize);
    DivModUnique(chunkSize - 1, chunkSize, 0, chunkSize - 1);
  }

  /** A device that fails some frames fails more frames. */
  lemma BreaksOff(answers: seq<Answer>, m: nat, n: nat, frameSize: nat, chunkSize: nat)
    requires m <= n && chunkSize > 0 && m * frameSize >= 0
    requires !PullAll(answers, ChunksFor(m * frameSize, chunkSize)).ok
    ensures n * frameSize >= 0 && !PullAll(answers, ChunksFor(n * frameSize, chunkSize)).ok
  {
    Multiples(m, n - m, frameSize);
    ChunksForMonotone(m * frameSize, n * frameSize, chunkSize);
    var k := ChunksFor(m * frameSize, chunkSize);
    PullSplit(answers, k, ChunksFor(n * frameSize, chunkSize) - k);
  }

  // ---------------------------------------------------------------- recording

  /** Samples written after a slice extend it. */
  lemma OverwriteSlice(s: seq<Sample>, from: nat, to: nat, w: seq<Sample>)
    requires from <= to && to + |w| <= |s|
    ensures Overwrite(s, to, w)[from..to + |w|] == s[from..to] + w
  {
  }

  /** What was delivered since the origin is whole chunks, and with what is cached makes up the recording. */
  predicate RecordsInOrder(
      delivered: seq<Sample>, origin: nat, cached: seq<Sample>, recorded: seq<Sample>, chunks: nat, chunkSize: nat)
  {
    origin <= |delivered| && |delivered| - origin == chunks * chunkSize && delivered[origin..] + cached == recorded
  }

  lemma RecordMore(
      delivered: seq<Sample>, origin: nat, cached: seq<Sample>, frame: seq<Sample>,
      recorded: seq<Sample>, chunks: nat, chunkSize: nat)
    requires RecordsInOrder(delivered, origin, cached, recorded, chunks, chunkSize)
    ensures RecordsInOrder(delivered, origin, cached + frame, recorded + frame, chunks, chunkSize)
  {
    assert delivered[origin..] + (cached + frame) == delivered[origin..] + cached + frame;
  }

  lemma DeliverOne(
      delivered: seq<Sample>, origin: nat, cached: seq<Sample>, recorded: seq<Sample>, chunks: nat, chunkSize: nat)
    requires RecordsInOrder(delivered, origin, cached, recorded, chunks, chunkSize) && chunkSize <= |cached|
    ensures RecordsInOrder(
              delivered + cached[..chunkSize], origin, cached[chunkSize..], recorded, chunks + 1, chunkSize)
  {
    Multiples(chunks, 1, chunkSize);
    assert (delivered + cached[..chunkSize])[origin..] == delivered[origin..] + cached[..chunkSize];
    assert delivered[origin..] + cached[..chunkSize] + cached[chunkSize..] == delivered[origin..] + cached;
  }

  /** What was delivered is the longest prefix of the recording that consists of whole chunks. */
  lemma ChunksDelivered(
      delivered: seq<Sample>, origin: nat, cached: seq<Sample>, recorded: seq<Sample>, chunks: nat, chunkSize: nat)
    requires RecordsInOrder(delivered, origin, cached, recorded, chunks, chunkSize) && |cached| < chunkSize
    ensures origin <= |delivered| && chunks == |recorded| / chunkSize && 0 <= chunks * chunkSize <= |recorded|
    ensures delivered[origin..] == recorded[..chunks * chunkSize]
  {
    DivModUnique(|recorded|, chunkSize, chunks, |cached|);
  }
}
