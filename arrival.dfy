/**
  A frame arriving in pieces.  The serial link delivers a frame's bytes in
  arbitrary chunks, and `loop()` runs once after each chunk has arrived.
  Whatever the split, the decoder ends where it ends when the whole frame
  was waiting at once: the frame is published exactly once, and the
  decoder goes back to OFF with the bytes after the frame still waiting.

  The proofs here work from the facts of the small lemmas they call and
  `hide` the definitions they do not need to open (`hide *` hides them
  all): unfolding `LoopStep`, `ReadFrom`, `Feed` or `Stream` again at every
  step makes each proof many times more expensive.
 */
module Arrival {
  import opened Wire
  import opened Listeners
  import opened Groups
  import opened Machine

  /** The bytes of all chunks, in order. */
  function Joined(chunks: seq<seq<byte>>): seq<byte>
  {
    if chunks == [] then [] else chunks[0] + Joined(chunks[1..])
  }

  /**
    The chunks arrive on the link one after another, each followed by one
    `loop()` call.  The second component is the listener calls made.
   */
  function Feed(d: Decoder, listeners: seq<Listener>, chunks: seq<seq<byte>>): (r: (Decoder, seq<Event>))
    requires Bounded(d)
    decreases |chunks|
    ensures Bounded(r.0)
  {
    if chunks == [] then (d, [])
    else
      var (d1, ev1) := LoopStep(d.(rx := d.rx + chunks[0]), listeners);
      var (d2, ev2) := Feed(d1, listeners, chunks[1..]);
      (d2, ev1 + ev2)
  }

  /** The bytes sent on the link: noise, the start byte, the body, the end byte, then whatever follows. */
  function Stream(noise: seq<byte>, body: seq<byte>, more: seq<byte>): seq<byte>
  {
    noise + [START_FRAME] + body + [END_FRAME] + more
  }

  /** A frame the decoder can take in: noise without start byte, a body without end byte that fits the buffer. */
  predicate Receivable(noise: seq<byte>, body: seq<byte>)
  {
    START_FRAME !in noise && END_FRAME !in body && |body| <= MAX_BUF_SIZE - 1
  }

  /** Where the decoder stands once it has taken the first `p` bytes of the stream. */
  predicate StandsAt(st: State, frame: seq<byte>, noise: seq<byte>, body: seq<byte>, p: nat)
  {
    match st
    case On => p <= |noise| && frame == []
    case StartFrameReceived => |noise| < p <= |noise| + 1 + |body| && frame == body[.. p - |noise| - 1]
    case _ => p == |noise| + |body| + 2 && frame == body
  }

  /**
    The decoder follows the stream: of its first `q` bytes, those still
    waiting on the link are the last ones, and the decoder stands where
    taking the others leaves it.
   */
  predicate Tracks(d: Decoder, noise: seq<byte>, body: seq<byte>, more: seq<byte>, q: nat)
  {
    var s := Stream(noise, body, more);
    && Bounded(d) && |d.rx| <= q <= |s|
    && d.rx == s[q - |d.rx| .. q]
    && StandsAt(d.state, d.frame, noise, body, q - |d.rx|)
  }

  /**
    How many more `loop()` calls the decoder needs, once the whole stream
    has arrived, to publish the frame and reach OFF from the state `st`
    after taking `p` bytes: one per full quota of noise or body left, one
    each for the start byte, the end byte and the walk.
   */
  function Pending(st: State, noise: seq<byte>, body: seq<byte>, p: int): nat
  {
    match st
    case On => (if p <= |noise| then (|noise| - p) / READ_QUOTA else 0) + |body| / READ_QUOTA + 3
    case StartFrameReceived => (if p <= |noise| + 1 + |body| then (|noise| + 1 + |body| - p) / READ_QUOTA else 0) + 2
    case EndFrameReceived => 1
    case Off => 0
  }

  /** The listener calls made so far in the state `st`: the frame's, once it is back in OFF. */
  function Published(st: State, listeners: seq<Listener>, body: seq<byte>): seq<Event>
  {
    if st == Off then DispatchAll(listeners, Walk(body, 0)) else []
  }

  /**
    One `loop()` call takes the decoder from `d` to `d'` along the stream,
    of which the first `q` bytes have arrived: `d'` stays on it, and is no
    further from OFF; nearer, once the whole stream has arrived and `d` is
    not yet in OFF.
   */
  predicate Advances(d: Decoder, d': Decoder, noise: seq<byte>, body: seq<byte>, more: seq<byte>, q: nat)
  {
    && Tracks(d', noise, body, more, q)
    && Pending(d'.state, noise, body, q - |d'.rx|) <= Pending(d.state, noise, body, q - |d.rx|)
    && (q == |Stream(noise, body, more)| && d.state != Off ==>
          Pending(d'.state, noise, body, q - |d'.rx|) < Pending(d.state, noise, body, q - |d.rx|))
  }

  /** What a decoder on the stream holds in ON: no frame yet, and the waiting bytes come from the noise or the start byte on. */
  lemma OnAt(d: Decoder, noise: seq<byte>, body: seq<byte>, more: seq<byte>, q: nat)
    requires Tracks(d, noise, body, more, q) && d.state == On
    ensures var p := q - |d.rx|;
      && Bounded(d) && p + |d.rx| == q <= |Stream(noise, body, more)|
      && d.rx == Stream(noise, body, more)[p .. q]
      && p <= |noise| && d.frame == []
  {
  }

  /** What a decoder on the stream holds in START_FRAME_RECEIVED: the body read so far. */
  lemma StartAt(d: Decoder, noise: seq<byte>, body: seq<byte>, more: seq<byte>, q: nat)
    requires Tracks(d, noise, body, more, q) && d.state == StartFrameReceived
    ensures var p := q - |d.rx|;
      && Bounded(d) && p + |d.rx| == q <= |Stream(noise, body, more)|
      && d.rx == Stream(noise, body, more)[p .. q]
      && |noise| < p <= |noise| + 1 + |body| && d.frame == body[.. p - |noise| - 1]
  {
  }

  /** A decoder on the stream keeps its buffer within bounds. */
  lemma TracksBounded(d: Decoder, noise: seq<byte>, body: seq<byte>, more: seq<byte>, q: nat)
    requires Tracks(d, noise, body, more, q)
    ensures Bounded(d)
  {
  }

  /** Where the parts of the frame sit in the stream. */
  lemma StreamParts(noise: seq<byte>, body: seq<byte>, more: seq<byte>)
    ensures var s := Stream(noise, body, more);
      && |s| == |noise| + |body| + 2 + |more|
      && s[|noise|] == START_FRAME && s[|noise| + 1 + |body|] == END_FRAME
      && (forall k :: 0 <= k < |noise| ==> s[k] == noise[k])
      && (forall k :: 0 <= k < |body| ==> s[|noise| + 1 + k] == body[k])
      && s[|noise| + |body| + 2 ..] == more
  {
    var s := Stream(noise, body, more);
    assert s == noise + ([START_FRAME] + body + [END_FRAME] + more);
    assert s[|noise| + |body| + 2 ..] == more;
  }
  /** The start byte ends the noise: it does not occur before its place. */
  lemma StartMarker(noise: seq<byte>, body: seq<byte>, more: seq<byte>)
    requires Receivable(noise, body)
    ensures var s := Stream(noise, body, more);
      && |noise| < |s| && s[|noise|] == START_FRAME
      && (forall k :: 0 <= k < |noise| ==> s[k] != START_FRAME)
  {
    var s := Stream(noise, body, more);
    StreamParts(noise, body, more);
    forall k | 0 <= k < |noise|
      ensures s[k] != START_FRAME
    {
      assert s[k] == noise[k];
    }
  }

  /** The end byte ends the body: it does not occur in the body. */
  lemma EndMarker(noise: seq<byte>, body: seq<byte>, more: seq<byte>)
    requires Receivable(noise, body)
    ensures var s := Stream(noise, body, more);
      && |noise| + 1 + |body| < |s| && s[|noise| + 1 + |body|] == END_FRAME
      && (forall k :: |noise| < k < |noise| + 1 + |body| ==> s[k] != END_FRAME)
  {
    var s := Stream(noise, body, more);
    StreamParts(noise, body, more);
    forall k | |noise| < k < |noise| + 1 + |body|
      ensures s[k] != END_FRAME
    {
      assert s[k] == body[k - |noise| - 1];
    }
  }

  /**
    A `read_chars_until_` call on the bytes `s[p..q]`, where the first
    target byte from `p` on sits at `m`, finds the target exactly by taking
    the bytes up to and including position `m`, and otherwise stops before
    `m`.
   */
  lemma ScanStops(drop: bool, c: byte, frame: seq<byte>, s: seq<byte>, p: nat, q: nat, m: nat)
    requires p <= q <= |s| && p <= m < |s| && s[m] == c
    requires forall k :: p <= k < m ==> s[k] != c
    requires |frame| <= MAX_BUF_SIZE - 1
    ensures var o := ReadUntil(drop, c, frame, s[p .. q]);
      && (o.found ==> p + o.taken == m + 1)
      && (!o.found ==> p + o.taken <= m)
  {
    var rx := s[p .. q];
    var o := ReadUntil(drop, c, frame, rx);
    assert o == ReadFrom(drop, c, frame, rx, 0, READ_QUOTA);
    hide ReadUntil, ReadFrom;
    ReadFromFound(drop, c, frame, rx, 0, READ_QUOTA);
    assert 0 < o.taken ==> rx[o.taken - 1] == s[p + o.taken - 1];
    assert m - p < o.taken ==> rx[m - p] == c;
  }
  /**
    In drop mode, looking for the start byte at `m`: the call keeps the
    frame buffer, takes the bytes up to and including the start byte when
    it finds it, and otherwise stops before it, having used its whole quota
    when every byte up to the start byte was waiting.
   */
  lemma SkipOutcome(frame: seq<byte>, s: seq<byte>, p: nat, q: nat, m: nat)
    requires p <= q <= |s| && p <= m < |s| && s[m] == START_FRAME
    requires forall k :: p <= k < m ==> s[k] != START_FRAME
    requires |frame| <= MAX_BUF_SIZE - 1
    ensures var o := ReadUntil(true, START_FRAME, frame, s[p .. q]);
      && !o.full && o.frame == frame && o.taken <= q - p
      && (o.found ==> p + o.taken == m + 1)
      && (!o.found ==> p + o.taken <= m && (q == |s| ==> o.taken == READ_QUOTA))
  {
    ScanStops(true, START_FRAME, frame, s, p, q, m);
  }
  /**
    In keep mode, looking for the end byte at `m` with room in the buffer
    for every byte before it: the call never fills the buffer, takes the
    bytes up to and including the end byte when it finds it, and otherwise
    stops before it, having used its whole quota when every byte up to the
    end byte was waiting.
   */
  lemma CollectStops(frame: seq<byte>, s: seq<byte>, p: nat, q: nat, m: nat)
    requires p <= q <= |s| && p <= m < |s| && s[m] == END_FRAME
    requires forall k :: p <= k < m ==> s[k] != END_FRAME
    requires |frame| + (m - p) <= MAX_BUF_SIZE - 1
    ensures var o := ReadUntil(false, END_FRAME, frame, s[p .. q]);
      && !o.full && o.taken <= q - p
      && (o.found ==> p + o.taken == m + 1)
      && (!o.found ==> p + o.taken <= m && (q == |s| ==> o.taken == READ_QUOTA))
  {
    var rx := s[p .. q];
    var o := ReadUntil(false, END_FRAME, frame, rx);
    assert o == ReadFrom(false, END_FRAME, frame, rx, 0, READ_QUOTA);
    hide ReadUntil, ReadFrom;
    ScanStops(false, END_FRAME, frame, s, p, q, m);
    ReadFromKeeps(END_FRAME, frame, rx, 0, READ_QUOTA);
    var kept := o.taken - (if o.found || o.full then 1 else 0);
    assert |o.frame| == |frame| + kept;
  }

  /** In the same call, the buffer receives the bytes taken, except the end byte. */
  lemma CollectKeeps(frame: seq<byte>, s: seq<byte>, p: nat, q: nat, m: nat)
    requires p <= q <= |s| && p <= m < |s| && s[m] == END_FRAME
    requires forall k :: p <= k < m ==> s[k] != END_FRAME
    requires |frame| + (m - p) <= MAX_BUF_SIZE - 1
    ensures var o := ReadUntil(false, END_FRAME, frame, s[p .. q]);
      && (o.found ==> p + o.taken == m + 1 && o.frame == frame + s[p .. m])
      && (!o.found ==> p + o.taken <= m && o.frame == frame + s[p .. p + o.taken])
  {
    var rx := s[p .. q];
    var o := ReadUntil(false, END_FRAME, frame, rx);
    assert o == ReadFrom(false, END_FRAME, frame, rx, 0, READ_QUOTA);
    CollectStops(frame, s, p, q, m);
    hide ReadUntil, ReadFrom;
    ReadFromKeeps(END_FRAME, frame, rx, 0, READ_QUOTA);
    var kept := o.taken - (if o.found then 1 else 0);
    assert rx[0 .. kept] == s[p .. p + kept];
  }
  /** Collecting `t` body bytes from position `p` of the stream extends the collected prefix of the body. */
  lemma BodyGrows(noise: seq<byte>, body: seq<byte>, more: seq<byte>, frame: seq<byte>, p: nat, t: nat)
    requires |noise| < p && p + t <= |noise| + 1 + |body| && frame == body[.. p - |noise| - 1]
    ensures frame + Stream(noise, body, more)[p .. p + t] == body[.. p + t - |noise| - 1]
  {
    var s := Stream(noise, body, more);
    var a := |noise| + 1;
    var j := p - a;
    assert s == (noise + [START_FRAME]) + body + ([END_FRAME] + more);
    hide Stream;
    assert s[a .. a + |body|] == body;
    assert s[p .. p + t] == s[a .. a + |body|][j .. j + t];
    assert body[.. j] + body[j .. j + t] == body[.. j + t];
  }
  /** Collecting the rest of the body from position `p` of the stream completes the body. */
  lemma BodyAll(noise: seq<byte>, body: seq<byte>, more: seq<byte>, frame: seq<byte>, p: nat)
    requires |noise| < p <= |noise| + 1 + |body| && frame == body[.. p - |noise| - 1]
    ensures frame + Stream(noise, body, more)[p .. |noise| + 1 + |body|] == body
  {
    BodyGrows(noise, body, more, frame, p, |noise| + 1 + |body| - p);
    assert body[.. |body|] == body;
  }

  /** In ON, skipping `t` bytes of noise gets the decoder no further from OFF, and nearer when a whole quota is taken. */
  lemma NoiseNearer(noise: seq<byte>, body: seq<byte>, p: nat, t: nat)
    requires p + t <= |noise|
    ensures Pending(On, noise, body, p + t) <= Pending(On, noise, body, p)
    ensures t == READ_QUOTA ==> Pending(On, noise, body, p + t) < Pending(On, noise, body, p)
  {
    FewerQuotas(|noise| - p, |noise| - p - t);
    if t == READ_QUOTA {
      QuotaStep(|noise| - p);
    }
  }

  /** In START_FRAME_RECEIVED, collecting `t` bytes gets the decoder no further from OFF, and nearer when a whole quota is taken. */
  lemma BodyNearer(noise: seq<byte>, body: seq<byte>, p: nat, t: nat)
    requires |noise| < p && p + t <= |noise| + 1 + |body|
    ensures Pending(StartFrameReceived, noise, body, p + t) <= Pending(StartFrameReceived, noise, body, p)
    ensures t == READ_QUOTA ==> Pending(StartFrameReceived, noise, body, p + t) < Pending(StartFrameReceived, noise, body, p)
  {
    var m := |noise| + 1 + |body|;
    FewerQuotas(m - p, m - p - t);
    if t == READ_QUOTA {
      QuotaStep(m - p);
    }
  }

  /** Taking fewer bytes leaves no more whole quotas. */
  lemma FewerQuotas(x: nat, y: nat)
    requires y <= x
    ensures y / READ_QUOTA <= x / READ_QUOTA
  {
  }
  /** The bytes a call leaves on the link are the rest of the stream's arrived part. */
  lemma LeftWaiting(s: seq<byte>, p: nat, q: nat, t: nat)
    requires p + t <= q <= |s|
    ensures s[p .. q][t ..] == s[p + t .. q]
  {
  }
  /** In ON, one `loop()` call skips bytes looking for the start byte. */
  lemma OnStep(d: Decoder, listeners: seq<Listener>)
    requires Bounded(d) && d.state == On
    ensures var o := ReadUntil(true, START_FRAME, d.frame, d.rx);
      LoopStep(d, listeners) == (Decoder(if o.found then StartFrameReceived else On, d.frame, d.rx[o.taken ..]), [])
  {
  }
  /** In START_FRAME_RECEIVED, one `loop()` call collects bytes looking for the end byte. */
  lemma StartStep(d: Decoder, listeners: seq<Listener>)
    requires Bounded(d) && d.state == StartFrameReceived
    ensures var o := ReadUntil(false, END_FRAME, d.frame, d.rx);
      LoopStep(d, listeners)
        == (Decoder(if o.found then EndFrameReceived else if o.full then Off else StartFrameReceived, o.frame, d.rx[o.taken ..]), [])
  {
  }
  /**
    Skipping from position `p` of the noise: the frame buffer is left
    alone, the start byte is taken exactly when the call reaches it, and
    otherwise the call uses its whole quota when all has arrived.
   */
  lemma SkipNoise(noise: seq<byte>, body: seq<byte>, more: seq<byte>, p: nat, q: nat, frame: seq<byte>, rx: seq<byte>)
    requires Receivable(noise, body) && |frame| <= MAX_BUF_SIZE - 1
    requires p <= |noise| && p <= q <= |Stream(noise, body, more)| && rx == Stream(noise, body, more)[p .. q]
    ensures var o := ReadUntil(true, START_FRAME, frame, rx);
      && o.frame == frame && p + o.taken <= q
      && (o.found ==> p + o.taken == |noise| + 1)
      && (!o.found ==> p + o.taken <= |noise| && (q == |Stream(noise, body, more)| ==> o.taken == READ_QUOTA))
  {
    var s := Stream(noise, body, more);
    var o := ReadUntil(true, START_FRAME, frame, rx);
    hide ReadUntil, ReadFrom, Stream;
    StartMarker(noise, body, more);
    SkipOutcome(frame, s, p, q, |noise|);
  }

  /** Skipping that takes the start byte leaves the decoder on the stream, in START_FRAME_RECEIVED with an empty buffer. */
  lemma SkipEnd(d: Decoder, d': Decoder, noise: seq<byte>, body: seq<byte>, more: seq<byte>, q: nat, t: nat)
    requires Tracks(d, noise, body, more, q) && d.state == On
    requires t <= |d.rx| && q - |d.rx| + t == |noise| + 1
    requires d'.state == StartFrameReceived && d'.frame == [] && d'.rx == d.rx[t ..]
    ensures Advances(d, d', noise, body, more, q)
  {
    var p := q - |d.rx|;
    LeftWaiting(Stream(noise, body, more), p, q, t);
    hide Stream;
    assert q - |d'.rx| == p + t;
  }

  /** Skipping that has not reached the start byte leaves the decoder on the stream, in ON. */
  lemma SkipMore(d: Decoder, d': Decoder, noise: seq<byte>, body: seq<byte>, more: seq<byte>, q: nat, t: nat)
    requires Tracks(d, noise, body, more, q) && d.state == On
    requires t <= |d.rx| && q - |d.rx| + t <= |noise|
    requires q == |Stream(noise, body, more)| ==> t == READ_QUOTA
    requires d'.state == On && d'.frame == [] && d'.rx == d.rx[t ..]
    ensures Advances(d, d', noise, body, more, q)
  {
    var p := q - |d.rx|;
    LeftWaiting(Stream(noise, body, more), p, q, t);
    NoiseNearer(noise, body, p, t);
    hide Stream, Pending;
    assert q - |d'.rx| == p + t;
  }

  /** In ON, one `loop()` call keeps the decoder on the stream, and gets it nearer to OFF once all has arrived. */
  lemma TrackOn(d: Decoder, listeners: seq<Listener>, noise: seq<byte>, body: seq<byte>, more: seq<byte>, q: nat)
    requires Receivable(noise, body) && Tracks(d, noise, body, more, q) && d.state == On
    ensures var r := LoopStep(d, listeners);
      Advances(d, r.0, noise, body, more, q) && r.0.state != Off && r.1 == []
  {
    var p := q - |d.rx|;
    var o := ReadUntil(true, START_FRAME, d.frame, d.rx);
    hide *;
    OnAt(d, noise, body, more, q);
    OnStep(d, listeners);
    SkipNoise(noise, body, more, p, q, d.frame, d.rx);
    if o.found {
      SkipEnd(d, LoopStep(d, listeners).0, noise, body, more, q, o.taken);
    } else {
      SkipMore(d, LoopStep(d, listeners).0, noise, body, more, q, o.taken);
    }
  }

  /**
    Collecting from position `p` of the body, with the body read so far in
    the buffer: the buffer never fills, the end byte is taken exactly when
    the call reaches it, and otherwise the call uses its whole quota when
    all has arrived.
   */
  lemma CollectBody(noise: seq<byte>, body: seq<byte>, more: seq<byte>, p: nat, q: nat, frame: seq<byte>, rx: seq<byte>)
    requires Receivable(noise, body)
    requires |noise| < p <= |noise| + 1 + |body| && p <= q <= |Stream(noise, body, more)|
    requires frame == body[.. p - |noise| - 1] && rx == Stream(noise, body, more)[p .. q]
    ensures var o := ReadUntil(false, END_FRAME, frame, rx);
      && !o.full && p + o.taken <= q
      && (o.found ==> p + o.taken == |noise| + |body| + 2)
      && (!o.found ==> p + o.taken <= |noise| + 1 + |body| && (q == |Stream(noise, body, more)| ==> o.taken == READ_QUOTA))
  {
    var s := Stream(noise, body, more);
    var m := |noise| + 1 + |body|;
    assert |frame| + (m - p) <= MAX_BUF_SIZE - 1;
    hide *;
    EndMarker(noise, body, more);
    CollectStops(frame, s, p, q, m);
  }

  /** In the same call, the buffer receives the body bytes taken: the whole body once the end byte is taken. */
  lemma CollectFrame(noise: seq<byte>, body: seq<byte>, more: seq<byte>, p: nat, q: nat, frame: seq<byte>, rx: seq<byte>)
    requires Receivable(noise, body)
    requires |noise| < p <= |noise| + 1 + |body| && p <= q <= |Stream(noise, body, more)|
    requires frame == body[.. p - |noise| - 1] && rx == Stream(noise, body, more)[p .. q]
    ensures var o := ReadUntil(false, END_FRAME, frame, rx);
      && (o.found ==> o.frame == body)
      && (!o.found ==> p + o.taken <= |noise| + 1 + |body| && o.frame == body[.. p + o.taken - |noise| - 1])
  {
    var s := Stream(noise, body, more);
    var m := |noise| + 1 + |body|;
    var o := ReadUntil(false, END_FRAME, frame, rx);
    assert |frame| + (m - p) <= MAX_BUF_SIZE - 1;
    hide *;
    EndMarker(noise, body, more);
    CollectKeeps(frame, s, p, q, m);
    if o.found {
      BodyAll(noise, body, more, frame, p);
    } else {
      BodyGrows(noise, body, more, frame, p, o.taken);
    }
  }

  /** Collecting that takes the end byte leaves the decoder on the stream, in END_FRAME_RECEIVED with the whole body. */
  lemma CollectEnd(d: Decoder, d': Decoder, noise: seq<byte>, body: seq<byte>, more: seq<byte>, q: nat, t: nat)
    requires Receivable(noise, body) && Tracks(d, noise, body, more, q) && d.state == StartFrameReceived
    requires t <= |d.rx| && q - |d.rx| + t == |noise| + |body| + 2
    requires d'.state == EndFrameReceived && d'.frame == body && d'.rx == d.rx[t ..]
    ensures Advances(d, d', noise, body, more, q)
  {
    var p := q - |d.rx|;
    LeftWaiting(Stream(noise, body, more), p, q, t);
    hide Stream;
    assert q - |d'.rx| == p + t;
  }

  /** Collecting that has not reached the end byte leaves the decoder on the stream, in START_FRAME_RECEIVED. */
  lemma CollectMore(d: Decoder, d': Decoder, noise: seq<byte>, body: seq<byte>, more: seq<byte>, q: nat, t: nat)
    requires Receivable(noise, body) && Tracks(d, noise, body, more, q) && d.state == StartFrameReceived
    requires t <= |d.rx| && q - |d.rx| + t <= |noise| + 1 + |body|
    requires q == |Stream(noise, body, more)| ==> t == READ_QUOTA
    requires d'.state == StartFrameReceived && d'.frame == body[.. q - |d.rx| + t - |noise| - 1]
    requires d'.rx == d.rx[t ..]
    ensures Advances(d, d', noise, body, more, q)
  {
    var p := q - |d.rx|;
    LeftWaiting(Stream(noise, body, more), p, q, t);
    BodyNearer(noise, body, p, t);
    hide Stream, Pending;
    assert q - |d'.rx| == p + t;
  }

  /**
    In START_FRAME_RECEIVED, one `loop()` call keeps the decoder on the
    stream (a body that fits never fills the buffer), and gets it nearer to
    OFF once all has arrived.
   */
  lemma TrackStart(d: Decoder, listeners: seq<Listener>, noise: seq<byte>, body: seq<byte>, more: seq<byte>, q: nat)
    requires Receivable(noise, body) && Tracks(d, noise, body, more, q) && d.state == StartFrameReceived
    ensures var r := LoopStep(d, listeners);
      Advances(d, r.0, noise, body, more, q) && r.0.state != Off && r.1 == []
  {
    var p := q - |d.rx|;
    var o := ReadUntil(false, END_FRAME, d.frame, d.rx);
    hide *;
    StartAt(d, noise, body, more, q);
    StartStep(d, listeners);
    CollectBody(noise, body, more, p, q, d.frame, d.rx);
    CollectFrame(noise, body, more, p, q, d.frame, d.rx);
    if o.found {
      CollectEnd(d, LoopStep(d, listeners).0, noise, body, more, q, o.taken);
    } else {
      CollectMore(d, LoopStep(d, listeners).0, noise, body, more, q, o.taken);
    }
  }

  /** In OFF, a `loop()` call leaves the decoder where it is. */
  lemma StayOff(d: Decoder, listeners: seq<Listener>, noise: seq<byte>, body: seq<byte>, more: seq<byte>, q: nat)
    requires Tracks(d, noise, body, more, q) && d.state == Off
    ensures var r := LoopStep(d, listeners);
      Advances(d, r.0, noise, body, more, q) && r.0.state == Off && r.1 == []
  {
    OffIsIdle(d, listeners);
  }

  /** In END_FRAME_RECEIVED, a `loop()` call publishes the body and takes the decoder to OFF at the same place. */
  lemma TrackEnd(d: Decoder, listeners: seq<Listener>, noise: seq<byte>, body: seq<byte>, more: seq<byte>, q: nat)
    requires Tracks(d, noise, body, more, q) && d.state == EndFrameReceived
    ensures var r := LoopStep(d, listeners);
      Advances(d, r.0, noise, body, more, q) && r.0.state == Off && r.1 == DispatchAll(listeners, Walk(body, 0))
  {
    PublishFrame(d, listeners);
  }

  /**
    One `loop()` call keeps the decoder on the stream, publishes the frame
    exactly when it leaves END_FRAME_RECEIVED, and never moves it away from
    OFF; once the whole stream has arrived, each call before OFF gets it
    nearer.
   */
  lemma TrackStep(d: Decoder, listeners: seq<Listener>, noise: seq<byte>, body: seq<byte>, more: seq<byte>, q: nat)
    requires Receivable(noise, body) && Tracks(d, noise, body, more, q)
    ensures var r := LoopStep(d, listeners);
      && Advances(d, r.0, noise, body, more, q)
      && Published(d.state, listeners, body) + r.1 == Published(r.0.state, listeners, body)
  {
    var events := DispatchAll(listeners, Walk(body, 0));
    hide LoopStep, ReadUntil, ReadFrom, Walk, DispatchAll, Stream, Tracks, Advances;
    match d.state
    case Off =>
      StayOff(d, listeners, noise, body, more, q);
      assert events + [] == events;
    case On =>
      TrackOn(d, listeners, noise, body, more, q);
    case StartFrameReceived =>
      TrackStart(d, listeners, noise, body, more, q);
    case EndFrameReceived =>
      TrackEnd(d, listeners, noise, body, more, q);
      assert [] + events == events;
  }

  /** Bytes that continue the stream, arriving on the link, keep the decoder on it, at the same position. */
  lemma ReceiveChunk(d: Decoder, noise: seq<byte>, body: seq<byte>, more: seq<byte>, q: nat, c: seq<byte>)
    requires Tracks(d, noise, body, more, q)
    requires q + |c| <= |Stream(noise, body, more)| && Stream(noise, body, more)[q .. q + |c|] == c
    ensures Tracks(d.(rx := d.rx + c), noise, body, more, q + |c|)
    ensures q + |c| - |d.rx + c| == q - |d.rx|
  {
    var s := Stream(noise, body, more);
    hide Stream;
    assert d.rx + c == s[q - |d.rx| .. q + |c|];
  }

  /** The stream's part that the first chunk and the rest of the chunks cover. */
  lemma JoinedSplit(s: seq<byte>, q: nat, chunks: seq<seq<byte>>)
    requires chunks != [] && q + |Joined(chunks)| <= |s| && s[q .. q + |Joined(chunks)|] == Joined(chunks)
    ensures var q0 := q + |chunks[0]|;
      && q0 + |Joined(chunks[1..])| == q + |Joined(chunks)|
      && s[q .. q0] == chunks[0]
      && s[q0 .. q0 + |Joined(chunks[1..])|] == Joined(chunks[1..])
  {
    var c := chunks[0];
    var rest := Joined(chunks[1..]);
    assert Joined(chunks) == c + rest;
    hide Joined;
    var q0 := q + |c|;
    var w := s[q .. q0 + |rest|];
    assert s[q .. q0] == w[.. |c|] == c;
    assert s[q0 .. q0 + |rest|] == w[|c| ..] == rest;
  }

  /** The first chunk arrives and one `loop()` call follows; then the rest of the chunks. */
  lemma FeedUnfold(d: Decoder, listeners: seq<Listener>, chunks: seq<seq<byte>>)
    requires Bounded(d) && chunks != []
    ensures var s := LoopStep(d.(rx := d.rx + chunks[0]), listeners);
      var rest := Feed(s.0, listeners, chunks[1..]);
      Feed(d, listeners, chunks) == (rest.0, s.1 + rest.1)
  {
  }

  /** A chunk that continues the stream arrives and one `loop()` call follows: the decoder stays on the stream. */
  lemma FeedFirst(d: Decoder, listeners: seq<Listener>, noise: seq<byte>, body: seq<byte>, more: seq<byte>,
                  q: nat, c: seq<byte>)
    requires Receivable(noise, body) && Tracks(d, noise, body, more, q)
    requires q + |c| <= |Stream(noise, body, more)| && Stream(noise, body, more)[q .. q + |c|] == c
    ensures Bounded(d.(rx := d.rx + c))
    ensures var r := LoopStep(d.(rx := d.rx + c), listeners);
      && Bounded(r.0) && Tracks(r.0, noise, body, more, q + |c|)
      && Published(d.state, listeners, body) + r.1 == Published(r.0.state, listeners, body)
      && Pending(r.0.state, noise, body, q + |c| - |r.0.rx|) <= Pending(d.state, noise, body, q - |d.rx|)
  {
    hide LoopStep, Feed, Joined, ReadUntil, ReadFrom, Walk, DispatchAll, Stream;
    ReceiveChunk(d, noise, body, more, q, c);
    TrackStep(d.(rx := d.rx + c), listeners, noise, body, more, q + |c|);
  }


  /** A decoder on the stream has a frame that fits, and no chunks leave it as it is. */
  lemma FeedNone(d: Decoder, listeners: seq<Listener>, noise: seq<byte>, body: seq<byte>, more: seq<byte>, q: nat)
    requires Tracks(d, noise, body, more, q)
    ensures Bounded(d) && Feed(d, listeners, []) == (d, []) && Joined([]) == []
  {
  }

  /** Chunks that continue the stream keep the decoder on it, whatever their sizes. */
  lemma {:induction false} FeedTracks(d: Decoder, listeners: seq<Listener>, noise: seq<byte>, body: seq<byte>, more: seq<byte>,
                                       q: nat, chunks: seq<seq<byte>>)
    requires Receivable(noise, body) && Tracks(d, noise, body, more, q)
    requires q + |Joined(chunks)| <= |Stream(noise, body, more)|
    requires Stream(noise, body, more)[q .. q + |Joined(chunks)|] == Joined(chunks)
    ensures var r := Feed(d, listeners, chunks);
      var q' := q + |Joined(chunks)|;
      && Tracks(r.0, noise, body, more, q')
      && Published(d.state, listeners, body) + r.1 == Published(r.0.state, listeners, body)
      && Pending(r.0.state, noise, body, q' - |r.0.rx|) <= Pending(d.state, noise, body, q - |d.rx|)
    decreases |chunks|
  {
    hide *;
    if chunks == [] {
      FeedNone(d, listeners, noise, body, more, q);
      assert Published(d.state, listeners, body) + [] == Published(d.state, listeners, body);
    } else {
      FeedNone(d, listeners, noise, body, more, q);
      JoinedSplit(Stream(noise, body, more), q, chunks);
      FeedFirst(d, listeners, noise, body, more, q, chunks[0]);
      FeedUnfold(d, listeners, chunks);
      var step := LoopStep(d.(rx := d.rx + chunks[0]), listeners);
      var fed := Feed(step.0, listeners, chunks[1..]);
      FeedTracks(step.0, listeners, noise, body, more, q + |chunks[0]|, chunks[1..]);
      var before := Published(d.state, listeners, body);
      assert before + (step.1 + fed.1) == (before + step.1) + fed.1;
    }
  }

  /** With the whole stream arrived and nothing pending, the decoder is in OFF, holding the body, with the bytes after the frame waiting. */
  lemma AtEnd(d: Decoder, listeners: seq<Listener>, noise: seq<byte>, body: seq<byte>, more: seq<byte>)
    requires Tracks(d, noise, body, more, |Stream(noise, body, more)|)
    requires Pending(d.state, noise, body, |Stream(noise, body, more)| - |d.rx|) <= 0
    ensures d == Decoder(Off, body, more) && Bounded(d) && Loops(d, listeners, 0) == (d, [])
    ensures Published(d.state, listeners, body) + [] == DispatchAll(listeners, Walk(body, 0))
  {
    StreamParts(noise, body, more);
  }

  /** Once the whole stream has arrived, a call that advances the decoder uses up one of the calls it has left. */
  lemma Nearer(d: Decoder, d': Decoder, noise: seq<byte>, body: seq<byte>, more: seq<byte>, k: nat)
    requires Tracks(d, noise, body, more, |Stream(noise, body, more)|)
    requires Advances(d, d', noise, body, more, |Stream(noise, body, more)|)
    requires Pending(d.state, noise, body, |Stream(noise, body, more)| - |d.rx|) <= k && k > 0
    ensures Bounded(d) && Bounded(d') && Tracks(d', noise, body, more, |Stream(noise, body, more)|)
    ensures Pending(d'.state, noise, body, |Stream(noise, body, more)| - |d'.rx|) <= k - 1
  {
  }

  /**
    Once the whole stream has arrived, `Pending` more `loop()` calls, or any
    number beyond, publish the frame if it was not yet published and leave
    the decoder in OFF with the bytes after the frame waiting.
   */
  lemma {:induction false} Drain(d: Decoder, listeners: seq<Listener>, noise: seq<byte>, body: seq<byte>, more: seq<byte>, k: nat)
    requires Receivable(noise, body) && Tracks(d, noise, body, more, |Stream(noise, body, more)|)
    requires Pending(d.state, noise, body, |Stream(noise, body, more)| - |d.rx|) <= k
    ensures var r := Loops(d, listeners, k);
      && r.0 == Decoder(Off, body, more)
      && Published(d.state, listeners, body) + r.1 == DispatchAll(listeners, Walk(body, 0))
    decreases k
  {
    hide *;
    if k == 0 {
      AtEnd(d, listeners, noise, body, more);
    } else {
      TrackStep(d, listeners, noise, body, more, |Stream(noise, body, more)|);
      TracksBounded(d, noise, body, more, |Stream(noise, body, more)|);
      var step := LoopStep(d, listeners);
      Nearer(d, step.0, noise, body, more, k);
      LoopsUnfold(d, listeners, k);
      Drain(step.0, listeners, noise, body, more, k - 1);
      var rest := Loops(step.0, listeners, k - 1);
      var before := Published(d.state, listeners, body);
      assert before + (step.1 + rest.1) == (before + step.1) + rest.1;
    }
  }

  /** After `update()` the decoder stands at the head of the stream, with nothing published and every step still ahead. */
  lemma OnAtStart(listeners: seq<Listener>, noise: seq<byte>, body: seq<byte>, more: seq<byte>)
    ensures Bounded(Decoder(On, [], [])) && Tracks(Decoder(On, [], []), noise, body, more, 0)
    ensures Published(On, listeners, body) == []
    ensures Pending(On, noise, body, 0) == |noise| / READ_QUOTA + |body| / READ_QUOTA + 3
  {
  }

  /** The stream, taken whole. */
  lemma WholeStream(noise: seq<byte>, body: seq<byte>, more: seq<byte>)
    ensures var s := Stream(noise, body, more); 0 + |s| <= |s| && s[0 .. 0 + |s|] == s
  {
  }

  /**
    From the head of the stream, the chunks and then `Pending` more
    `loop()` calls publish the frame once and leave the decoder in OFF.
   */
  lemma FeedThenDrain(d: Decoder, listeners: seq<Listener>, noise: seq<byte>, body: seq<byte>, more: seq<byte>,
                      chunks: seq<seq<byte>>)
    requires Receivable(noise, body) && d == Decoder(On, [], [])
    requires Stream(noise, body, more) == Joined(chunks)
    ensures var fed := Feed(d, listeners, chunks);
      var rest := Loops(fed.0, listeners, Pending(On, noise, body, 0));
      && rest.0 == Decoder(Off, body, more)
      && fed.1 + rest.1 == DispatchAll(listeners, Walk(body, 0))
  {
    hide *;
    WholeStream(noise, body, more);
    OnAtStart(listeners, noise, body, more);
    FeedTracks(d, listeners, noise, body, more, 0, chunks);
    var fed := Feed(d, listeners, chunks);
    Drain(fed.0, listeners, noise, body, more, Pending(On, noise, body, 0));
  }

  /**
    Partial delivery: after `update()`, a frame whose bytes arrive in any
    chunks, with one `loop()` call after each, is published exactly once.
    `Pending(On, noise, body, 0)` further calls, that is
    `|noise| / 128 + |body| / 128 + 3` (`OnAtStart`), finish the job, and
    the decoder is then in OFF, holding the body, with the bytes after the
    frame waiting.  Noise of any length is allowed.
   */
  lemma ReceiveInChunks(frame: seq<byte>, noise: seq<byte>, body: seq<byte>, more: seq<byte>,
                        chunks: seq<seq<byte>>, listeners: seq<Listener>)
    requires |frame| <= MAX_BUF_SIZE - 1
    requires START_FRAME !in noise && END_FRAME !in body && |body| <= MAX_BUF_SIZE - 1
    requires Joined(chunks) == noise + [START_FRAME] + body + [END_FRAME] + more
    ensures var fed := Feed(UpdateStep(Decoder(Off, frame, [])), listeners, chunks);
      var rest := Loops(fed.0, listeners, Pending(On, noise, body, 0));
      && rest.0 == Decoder(Off, body, more)
      && fed.1 + rest.1 == DispatchAll(listeners, Walk(body, 0))
  {
    hide Joined, Feed, Loops, LoopStep, Walk, DispatchAll, Pending, Tracks;
    FeedThenDrain(UpdateStep(Decoder(Off, frame, [])), listeners, noise, body, more, chunks);
  }


}
