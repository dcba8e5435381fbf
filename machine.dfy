/**
  The decoder's state machine as values: the four states, one call of
  `read_chars_until_`, one call of `update()` and of `loop()`, and what a
  sequence of `loop()` calls does to a frame arriving over the serial link.
  The class in module Router is proved to follow these functions step by
  step.
 */
module Machine {
  import opened Wire
  import opened Listeners
  import opened Groups

  /** The four states of the decoder; it is always in exactly one of them. */
  datatype State = Off | On | StartFrameReceived | EndFrameReceived

  /**
    What the decoder holds between calls: its state, the used part of the
    frame buffer (`buf_[0 .. buf_index_)`) and the bytes waiting on the
    serial link.
   */
  datatype Decoder = Decoder(state: State, frame: seq<byte>, rx: seq<byte>)

  /** The frame buffer never holds more than `MAX_BUF_SIZE - 1` bytes. */
  predicate Bounded(d: Decoder)
  {
    |d.frame| <= MAX_BUF_SIZE - 1
  }

  /**
    The outcome of one `read_chars_until_` call: whether the target byte was
    read, whether the call gave up on a full buffer, how many bytes it took
    from the link, and the frame buffer's used part afterwards.
   */
  datatype ReadOutcome = ReadOutcome(found: bool, full: bool, taken: nat, frame: seq<byte>)

  /**
    `read_chars_until_(drop, c)` on the link `rx`, of which the first `i`
    bytes are already taken, with up to `quota` reads left: take bytes while
    any are available and the quota lasts; stop on `c`, which is not stored;
    in drop mode store nothing; in keep mode append each byte to `frame`,
    unless the buffer already holds `MAX_BUF_SIZE - 1` bytes, in which case
    the byte just read is discarded and the call gives up.
   */
  function ReadFrom(drop: bool, c: byte, frame: seq<byte>, rx: seq<byte>, i: nat, quota: nat): (o: ReadOutcome)
    requires i <= |rx| && |frame| <= MAX_BUF_SIZE - 1
    decreases quota
    ensures i <= o.taken <= |rx| && o.taken - i <= quota
    ensures i == |rx| ==> o == ReadOutcome(false, false, i, frame)
    ensures !(o.found && o.full)
    ensures drop ==> !o.full && o.frame == frame
    ensures o.full ==> i < o.taken && |o.frame| == MAX_BUF_SIZE - 1
    ensures |frame| <= |o.frame| <= MAX_BUF_SIZE - 1
    ensures !o.found && !o.full ==> o.taken == |rx| || o.taken - i == quota
  {
    if i == |rx| || quota == 0 then ReadOutcome(false, false, i, frame)
    else if rx[i] == c then ReadOutcome(true, false, i + 1, frame)
    else if drop then ReadFrom(drop, c, frame, rx, i + 1, quota - 1)
    else if |frame| >= MAX_BUF_SIZE - 1 then ReadOutcome(false, true, i + 1, frame)
    else ReadFrom(drop, c, frame + [rx[i]], rx, i + 1, quota - 1)
  }

  /** One `read_chars_until_` call on the waiting bytes `rx`, with its quota of reads. */
  function ReadUntil(drop: bool, c: byte, frame: seq<byte>, rx: seq<byte>): (o: ReadOutcome)
    requires |frame| <= MAX_BUF_SIZE - 1
    ensures o.taken <= |rx| && o.taken <= READ_QUOTA
    ensures rx == [] ==> o == ReadOutcome(false, false, 0, frame)
  {
    ReadFrom(drop, c, frame, rx, 0, READ_QUOTA)
  }

  /**
    `goal` is what the rest of a `read_chars_until_` call yields from byte
    `i` of the link on, with the frame buffer holding `frame` and `quota`
    reads left.
   */
  predicate ReadRest(goal: ReadOutcome, drop: bool, c: byte, frame: seq<byte>, rx: seq<byte>, i: nat, quota: nat)
    requires i <= |rx| && |frame| <= MAX_BUF_SIZE - 1
  {
    goal == ReadFrom(drop, c, frame, rx, i, quota)
  }

  /** A call whose link or quota has run out yields its current frame, the target not found. */
  lemma ReadRestEnds(goal: ReadOutcome, drop: bool, c: byte, frame: seq<byte>, rx: seq<byte>, i: nat, quota: nat)
    requires i <= |rx| && |frame| <= MAX_BUF_SIZE - 1
    requires ReadRest(goal, drop, c, frame, rx, i, quota)
    requires i == |rx| || quota == 0
    ensures goal == ReadOutcome(false, false, i, frame)
  {
  }

  /** A read that neither hits the target nor finds the buffer full leaves the rest of the call to the next byte. */
  lemma ReadFromNext(drop: bool, c: byte, frame: seq<byte>, rx: seq<byte>, i: nat, quota: nat)
    requires i < |rx| && quota > 0 && rx[i] != c
    requires |frame| < MAX_BUF_SIZE - 1 || (drop && |frame| == MAX_BUF_SIZE - 1)
    ensures ReadFrom(drop, c, frame, rx, i, quota)
         == ReadFrom(drop, c, if drop then frame else frame + [rx[i]], rx, i + 1, quota - 1)
  {
  }

  /** The ways a `read_chars_until_` call ends at the next byte. */
  lemma ReadFromEnds(drop: bool, c: byte, frame: seq<byte>, rx: seq<byte>, i: nat, quota: nat)
    requires i <= |rx| && |frame| <= MAX_BUF_SIZE - 1
    ensures i == |rx| || quota == 0 ==> ReadFrom(drop, c, frame, rx, i, quota) == ReadOutcome(false, false, i, frame)
    ensures i < |rx| && quota > 0 && rx[i] == c ==> ReadFrom(drop, c, frame, rx, i, quota) == ReadOutcome(true, false, i + 1, frame)
    ensures i < |rx| && quota > 0 && rx[i] != c && !drop && |frame| == MAX_BUF_SIZE - 1 ==>
      ReadFrom(drop, c, frame, rx, i, quota) == ReadOutcome(false, true, i + 1, frame)
  {
  }

  /**
    A `read_chars_until_` call reports the target byte found exactly when
    the last byte it took from the link is the target, and none of the
    bytes it took before is.
   */
  lemma {:induction false} ReadFromFound(drop: bool, c: byte, frame: seq<byte>, rx: seq<byte>, i: nat, quota: nat)
    requires i <= |rx| && |frame| <= MAX_BUF_SIZE - 1
    decreases quota
    ensures var o := ReadFrom(drop, c, frame, rx, i, quota);
      && (o.found <==> i < o.taken && rx[o.taken - 1] == c)
      && (forall k :: i <= k < o.taken - 1 ==> rx[k] != c)
  {
    ReadFromEnds(drop, c, frame, rx, i, quota);
    hide ReadFrom;
    if i == |rx| || quota == 0 || rx[i] == c || (!drop && |frame| >= MAX_BUF_SIZE - 1) {
    } else {
      ReadFromNext(drop, c, frame, rx, i, quota);
      ReadFromFound(drop, c, if drop then frame else frame + [rx[i]], rx, i + 1, quota - 1);
    }
  }

  /**
    In keep mode, a `read_chars_until_` call appends to the frame buffer
    every byte it took from the link, in order, except the target byte and
    the byte it discarded on a full buffer.
   */
  lemma {:induction false} ReadFromKeeps(c: byte, frame: seq<byte>, rx: seq<byte>, i: nat, quota: nat)
    requires i <= |rx| && |frame| <= MAX_BUF_SIZE - 1
    decreases quota
    ensures var o := ReadFrom(false, c, frame, rx, i, quota);
      var kept := o.taken - (if o.found || o.full then 1 else 0);
      i <= kept && o.frame == frame + rx[i .. kept]
  {
    if i == |rx| || quota == 0 || rx[i] == c || |frame| >= MAX_BUF_SIZE - 1 {
      assert frame + rx[i .. i] == frame;
    } else {
      var o := ReadFrom(false, c, frame + [rx[i]], rx, i + 1, quota - 1);
      ReadFromKeeps(c, frame + [rx[i]], rx, i + 1, quota - 1);
      var kept := o.taken - (if o.found || o.full then 1 else 0);
      KeepOneMore(frame, rx, i, kept);
    }
  }

  /** Keeping byte `i` and then bytes `i + 1 .. kept` keeps bytes `i .. kept`. */
  lemma KeepOneMore(frame: seq<byte>, rx: seq<byte>, i: nat, kept: nat)
    requires i < kept <= |rx|
    ensures frame + [rx[i]] + rx[i + 1 .. kept] == frame + rx[i .. kept]
  {
    assert rx[i .. kept] == [rx[i]] + rx[i + 1 .. kept];
  }

  /** `setup()`: the decoder goes to OFF. */
  function SetupStep(d: Decoder): (d': Decoder)
    ensures d'.state == Off && d'.frame == d.frame && d'.rx == d.rx
  {
    d.(state := Off)
  }

  /** `update()`: only in OFF, empty the frame buffer and start looking for a frame. */
  function UpdateStep(d: Decoder): (d': Decoder)
    ensures d.state == Off ==> d' == Decoder(On, [], d.rx)
    ensures d.state != Off ==> d' == d
  {
    if d.state == Off then Decoder(On, [], d.rx) else d
  }

  /**
    `loop()`: in OFF nothing happens; in ON bytes are dropped until a start
    byte; in START_FRAME_RECEIVED bytes are kept until an end byte, and a
    full buffer sends the decoder back to OFF; in END_FRAME_RECEIVED the
    frame is walked, each reading is published to the listeners, and the
    decoder goes to OFF without reading the link.  The second component is
    the listener calls made.
   */
  function LoopStep(d: Decoder, listeners: seq<Listener>): (r: (Decoder, seq<Event>))
    requires Bounded(d)
    ensures Bounded(r.0)
    ensures d.state != EndFrameReceived ==> r.1 == []
  {
    match d.state
    case Off => (d, [])
    case On =>
      var o := ReadUntil(true, START_FRAME, d.frame, d.rx);
      (Decoder(if o.found then StartFrameReceived else On, d.frame, d.rx[o.taken..]), [])
    case StartFrameReceived =>
      var o := ReadUntil(false, END_FRAME, d.frame, d.rx);
      var s := if o.found then EndFrameReceived else if o.full then Off else StartFrameReceived;
      (Decoder(s, o.frame, d.rx[o.taken..]), [])
    case EndFrameReceived =>
      (Decoder(Off, d.frame, d.rx), DispatchAll(listeners, Walk(d.frame, 0)))
  }

  /** `n` calls of `loop()` in a row, with the listener calls they make. */
  function Loops(d: Decoder, listeners: seq<Listener>, n: nat): (r: (Decoder, seq<Event>))
    requires Bounded(d)
    decreases n
    ensures Bounded(r.0)
  {
    if n == 0 then (d, [])
    else
      var (d1, ev1) := LoopStep(d, listeners);
      var (d2, ev2) := Loops(d1, listeners, n - 1);
      (d2, ev1 + ev2)
  }

  function Min(a: nat, b: nat): nat
  {
    if a <= b then a else b
  }

  /**
    The byte count the frame walk passes to each of its LF searches:
    `buf_index_ - 1` in 32-bit unsigned arithmetic, which wraps round to
    0xFFFF_FFFF when the frame is empty.
   */
  function LineFeedWindow(bufIndex: nat): (w: nat)
    requires bufIndex < 0x1_0000_0000
    ensures w < 0x1_0000_0000
    ensures bufIndex > 0 ==> w + 1 == bufIndex
    ensures bufIndex == 0 ==> w == 0xFFFF_FFFF
  {
    (bufIndex + 0xFFFF_FFFF) % 0x1_0000_0000
  }

  /**
    The LF search reaches past the frame buffer: from a cursor `finger`
    it covers `LineFeedWindow(bufIndex)` bytes, which ends beyond
    `MAX_BUF_SIZE` once the cursor is far enough into a long frame, and
    always when the frame is empty.
   */
  lemma LineFeedWindowOverruns(bufIndex: nat, finger: nat)
    requires bufIndex <= MAX_BUF_SIZE - 1 && finger <= bufIndex
    ensures finger + LineFeedWindow(bufIndex) > MAX_BUF_SIZE <==> bufIndex == 0 || finger + bufIndex > MAX_BUF_SIZE + 1
  {
  }

  /**
    Unless it gives up on a full buffer, a `read_chars_until_` call finds
    the target exactly when the target is among the bytes available to it:
    the waiting bytes, up to the quota.
   */
  lemma ReadFromTarget(drop: bool, c: byte, frame: seq<byte>, rx: seq<byte>, i: nat, quota: nat)
    requires i <= |rx| && |frame| <= MAX_BUF_SIZE - 1
    ensures var o := ReadFrom(drop, c, frame, rx, i, quota);
      !o.full ==> (o.found <==> c in rx[i .. Min(|rx|, i + quota)])
  {
    var o := ReadFrom(drop, c, frame, rx, i, quota);
    ReadFromFound(drop, c, frame, rx, i, quota);
    var m := Min(|rx|, i + quota);
    if o.found {
      assert rx[i .. m][o.taken - 1 - i] == c;
    } else if !o.full {
      assert o.taken == m;
      forall k | 0 <= k < m - i
        ensures rx[i .. m][k] != c
      {
        assert rx[i .. m][k] == rx[i + k];
      }
    }
  }

  /** Without waiting bytes, `loop()` changes nothing while the decoder looks for or collects a frame. */
  lemma IdleWithoutInput(d: Decoder, listeners: seq<Listener>)
    requires Bounded(d) && d.rx == []
    requires d.state == On || d.state == StartFrameReceived
    ensures LoopStep(d, listeners) == (d, [])
  {
  }

  /** In OFF, `loop()` does nothing at all. */
  lemma OffIsIdle(d: Decoder, listeners: seq<Listener>)
    requires Bounded(d) && d.state == Off
    ensures LoopStep(d, listeners) == (d, [])
  {
  }

  /**
    In ON, `loop()` keeps the frame buffer, and moves to
    START_FRAME_RECEIVED exactly when a start byte is among the first
    `READ_QUOTA` waiting bytes; otherwise it stays in ON.
   */
  lemma SeekStart(d: Decoder, listeners: seq<Listener>)
    requires Bounded(d) && d.state == On
    ensures var d' := LoopStep(d, listeners).0;
      && d'.frame == d.frame
      && (d'.state == StartFrameReceived <==> START_FRAME in d.rx[.. Min(|d.rx|, READ_QUOTA)])
      && (d'.state != StartFrameReceived ==> d'.state == On)
  {
    ReadFromTarget(true, START_FRAME, d.frame, d.rx, 0, READ_QUOTA);
  }

  /**
    In START_FRAME_RECEIVED, `loop()` moves to END_FRAME_RECEIVED only when
    an end byte is among the first `READ_QUOTA` waiting bytes, stays put
    only when none is, and otherwise goes back to OFF on a full buffer.
   */
  lemma SeekEnd(d: Decoder, listeners: seq<Listener>)
    requires Bounded(d) && d.state == StartFrameReceived
    ensures var d' := LoopStep(d, listeners).0;
      && (d'.state == EndFrameReceived || d'.state == StartFrameReceived || d'.state == Off)
      && (d'.state == EndFrameReceived ==> END_FRAME in d.rx[.. Min(|d.rx|, READ_QUOTA)])
      && (d'.state == StartFrameReceived ==> END_FRAME !in d.rx[.. Min(|d.rx|, READ_QUOTA)])
      && (d'.state == Off ==> |d'.frame| == MAX_BUF_SIZE - 1)
  {
    ReadFromTarget(false, END_FRAME, d.frame, d.rx, 0, READ_QUOTA);
  }

  /**
    In START_FRAME_RECEIVED, a frame buffer that is already full makes
    `loop()` discard the next byte (when it is not the end byte) and go back
    to OFF.
   */
  lemma OverflowAborts(d: Decoder, listeners: seq<Listener>)
    requires Bounded(d) && d.state == StartFrameReceived
    requires |d.frame| == MAX_BUF_SIZE - 1 && d.rx != [] && d.rx[0] != END_FRAME
    ensures LoopStep(d, listeners) == (Decoder(Off, d.frame, d.rx[1..]), [])
  {
  }

  /**
    In START_FRAME_RECEIVED, when the next `READ_QUOTA` waiting bytes hold no
    end byte and fit the buffer, `loop()` appends all of them and keeps
    collecting.
   */
  lemma CollectChunk(d: Decoder, listeners: seq<Listener>)
    requires Bounded(d) && d.state == StartFrameReceived
    requires |d.rx| >= READ_QUOTA && END_FRAME !in d.rx[.. READ_QUOTA]
    requires |d.frame| + READ_QUOTA <= MAX_BUF_SIZE - 1
    ensures LoopStep(d, listeners)
         == (Decoder(StartFrameReceived, d.frame + d.rx[.. READ_QUOTA], d.rx[READ_QUOTA ..]), [])
  {
    var o := ReadUntil(false, END_FRAME, d.frame, d.rx);
    ReadFromTarget(false, END_FRAME, d.frame, d.rx, 0, READ_QUOTA);
    ReadFromKeeps(END_FRAME, d.frame, d.rx, 0, READ_QUOTA);
    assert d.rx[0 .. Min(|d.rx|, READ_QUOTA)] == d.rx[.. READ_QUOTA];
    assert !o.full;
  }

  /**
    In START_FRAME_RECEIVED, when the rest of the frame and its end byte
    arrive within the quota and fit the buffer, `loop()` appends the rest
    of the frame, consumes the end byte, and moves to END_FRAME_RECEIVED.
   */
  lemma CloseFrame(d: Decoder, listeners: seq<Listener>, body: seq<byte>, more: seq<byte>)
    requires Bounded(d) && d.state == StartFrameReceived
    requires d.rx == body + [END_FRAME] + more
    requires END_FRAME !in body && |body| < READ_QUOTA
    requires |d.frame| + |body| <= MAX_BUF_SIZE - 1
    ensures LoopStep(d, listeners) == (Decoder(EndFrameReceived, d.frame + body, more), [])
  {
    var o := ReadUntil(false, END_FRAME, d.frame, d.rx);
    ReadFromFound(false, END_FRAME, d.frame, d.rx, 0, READ_QUOTA);
    ReadFromKeeps(END_FRAME, d.frame, d.rx, 0, READ_QUOTA);
    assert d.rx[|body|] == END_FRAME;
    assert forall k :: 0 <= k < |body| ==> d.rx[k] == body[k];
    assert o.taken == |body| + 1;
    assert d.rx[0 .. |body|] == body;
    assert d.rx[|body| + 1 ..] == more;
  }

  /** One `loop()` call, then `n - 1` more. */
  lemma LoopsUnfold(d: Decoder, listeners: seq<Listener>, n: nat)
    requires Bounded(d) && n > 0
    ensures var s := LoopStep(d, listeners);
      var rest := Loops(s.0, listeners, n - 1);
      Loops(d, listeners, n) == (rest.0, s.1 + rest.1)
  {
  }

  /** No call leaves the decoder as it is. */
  lemma LoopsZero(d: Decoder, listeners: seq<Listener>)
    requires Bounded(d)
    ensures Loops(d, listeners, 0) == (d, [])
  {
  }

  /** `a` calls of `loop()` followed by `b` more are `a + b` calls. */
  lemma {:induction false} LoopsAdd(d: Decoder, listeners: seq<Listener>, a: nat, b: nat)
    requires Bounded(d)
    ensures var first := Loops(d, listeners, a);
      var second := Loops(first.0, listeners, b);
      Loops(d, listeners, a + b) == (second.0, first.1 + second.1)
    decreases a
  {
    // induction on `a` through LoopsUnfold and LoopsZero alone; no definition needs opening
    hide *;
    if a == 0 {
      LoopsZero(d, listeners);
      var second := Loops(d, listeners, b);
      assert [] + second.1 == second.1;
    } else {
      var s := LoopStep(d, listeners);
      LoopsUnfold(d, listeners, a);
      LoopsUnfold(d, listeners, a + b);
      LoopsAdd(s.0, listeners, a - 1, b);
      var first' := Loops(s.0, listeners, a - 1);
      var second := Loops(first'.0, listeners, b);
      assert s.1 + (first'.1 + second.1) == (s.1 + first'.1) + second.1;
    }
  }

  /**
    In ON, a start byte among the next `READ_QUOTA` bytes, behind noise that
    holds none, is found by one `loop()` call: the noise and the start byte
    are consumed and the decoder moves to START_FRAME_RECEIVED.
   */
  lemma FindStart(d: Decoder, listeners: seq<Listener>, noise: seq<byte>, rest: seq<byte>)
    requires Bounded(d) && d.state == On
    requires d.rx == noise + [START_FRAME] + rest
    requires START_FRAME !in noise && |noise| < READ_QUOTA
    ensures LoopStep(d, listeners) == (Decoder(StartFrameReceived, d.frame, rest), [])
  {
    var o := ReadUntil(true, START_FRAME, d.frame, d.rx);
    ReadFromFound(true, START_FRAME, d.frame, d.rx, 0, READ_QUOTA);
    assert d.rx[|noise|] == START_FRAME;
    assert forall k :: 0 <= k < |noise| ==> d.rx[k] == noise[k];
    assert o.found && o.taken == |noise| + 1;
    assert d.rx[|noise| + 1 ..] == rest;
  }

  /** In END_FRAME_RECEIVED, one `loop()` call walks the buffer, publishes what it yields and returns to OFF. */
  lemma PublishFrame(d: Decoder, listeners: seq<Listener>)
    requires Bounded(d) && d.state == EndFrameReceived
    ensures LoopStep(d, listeners) == (Decoder(Off, d.frame, d.rx), DispatchAll(listeners, Walk(d.frame, 0)))
  {
  }

  /** Taking one quota off a count takes one off the number of whole quotas in it. */
  lemma QuotaStep(x: nat)
    requires x >= READ_QUOTA
    ensures (x - READ_QUOTA) / READ_QUOTA + 1 == x / READ_QUOTA
  {
  }

  /**
    A frame body that fits the buffer is collected chunk by chunk: from
    START_FRAME_RECEIVED, one `loop()` call per `READ_QUOTA` bytes plus one
    for the last chunk and the end byte bring the decoder to
    END_FRAME_RECEIVED holding the whole body, with nothing published.
   */
  lemma {:induction false} FrameArrives(d: Decoder, listeners: seq<Listener>, body: seq<byte>, more: seq<byte>)
    requires Bounded(d) && d.state == StartFrameReceived
    requires d.rx == body + [END_FRAME] + more
    requires END_FRAME !in body
    requires |d.frame| + |body| <= MAX_BUF_SIZE - 1
    ensures Loops(d, listeners, |body| / READ_QUOTA + 1) == (Decoder(EndFrameReceived, d.frame + body, more), [])
    decreases |body|
  {
    // CloseFrame and CollectChunk say what each call does, so the definitions stay folded
    hide Loops, LoopStep, Walk, DispatchAll, ReadFrom, ReadUntil;
    var n := |body| / READ_QUOTA + 1;
    if |body| < READ_QUOTA {
      CloseFrame(d, listeners, body, more);
      var d1 := Decoder(EndFrameReceived, d.frame + body, more);
      LoopsUnfold(d, listeners, 1);
      LoopsZero(d1, listeners);
      assert n == 1;
      assert LoopStep(d, listeners) == (d1, []);
      assert Loops(d, listeners, 1) == (Loops(d1, listeners, 0).0, [] + Loops(d1, listeners, 0).1);
      var none: seq<Event> := [];
      assert none + none == none;
    } else {
      var chunk := body[.. READ_QUOTA];
      var tail := body[READ_QUOTA ..];
      assert d.rx[.. READ_QUOTA] == chunk;
      assert d.rx[READ_QUOTA ..] == tail + [END_FRAME] + more;
      assert END_FRAME !in chunk by {
        assert forall b :: b in chunk ==> b in body;
      }
      assert END_FRAME !in tail by {
        assert forall b :: b in tail ==> b in body;
      }
      CollectChunk(d, listeners);
      LoopsUnfold(d, listeners, n);
      var d1 := Decoder(StartFrameReceived, d.frame + chunk, tail + [END_FRAME] + more);
      FrameArrives(d1, listeners, tail, more);
      assert n - 1 == |tail| / READ_QUOTA + 1 by {
        QuotaStep(|body|);
      }
      assert d.frame + chunk + tail == d.frame + body;
      assert LoopStep(d, listeners) == (d1, []);
      assert Loops(d, listeners, n) == (Loops(d1, listeners, n - 1).0, [] + Loops(d1, listeners, n - 1).1);
      var none: seq<Event> := [];
      assert none + none == none;
    }
  }

  /**
    In keep mode, a call that meets `m` more non-target bytes while the
    buffer has room for exactly `m` fills the buffer with them, then
    discards the non-target byte after them and gives up.
   */
  lemma {:induction false} ReadFromOverflows(c: byte, frame: seq<byte>, rx: seq<byte>, i: nat, quota: nat, m: nat)
    requires |frame| + m == MAX_BUF_SIZE - 1
    requires i + m < |rx| && m < quota
    requires forall k :: i <= k <= i + m ==> rx[k] != c
    decreases m
    ensures ReadFrom(false, c, frame, rx, i, quota) == ReadOutcome(false, true, i + m + 1, frame + rx[i .. i + m])
  {
    if m == 0 {
      ReadFromEnds(false, c, frame, rx, i, quota);
      assert frame + rx[i .. i] == frame;
    } else {
      ReadFromNext(false, c, frame, rx, i, quota);
      ReadFromOverflows(c, frame + [rx[i]], rx, i + 1, quota - 1, m - 1);
      KeepOneMore(frame, rx, i, i + m);
    }
  }

  /**
    In START_FRAME_RECEIVED, when the waiting bytes are `kept`, which is
    shorter than a quota and exactly fills the buffer, then a byte `x`,
    neither of them the end byte, `loop()` stores `kept`, discards `x` and
    goes back to OFF.
   */
  lemma OverflowStep(d: Decoder, listeners: seq<Listener>, kept: seq<byte>, x: byte, rest: seq<byte>)
    requires Bounded(d) && d.state == StartFrameReceived
    requires d.rx == kept + [x] + rest && END_FRAME !in kept && x != END_FRAME
    requires |d.frame| + |kept| == MAX_BUF_SIZE - 1 && |kept| < READ_QUOTA
    ensures LoopStep(d, listeners) == (Decoder(Off, d.frame + kept, rest), [])
  {
    assert forall j :: 0 <= j < |kept| ==> d.rx[j] == kept[j];
    assert d.rx[|kept|] == x;
    ReadFromOverflows(END_FRAME, d.frame, d.rx, 0, READ_QUOTA, |kept|);
    assert d.rx[0 .. |kept|] == kept;
    assert d.rx[|kept| + 1 ..] == rest;
  }

  /** The last call of an overflowing frame, as a run of one `loop()` call. */
  lemma OverflowLast(d: Decoder, listeners: seq<Listener>, kept: seq<byte>, x: byte, rest: seq<byte>)
    requires Bounded(d) && d.state == StartFrameReceived
    requires d.rx == kept + [x] + rest && END_FRAME !in kept && x != END_FRAME
    requires |d.frame| + |kept| == MAX_BUF_SIZE - 1 && |kept| < READ_QUOTA
    ensures Loops(d, listeners, 1) == (Decoder(Off, d.frame + kept, rest), [])
  {
    var d' := Decoder(Off, d.frame + kept, rest);
    OverflowStep(d, listeners, kept, x, rest);
    // OverflowStep says what the call does, so the definitions stay folded
    hide Loops, LoopStep, Walk, DispatchAll, ReadFrom, ReadUntil;
    LoopsUnfold(d, listeners, 1);
    LoopsZero(d', listeners);
    var none: seq<Event> := [];
    assert none + none == none;
  }

  /**
    A frame too long for the buffer is dropped: from START_FRAME_RECEIVED,
    with waiting bytes `kept` that exactly fill the buffer, then a byte `x`,
    none of them the end byte, `|kept| / READ_QUOTA + 1` calls of `loop()`
    store `kept`, discard `x`, publish nothing and leave the decoder in OFF
    with the bytes after `x` still waiting.  Every body without an end byte
    that is longer than the room left splits this way, with `kept` its
    first `MAX_BUF_SIZE - 1 - |d.frame|` bytes.
   */
  lemma {:induction false} FrameOverflows(d: Decoder, listeners: seq<Listener>, kept: seq<byte>, x: byte, rest: seq<byte>)
    requires Bounded(d) && d.state == StartFrameReceived
    requires d.rx == kept + [x] + rest && END_FRAME !in kept && x != END_FRAME
    requires |d.frame| + |kept| == MAX_BUF_SIZE - 1
    ensures Loops(d, listeners, |kept| / READ_QUOTA + 1) == (Decoder(Off, d.frame + kept, rest), [])
    decreases |kept|
  {
    // OverflowLast and CollectChunk say what each call does, so the definitions stay folded
    hide Loops, LoopStep, Walk, DispatchAll, ReadFrom, ReadUntil;
    var n := |kept| / READ_QUOTA + 1;
    if |kept| < READ_QUOTA {
      assert n == 1;
      OverflowLast(d, listeners, kept, x, rest);
    } else {
      var chunk := kept[.. READ_QUOTA];
      var tail := kept[READ_QUOTA ..];
      assert d.rx[.. READ_QUOTA] == chunk;
      assert d.rx[READ_QUOTA ..] == tail + [x] + rest;
      assert END_FRAME !in chunk by {
        assert forall b :: b in chunk ==> b in kept;
      }
      assert END_FRAME !in tail by {
        assert forall b :: b in tail ==> b in kept;
      }
      CollectChunk(d, listeners);
      LoopsUnfold(d, listeners, n);
      var d1 := Decoder(StartFrameReceived, d.frame + chunk, tail + [x] + rest);
      FrameOverflows(d1, listeners, tail, x, rest);
      assert n - 1 == |tail| / READ_QUOTA + 1 by {
        QuotaStep(|kept|);
      }
      assert d.frame + chunk + tail == d.frame + kept;
      assert LoopStep(d, listeners) == (d1, []);
      assert Loops(d, listeners, n) == (Loops(d1, listeners, n - 1).0, [] + Loops(d1, listeners, n - 1).1);
      var none: seq<Event> := [];
      assert none + none == none;
    }
  }

  /**
    The same for any body without an end byte that is longer than the room
    left in the buffer: `k / READ_QUOTA + 1` calls, with `k` that room,
    keep the body's first `k` bytes, discard the next one, publish nothing
    and leave the decoder in OFF.
   */
  lemma OversizedFrameDropped(d: Decoder, listeners: seq<Listener>, body: seq<byte>, more: seq<byte>)
    requires Bounded(d) && d.state == StartFrameReceived
    requires d.rx == body + more && END_FRAME !in body
    requires |d.frame| + |body| > MAX_BUF_SIZE - 1
    ensures var k := MAX_BUF_SIZE - 1 - |d.frame|;
      Loops(d, listeners, k / READ_QUOTA + 1) == (Decoder(Off, d.frame + body[.. k], body[k + 1 ..] + more), [])
  {
    var k := MAX_BUF_SIZE - 1 - |d.frame|;
    assert body[k] in body;
    assert d.rx == body[.. k] + [body[k]] + (body[k + 1 ..] + more);
    assert END_FRAME !in body[.. k] by {
      assert forall b :: b in body[.. k] ==> b in body;
    }
    // FrameOverflows does the work; the definitions stay folded
    hide Loops, LoopStep, Walk, DispatchAll, ReadFrom, ReadUntil;
    FrameOverflows(d, listeners, body[.. k], body[k], body[k + 1 ..] + more);
  }

  /**
    The whole cycle: after `update()` in OFF, a frame that arrives behind
    fewer than `READ_QUOTA` bytes of noise without a start byte, and whose
    body holds no end byte and fits the buffer, is collected by successive
    `loop()` calls, walked, and published to the listeners by the last call,
    which leaves the decoder in OFF with the bytes after the frame still
    waiting.
   */
  lemma ReceiveFrame(frame: seq<byte>, noise: seq<byte>, body: seq<byte>, more: seq<byte>, listeners: seq<Listener>)
    requires |frame| <= MAX_BUF_SIZE - 1
    requires START_FRAME !in noise && |noise| < READ_QUOTA
    requires END_FRAME !in body && |body| <= MAX_BUF_SIZE - 1
    ensures var d := UpdateStep(Decoder(Off, frame, noise + [START_FRAME] + body + [END_FRAME] + more));
      Loops(d, listeners, |body| / READ_QUOTA + 3)
      == (Decoder(Off, body, more), DispatchAll(listeners, Walk(body, 0)))
  {
    var rx := noise + [START_FRAME] + body + [END_FRAME] + more;
    var d := UpdateStep(Decoder(Off, frame, rx));
    assert d == Decoder(On, [], rx);
    // the three phases are the lemmas called below; unfolding the definitions again only slows the proof
    hide *;
    var n := |body| / READ_QUOTA + 1;
    var d1 := Decoder(StartFrameReceived, [], body + [END_FRAME] + more);
    var d2 := Decoder(EndFrameReceived, body, more);
    var events := DispatchAll(listeners, Walk(body, 0));
    // the first call drops the noise and the start byte
    assert rx == noise + [START_FRAME] + (body + [END_FRAME] + more);
    FindStart(d, listeners, noise, body + [END_FRAME] + more);
    LoopsUnfold(d, listeners, n + 2);
    // then the body arrives chunk by chunk
    FrameArrives(d1, listeners, body, more);
    assert [] + body == body;
    // and the last call walks the frame
    PublishFrame(d2, listeners);
    LoopsUnfold(d2, listeners, 1);
    LoopsZero(Decoder(Off, body, more), listeners);
    LoopsAdd(d1, listeners, n, 1);
    assert [] + ([] + (events + [])) == events;
  }

  /** A group that carries no end-of-frame byte, so that it cannot cut its frame short. */
  predicate NoEndByte(grp: Group)
  {
    END_FRAME !in grp.tag && END_FRAME !in grp.value && grp.crc != END_FRAME
  }

  /** Encoded groups free of end bytes give a frame body free of end bytes. */
  lemma {:induction false} EncodedWithoutEnd(groups: seq<Group>)
    requires forall i :: 0 <= i < |groups| ==> NoEndByte(groups[i])
    ensures END_FRAME !in EncodeFrame(groups)
  {
    if groups != [] {
      EncodedWithoutEnd(groups[1..]);
      var grp := groups[0];
      assert NoEndByte(grp);
      assert EncodeFrame(groups) == [LINE_FEED] + grp.tag + [TAB] + grp.value + [TAB, grp.crc, CARRIAGE_RETURN]
        + EncodeFrame(groups[1..]);
    }
  }

  /**
    End to end: the groups of a frame sent after `update()` reach the
    listeners exactly as the frame theorem of module Groups says, in
    `|body| / READ_QUOTA + 3` calls of `loop()`.
   */
  lemma ReceiveGroups(frame: seq<byte>, noise: seq<byte>, groups: seq<Group>, more: seq<byte>, listeners: seq<Listener>)
    requires |frame| <= MAX_BUF_SIZE - 1
    requires START_FRAME !in noise && |noise| < READ_QUOTA
    requires forall i :: 0 <= i < |groups| ==> WellFramed(groups[i]) && NoEndByte(groups[i])
    requires |EncodeFrame(groups)| <= MAX_BUF_SIZE - 1
    ensures var body := EncodeFrame(groups);
      var d := UpdateStep(Decoder(Off, frame, noise + [START_FRAME] + body + [END_FRAME] + more));
      Loops(d, listeners, |body| / READ_QUOTA + 3)
      == (Decoder(Off, body, more), DispatchAll(listeners, Expected(groups)))
  {
    // EncodedWithoutEnd, ReceiveFrame and FrameWalk do the work; the definitions stay folded
    hide Loops, LoopStep, Walk, DispatchAll, EncodeFrame, Expected, UpdateStep, WellFramed, NoEndByte;
    var body := EncodeFrame(groups);
    EncodedWithoutEnd(groups);
    ReceiveFrame(frame, noise, body, more, listeners);
    FrameWalk(groups);
  }
}
