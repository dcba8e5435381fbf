/**
  The decoder object itself: its fixed frame buffer and scratch buffers,
  the buffer index, the state, the registered listeners, and the methods
  that update them in place.  The serial link is the sequence `rx` of bytes
  waiting to be read, and the listeners' `publish_val` calls are recorded
  in `published`.  Each method is proved against a function of the value
  model: `Setup`, `Update`, `ReadCharsUntil`, `ReadOne` and `Loop` against
  module Machine, `CalculateCrc` and `CheckCrc` against module Crc,
  `DecodeGroup`, `WalkStep` and `WalkFrame` against module Groups, and
  `PublishValue` against module Listeners.
 */
module Router {
  import opened Wire
  import opened Crc
  import opened Field
  import opened Listeners
  import opened Groups
  import opened Machine

  class Mk2PVRouter {
    /** The registered listeners, in registration order. */
    var listeners: seq<Listener>
    /** Trailing group bytes the checksum leaves out. */
    const checksumAreaEnd: nat
    /** The frame buffer; its first `bufIndex` bytes hold the frame being received. */
    const buf: array<byte>
    var bufIndex: nat
    /** Scratch buffers for the tag and the value of the group being decoded. */
    const tagBuf: array<byte>
    const valBuf: array<byte>
    var state: State
    /** Bytes waiting on the serial link, oldest first. */
    var rx: seq<byte>
    /** Every `publish_val` call made so far, oldest first. */
    var published: seq<Event>

    /** The buffers have their declared sizes and are distinct, and the index stays inside the frame buffer. */
    predicate Valid()
      reads this
    {
      && buf.Length == MAX_BUF_SIZE && tagBuf.Length == MAX_TAG_SIZE && valBuf.Length == MAX_VAL_SIZE
      && buf != tagBuf && buf != valBuf && tagBuf != valBuf
      && bufIndex <= MAX_BUF_SIZE - 1
      && checksumAreaEnd == CHECKSUM_AREA_END
    }

    /** The frame received so far: the used part of the frame buffer. */
    function Frame(): seq<byte>
      requires Valid()
      reads this, buf
    {
      buf[..bufIndex]
    }

    /** The decoder's state as a value of the model in module Machine. */
    function Model(): (d: Decoder)
      requires Valid()
      reads this, buf
      ensures Bounded(d)
    {
      Decoder(state, Frame(), rx)
    }

    /** A new decoder is OFF with an empty buffer, no listener and nothing published. */
    constructor ()
      ensures Valid() && fresh(buf) && fresh(tagBuf) && fresh(valBuf)
      ensures state == Off && bufIndex == 0 && rx == [] && listeners == [] && published == []
    {
      listeners := [];
      checksumAreaEnd := 1;
      buf := new byte[MAX_BUF_SIZE];
      bufIndex := 0;
      tagBuf := new byte[MAX_TAG_SIZE];
      valBuf := new byte[MAX_VAL_SIZE];
      state := Off;
      rx := [];
      published := [];
    }

    /** The serial link delivers `bytes`; they queue behind those already waiting. */
    method Receive(bytes: seq<byte>)
      requires Valid()
      modifies this
      ensures Valid() && Model() == old(Model()).(rx := old(rx) + bytes)
      ensures listeners == old(listeners) && published == old(published)
    {
      rx := rx + bytes;
    }

    /** `register_mk2pvrouter_listener`: append a listener to the registry. */
    method RegisterListener(l: Listener)
      requires Valid()
      modifies this
      ensures Valid() && Model() == old(Model())
      ensures listeners == old(listeners) + [l] && published == old(published)
    {
      listeners := listeners + [l];
    }

    /** `setup()`: go to OFF. */
    method Setup()
      requires Valid()
      modifies this
      ensures Valid() && Model() == SetupStep(old(Model()))
      ensures listeners == old(listeners) && published == old(published)
    {
      state := Off;
    }

    /** `update()`: in OFF, empty the frame buffer and start looking for a frame. */
    method Update()
      requires Valid()
      modifies this
      ensures Valid() && Model() == UpdateStep(old(Model()))
      ensures listeners == old(listeners) && published == old(published)
    {
      if state == Off {
        bufIndex := 0;
        state := On;
      }
    }

    /** `buf_[buf_index_++] = received`: append one byte to the frame. */
    method Store(b: byte)
      requires Valid() && bufIndex < MAX_BUF_SIZE - 1
      modifies this, buf
      ensures Valid() && Frame() == old(Frame()) + [b]
      ensures state == old(state) && rx == old(rx)
      ensures listeners == old(listeners) && published == old(published)
    {
      buf[bufIndex] := b;
      bufIndex := bufIndex + 1;
      assert Frame() == old(Frame()) + [b];
    }

    /**
      One pass of the loop of `read_chars_until_(drop, c)`: read the next
      waiting byte (byte `i` of the link `rx0`); stop, reporting it found,
      if it is `c`; drop it in drop mode; on a full buffer discard it, go to
      OFF and stop, reporting it not found; otherwise keep it.  `done` says
      whether the call ends here.
     */
    method ReadOne(drop: bool, c: byte, ghost rx0: seq<byte>, ghost i: nat, ghost quota: nat, ghost goal: ReadOutcome)
      returns (done: bool, found: bool)
      requires Valid() && i < |rx0| && rx == rx0[i..] && quota > 0
      requires ReadRest(goal, drop, c, Frame(), rx0, i, quota)
      modifies this, buf
      ensures Valid() && rx == rx0[i + 1..]
      ensures listeners == old(listeners) && published == old(published)
      ensures done ==> goal == ReadOutcome(found, !found, i + 1, Frame())
      ensures done ==> state == (if found then old(state) else Off)
      ensures !done ==> state == old(state)
      ensures !done ==> ReadRest(goal, drop, c, Frame(), rx0, i + 1, quota - 1)
    {
      hide ReadFrom;
      ReadFromEnds(drop, c, Frame(), rx0, i, quota);
      var received := rx[0];
      assert received == rx0[i];
      rx := rx[1..];
      if received == c {
        return true, true;
      }
      if drop {
        ReadFromNext(drop, c, Frame(), rx0, i, quota);
        return false, false;
      }
      if bufIndex >= MAX_BUF_SIZE - 1 {
        state := Off;
        return true, false;
      }
      ghost var before := Frame();
      Store(received);
      ReadFromNext(drop, c, before, rx0, i, quota);
      return false, false;
    }

    /**
      `read_chars_until_(drop, c)`: read at most `READ_QUOTA` bytes while
      any are waiting, stopping on `c`; keep the others in the frame buffer
      unless `drop`; on a full buffer discard the byte just read, go to OFF
      and give up.
     */
    method ReadCharsUntil(drop: bool, c: byte) returns (found: bool)
      requires Valid()
      modifies this, buf
      ensures Valid()
      ensures var o := ReadUntil(drop, c, old(Frame()), old(rx));
        && found == o.found && Frame() == o.frame && rx == old(rx)[o.taken..]
        && state == (if o.full then Off else old(state))
      ensures listeners == old(listeners) && published == old(published)
    {
      ghost var rx0 := rx;
      ghost var goal := ReadUntil(drop, c, Frame(), rx);
      assert ReadRest(goal, drop, c, Frame(), rx0, 0, READ_QUOTA);
      hide ReadFrom, ReadUntil, ReadRest;
      var j: nat := 0;
      while |rx| > 0 && j < READ_QUOTA
        invariant Valid() && j <= READ_QUOTA && j <= |rx0| && rx == rx0[j..]
        invariant ReadRest(goal, drop, c, Frame(), rx0, j, READ_QUOTA - j)
        invariant state == old(state) && listeners == old(listeners) && published == old(published)
        decreases READ_QUOTA - j
      {
        var done;
        done, found := ReadOne(drop, c, rx0, j, READ_QUOTA - j, goal);
        j := j + 1;
        if done {
          return;
        }
      }
      ReadRestEnds(goal, drop, c, Frame(), rx0, j, READ_QUOTA - j);
      found := false;
    }

    /**
      `calculate_crc_`: add up, in an 8-bit accumulator, the `len` bytes of
      the group at `g` in `frame` except the last `checksumAreaEnd`, keep
      the low six bits and add 0x20.
     */
    method CalculateCrc(frame: seq<byte>, g: nat, len: nat) returns (crc: byte)
      requires g + len <= |frame|
      ensures crc == Checksum(frame[g .. g + Covered(len, checksumAreaEnd)])
    {
      var acc: nat := 0;
      var i: nat := 0;
      while i < len - checksumAreaEnd
        invariant i <= Covered(len, checksumAreaEnd)
        invariant acc == Sum(frame[g .. g + i]) % 256
      {
        assert frame[g .. g + i + 1][.. i] == frame[g .. g + i];
        acc := (acc + frame[g + i]) % 256;
        i := i + 1;
      }
      assert i == Covered(len, checksumAreaEnd);
      WrapKeepsLowBits(Sum(frame[g .. g + i]));
      acc := acc % 64;
      crc := acc + 0x20;
    }

    /**
      `check_crc_`: the group `frame[g..e]` passes when its last byte (for
      an empty group, the byte before it) equals the checksum computed over
      it.
     */
    method CheckCrc(frame: seq<byte>, g: nat, e: nat) returns (ok: bool)
      requires Valid() && 0 < g <= e <= |frame|
      ensures ok == GroupCrcOk(frame, g, e)
    {
      var grpLen := e - g;
      var rawCrc := frame[g + grpLen - 1];
      var calculatedCrc := CalculateCrc(frame, g, grpLen);
      ok := rawCrc == calculatedCrc;
    }

    /** `publish_value_`: call `publish_val(value)` on every listener whose tag is `tag`, in registration order. */
    method PublishValue(tag: seq<byte>, value: seq<byte>)
      requires Valid()
      modifies this
      ensures Valid() && state == old(state) && bufIndex == old(bufIndex) && rx == old(rx)
      ensures listeners == old(listeners)
      ensures published == old(published) + Deliveries(listeners, |listeners|, tag, value)
    {
      hide Deliveries;
      var i := 0;
      while i < |listeners|
        invariant i <= |listeners|
        invariant Valid() && state == old(state) && bufIndex == old(bufIndex) && rx == old(rx)
        invariant listeners == old(listeners)
        invariant published == old(published) + Deliveries(listeners, i, tag, value)
      {
        DeliveriesNext(listeners, i, tag, value);
        if listeners[i].tag == tag {
          published := published + [Event(i, value)];
        }
        i := i + 1;
      }
    }
  
    /**
      The checks on the group `frame[g..e]` (its LF just before `g`, its CR
      at `e`): checksum, then tag, then value, each failure leaving the
      cursor where the walk resumes; a group passing all three is published
      with the C strings of its tag and value.  Returns the new cursor.
     */
    method DecodeGroup(frame: seq<byte>, g: nat, e: nat) returns (next: nat)
      requires Valid() && 0 < g <= e < |frame|
      modifies this, tagBuf, valBuf
      ensures Valid() && state == old(state) && bufIndex == old(bufIndex) && rx == old(rx)
      ensures listeners == old(listeners)
      ensures var r := CheckedGroup(frame, g, e);
        && !r.Stop? && next == r.next
        && published == old(published)
             + if r.Emit? then Deliveries(listeners, |listeners|, r.reading.tag, r.reading.value) else []
    {
      // each check is settled by CheckCrc, GetField and the Groups lemmas called below, so the definitions stay folded
      hide CheckedGroup, Deliveries, FieldLen, GroupCrcOk, CStr, FindByte, StrNCpy, Checksum, Copied;
      var ok := CheckCrc(frame, g, e);
      if !ok {
        BadChecksumSkips(frame, g, e);
        return g;
      }
      var tagLen := GetField(tagBuf, frame, g, e, MAX_TAG_SIZE);
      if tagLen == 0 || tagLen >= MAX_TAG_SIZE {
        BadTagSkips(frame, g, e);
        return g;
      }
      var finger := g + tagLen + 1;
      var valLen := GetField(valBuf, frame, finger, e, MAX_VAL_SIZE);
      if valLen == 0 || valLen >= MAX_VAL_SIZE {
        BadValueSkips(frame, g, e, tagLen);
        return finger;
      }
      GoodGroupEmits(frame, g, e, tagLen, valLen);
      next := finger + valLen + 1 + 1 + 1;
      var tag := CStr(tagBuf[..]);
      var value := CStr(valBuf[..]);
      PublishValue(tag, value);
    }

    /**
      One round of the frame walk from the cursor `finger`: search `bytes`
      (the frame buffer) for an LF over `window` bytes from the cursor, within
      the buffer; an LF found at or beyond the frame's end, or none, ends the
      walk.  Otherwise search the frame for the CR closing the group after the
      LF (none ends the walk) and decode that group, publishing it if it
      passes its checks.  The result is the cursor for the next round.
     */
    method WalkStep(bytes: seq<byte>, frame: seq<byte>, window: nat, finger: nat) returns (next: Option<nat>)
      requires Valid() && |frame| == bufIndex && |frame| <= |bytes| && frame == bytes[..|frame|]
      requires finger <= |frame| && |frame| - 1 <= window
      modifies this, tagBuf, valBuf
      ensures Valid() && state == old(state) && bufIndex == old(bufIndex) && rx == old(rx)
      ensures listeners == old(listeners)
      ensures next.Some? ==> finger < next.value <= |frame|
      ensures next.None? ==> published == old(published) + DispatchAll(listeners, Walk(frame, finger))
      ensures next.Some? ==>
        published + DispatchAll(listeners, Walk(frame, next.value))
          == old(published) + DispatchAll(listeners, Walk(frame, finger))
    {
      // the round is settled by the search results and the Walk* lemmas called below, so the definitions stay folded
      hide Walk, WalkRound, GroupRound, CheckedGroup, DispatchAll, Deliveries, FindByte;
      var hi := Min(finger + window, |bytes|);
      var lf := Memchr(bytes, finger, hi, LINE_FEED);
      LineFeedSearch(bytes, frame, finger, hi, lf);
      if lf.None? || lf.value >= |frame| {
        DispatchNothing(listeners);
        return None;
      }
      var g := lf.value + 1;
      var grpEnd := Memchr(frame, g, |frame|, CARRIAGE_RETURN);
      CarriageReturnSearch(frame, g, grpEnd);
      if grpEnd.None? {
        WalkStops(frame, finger);
        DispatchNothing(listeners);
        return None;
      }
      ghost var r := CheckedGroup(frame, g, grpEnd.value);
      var cursor := DecodeGroup(frame, g, grpEnd.value);
      if r.Emit? {
        WalkEmits(frame, finger, r.reading, cursor);
        DispatchAllCons(listeners, r.reading, Walk(frame, cursor));
      } else {
        WalkSkips(frame, finger, cursor);
      }
      next := Some(cursor);
    }

    /**
      The END_FRAME_RECEIVED branch of `loop()`: walk the frame buffer group
      by group and publish every group that passes its checks.  Each search
      for an LF covers `bufIndex - 1` bytes from the cursor, within the
      buffer.  The walk only reads the frame buffer, so it reads it as a value.
     */
    method WalkFrame()
      requires Valid()
      modifies this, tagBuf, valBuf
      ensures Valid() && Model() == old(Model()) && listeners == old(listeners)
      ensures published == old(published) + DispatchAll(listeners, Walk(Frame(), 0))
    {
      var bytes := buf[..];
      var frame := bytes[..bufIndex];
      var window := LineFeedWindow(bufIndex);
      var finger: nat := 0;
      ghost var goal := old(published) + DispatchAll(listeners, Walk(frame, 0));
      while true
        invariant Valid() && state == old(state) && bufIndex == old(bufIndex) && rx == old(rx)
        invariant listeners == old(listeners) && |frame| == bufIndex
        invariant finger <= bufIndex
        invariant goal == published + DispatchAll(listeners, Walk(frame, finger))
        decreases bufIndex - finger
      {
        var next := WalkStep(bytes, frame, window, finger);
        if next.None? {
          break;
        }
        finger := next.value;
      }
    }

    /**
      `loop()`: in ON, drop bytes up to the start byte; in
      START_FRAME_RECEIVED, collect bytes up to the end byte; in
      END_FRAME_RECEIVED, walk the frame, publish, and go to OFF; in OFF, do
      nothing.
     */
    method Loop()
      requires Valid()
      modifies this, buf, tagBuf, valBuf
      ensures Valid() && listeners == old(listeners)
      ensures Model() == LoopStep(old(Model()), old(listeners)).0
      ensures published == old(published) + LoopStep(old(Model()), old(listeners)).1
    {
      match state
      case Off =>
      case On =>
        var found := ReadCharsUntil(true, START_FRAME);
        if found {
          state := StartFrameReceived;
        }
      case StartFrameReceived =>
        var found := ReadCharsUntil(false, END_FRAME);
        if found {
          state := EndFrameReceived;
        }
      case EndFrameReceived =>
        WalkFrame();
        state := Off;
    }
  }
}
