/**
  The walk over a completed frame: find each group (LF ... CR), check its
  checksum, extract its TAB-terminated tag and value, and collect the
  readings that pass, exactly as the END_FRAME_RECEIVED branch of the
  decoder's `loop()` does; then the wire encoding of groups and what the
  walk yields on encoded frames.
 */
module Groups {
  import opened Wire
  import opened Crc
  import opened Field
  import opened Listeners

  /** What one round of the frame walk does: stop, skip a group, or publish a reading. */
  datatype Round = Stop | Skip(next: nat) | Emit(reading: Reading, next: nat)

  /**
    One round of the frame walk with the cursor at `finger` in `frame` (the
    frame buffer's used part): find the next LF and handle the group after
    it; without an LF, stop.
   */
  function WalkRound(frame: seq<byte>, finger: nat): (r: Round)
    requires finger <= |frame|
    ensures !r.Stop? ==> finger < r.next <= |frame|
  {
    match FindByte(frame, finger, |frame|, LINE_FEED)
    case None => Stop
    case Some(lf) => GroupRound(frame, lf + 1)
  }

  /** The group starting at `g` (just after its LF) ends at the next CR; without one, stop. */
  function GroupRound(frame: seq<byte>, g: nat): (r: Round)
    requires 0 < g <= |frame|
    ensures !r.Stop? ==> g <= r.next <= |frame|
  {
    match FindByte(frame, g, |frame|, CARRIAGE_RETURN)
    case None => Stop
    case Some(e) => CheckedGroup(frame, g, e)
  }

  /**
    The reading published for a group whose tag field holds `tag` and whose
    value field holds `value`: each field as read back from its
    NUL-terminated copy in the scratch buffers.
   */
  function Received(tag: seq<byte>, value: seq<byte>): Reading
  {
    Reading(CStr(tag), CStr(value))
  }

  /**
    The group `frame[g..e]`, with its CR at `e`.  A group failing the
    checksum test is skipped with the cursor left just after its LF; one
    whose tag is empty or does not fit 16 bytes likewise; one whose value is
    empty or does not fit is skipped with the cursor just after the tag's
    TAB.  A good group yields the C strings of its tag and value, and the
    cursor moves past the value, its TAB, the checksum byte and the CR.
   */
  function CheckedGroup(frame: seq<byte>, g: nat, e: nat): (r: Round)
    requires 0 < g <= e < |frame|
    ensures !r.Stop? ==> g <= r.next <= e + 1
    ensures r.Emit? ==> GroupCrcOk(frame, g, e)
  {
    if !GroupCrcOk(frame, g, e) then Skip(g)
    else
      var tagLen := FieldLen(frame, g, e);
      if tagLen == 0 || tagLen >= MAX_TAG_SIZE then Skip(g)
      else
        var v := g + tagLen + 1;
        var valLen := FieldLen(frame, v, e);
        if valLen == 0 || valLen >= MAX_VAL_SIZE then Skip(v)
        else
          // the group's last byte is its checksum, never a TAB, so the
          // value's TAB is at most e - 2 and the cursor stays in the frame
          assert frame[e - 1] != TAB;
          assert v + valLen < e - 1;
          Emit(Received(frame[g .. g + tagLen], frame[v .. v + valLen]), v + valLen + 3)
  }

  /**
    A published reading fits the 16-byte scratch buffers with room for the
    terminator, and holds no NUL and no TAB.
   */
  lemma EmittedReading(frame: seq<byte>, g: nat, e: nat)
    requires 0 < g <= e < |frame| && CheckedGroup(frame, g, e).Emit?
    ensures var rd := CheckedGroup(frame, g, e).reading;
      && |rd.tag| < MAX_TAG_SIZE && |rd.value| < MAX_VAL_SIZE
      && NUL !in rd.tag && NUL !in rd.value
      && TAB !in rd.tag && TAB !in rd.value
  {
    hide FieldLen, GroupCrcOk, CStr, FindByte, Checksum;
    var tagLen := FieldLen(frame, g, e);
    var v := g + tagLen + 1;
    var valLen := FieldLen(frame, v, e);
    var rd := CheckedGroup(frame, g, e).reading;
    assert rd == Reading(CStr(frame[g .. g + tagLen]), CStr(frame[v .. v + valLen]));
    assert tagLen < MAX_TAG_SIZE && valLen < MAX_VAL_SIZE;
    // the C-string facts come from CStrWithout alone; the lengths were settled above
    hide *;
    CStrWithout(frame[g .. g + tagLen], TAB);
    CStrWithout(frame[v .. v + valLen], TAB);
  }

  /** The readings the frame walk publishes, starting with the cursor at `finger`. */
  function Walk(frame: seq<byte>, finger: nat): seq<Reading>
    requires finger <= |frame|
    decreases |frame| - finger
  {
    match WalkRound(frame, finger)
    case Stop => []
    case Skip(next) => Walk(frame, next)
    case Emit(reading, next) => [reading] + Walk(frame, next)
  }

  /**
    The walk publishes at most one reading per byte after the cursor, and
    every reading fits the scratch buffers and holds no NUL and no TAB.
   */
  lemma {:induction false} WalkReadings(frame: seq<byte>, finger: nat)
    requires finger <= |frame|
    ensures var r := Walk(frame, finger);
      && |r| <= |frame| - finger
      && forall i :: 0 <= i < |r| ==>
           && |r[i].tag| < MAX_TAG_SIZE && |r[i].value| < MAX_VAL_SIZE
           && NUL !in r[i].tag && NUL !in r[i].value
           && TAB !in r[i].tag && TAB !in r[i].value
    decreases |frame| - finger
  {
    hide CheckedGroup;
    match FindByte(frame, finger, |frame|, LINE_FEED)
    case None =>
    case Some(lf) =>
      match FindByte(frame, lf + 1, |frame|, CARRIAGE_RETURN)
      case None =>
      case Some(e) =>
        var r := CheckedGroup(frame, lf + 1, e);
        if r.Emit? {
          EmittedReading(frame, lf + 1, e);
        }
        if !r.Stop? {
          WalkReadings(frame, r.next);
        }
  }

  /** Bytes without LF do not change where the walk goes next. */
  lemma WalkSkip(frame: seq<byte>, a: nat, b: nat)
    requires a <= b <= |frame|
    requires forall k :: a <= k < b ==> frame[k] != LINE_FEED
    ensures Walk(frame, a) == Walk(frame, b)
  {
    FindByteSkip(frame, a, b, |frame|, LINE_FEED);
    assert WalkRound(frame, a) == WalkRound(frame, b);
  }

  /** A frame whose LFs are never followed by a CR publishes nothing. */
  lemma NoCarriageReturnStopsWalk(frame: seq<byte>, finger: nat)
    requires finger <= |frame|
    requires forall k :: finger <= k < |frame| ==> frame[k] != CARRIAGE_RETURN
    ensures Walk(frame, finger) == []
  {
    match FindByte(frame, finger, |frame|, LINE_FEED)
    case None =>
    case Some(lf) =>
      assert FindByte(frame, lf + 1, |frame|, CARRIAGE_RETURN).None?;
  }

  /**
    A walk that finds no LF before the frame's last byte publishes nothing:
    an LF in the last byte opens a group with no room for its CR.  So a
    search for the LF that stops one byte short of the frame's end (as the
    decoder's first search does) leaves the same readings.
   */
  lemma WalkStopsBeforeLastByte(frame: seq<byte>, finger: nat)
    requires finger <= |frame|
    requires forall k :: finger <= k < |frame| - 1 ==> frame[k] != LINE_FEED
    ensures Walk(frame, finger) == []
  {
    match FindByte(frame, finger, |frame|, LINE_FEED)
    case None =>
    case Some(lf) =>
      assert lf == |frame| - 1;
      assert GroupRound(frame, lf + 1) == Stop;
  }

  /** The round at `finger` handles the group after the first LF at or after `finger`. */
  lemma RoundAtLineFeed(frame: seq<byte>, finger: nat, lf: nat)
    requires finger <= lf < |frame| && frame[lf] == LINE_FEED
    requires forall k :: finger <= k < lf ==> frame[k] != LINE_FEED
    ensures WalkRound(frame, finger) == GroupRound(frame, lf + 1)
  {
    FindByteFirst(frame, finger, |frame|, LINE_FEED, lf);
  }

  /**
    The decoder's LF search, run on the whole buffer `bytes` (whose first
    `|frame|` bytes are the frame) over `[finger, hi)` with `hi` reaching at
    least the frame's last byte: finding no LF, or one at or past the frame's
    end, means the walk publishes nothing more; finding one inside the frame
    means the round handles the group after it.
   */
  lemma LineFeedSearch(bytes: seq<byte>, frame: seq<byte>, finger: nat, hi: nat, lf: Option<nat>)
    requires finger <= |frame| <= |bytes| && finger <= hi <= |bytes| && |frame| - 1 <= hi
    requires frame == bytes[..|frame|]
    requires lf == FindByte(bytes, finger, hi, LINE_FEED)
    ensures lf.None? || lf.value >= |frame| ==> Walk(frame, finger) == []
    ensures lf.Some? && lf.value < |frame| ==> WalkRound(frame, finger) == GroupRound(frame, lf.value + 1)
  {
    if lf.None? || lf.value >= |frame| {
      assert forall k :: finger <= k < |frame| - 1 ==> frame[k] == bytes[k];
      WalkStopsBeforeLastByte(frame, finger);
    } else {
      assert forall k :: finger <= k <= lf.value ==> frame[k] == bytes[k];
      RoundAtLineFeed(frame, finger, lf.value);
    }
  }

  /** The decoder's CR search after an LF: none stops the walk, the first one closes the group. */
  lemma CarriageReturnSearch(frame: seq<byte>, g: nat, e: Option<nat>)
    requires 0 < g <= |frame|
    requires e == FindByte(frame, g, |frame|, CARRIAGE_RETURN)
    ensures e.None? ==> GroupRound(frame, g) == Stop
    ensures e.Some? ==> g <= e.value < |frame| && GroupRound(frame, g) == CheckedGroup(frame, g, e.value)
  {
    if e.Some? {
      GroupEndsAtCarriageReturn(frame, g, e.value);
    }
  }

  /** A tag or value as the wire format writes it: no TAB, LF or CR inside. */
  predicate PlainField(s: seq<byte>)
  {
    forall i :: 0 <= i < |s| ==> s[i] != TAB && s[i] != LINE_FEED && s[i] != CARRIAGE_RETURN
  }

  /** One group as sent: its tag, its value and the checksum byte it carries. */
  datatype Group = Group(tag: seq<byte>, value: seq<byte>, crc: byte)

  /** `0x0A tag 0x09 value 0x09 crc 0x0D` */
  function EncodeGroup(grp: Group): seq<byte>
  {
    [LINE_FEED] + grp.tag + [TAB] + grp.value + [TAB, grp.crc, CARRIAGE_RETURN]
  }

  /** The checksum a sender computes: over tag, TAB, value, TAB. */
  function GroupChecksum(tag: seq<byte>, value: seq<byte>): byte
  {
    Checksum(tag + [TAB] + value + [TAB])
  }

  /** A group the decoder publishes: correct checksum, tag and value of 1 to 15 bytes. */
  predicate Accepted(grp: Group)
  {
    && grp.crc == GroupChecksum(grp.tag, grp.value)
    && 0 < |grp.tag| < MAX_TAG_SIZE
    && 0 < |grp.value| < MAX_VAL_SIZE
  }

  /** A group whose fields and checksum byte keep to the wire format's framing. */
  predicate WellFramed(grp: Group)
  {
    PlainField(grp.tag) && PlainField(grp.value)
    && grp.crc != LINE_FEED && grp.crc != CARRIAGE_RETURN
  }

  /** What publishing `grp` delivers, if the decoder accepts it. */
  function Yield(grp: Group): seq<Reading>
  {
    if Accepted(grp) then [Received(grp.tag, grp.value)] else []
  }

  /** `frame` holds the encoded group `grp` from position `p` on. */
  predicate GroupAt(frame: seq<byte>, p: nat, grp: Group)
  {
    var g := p + 1;
    var v := g + |grp.tag| + 1;
    var e := v + |grp.value| + 2;
    && e < |frame|
    && frame[p] == LINE_FEED
    && frame[g .. g + |grp.tag|] == grp.tag
    && frame[g + |grp.tag|] == TAB
    && frame[v .. v + |grp.value|] == grp.value
    && frame[v + |grp.value|] == TAB
    && frame[e - 1] == grp.crc
    && frame[e] == CARRIAGE_RETURN
    && frame[g .. e - 1] == grp.tag + [TAB] + grp.value + [TAB]
  }

  /** Any part of a placed sequence sits at the corresponding place. */
  lemma PlacedSlice(frame: seq<byte>, p: nat, w: seq<byte>, i: nat, j: nat)
    requires p + |w| <= |frame| && frame[p .. p + |w|] == w
    requires i <= j <= |w|
    ensures frame[p + i .. p + j] == w[i .. j]
  {
    forall k | 0 <= k < j - i
      ensures frame[p + i .. p + j][k] == w[i .. j][k]
    {
      assert frame[p .. p + |w|][i + k] == frame[p + i + k];
    }
  }

  /** Where each part of an encoded group sits in its encoding. */
  lemma EncodedParts(grp: Group)
    ensures var enc := EncodeGroup(grp);
      var t := |grp.tag|;
      var n := |grp.value|;
      && |enc| == t + n + 5
      && enc[0] == LINE_FEED && enc[1 + t] == TAB && enc[2 + t + n] == TAB
      && enc[3 + t + n] == grp.crc && enc[4 + t + n] == CARRIAGE_RETURN
      && enc[1 .. 1 + t] == grp.tag && enc[2 + t .. 2 + t + n] == grp.value
      && enc[1 .. 3 + t + n] == grp.tag + [TAB] + grp.value + [TAB]
  {
    var enc := EncodeGroup(grp);
    var t := |grp.tag|;
    var n := |grp.value|;
    assert enc[1 .. 1 + t] == grp.tag;
    assert enc[2 + t .. 2 + t + n] == grp.value;
    assert enc[1 .. 3 + t + n] == grp.tag + [TAB] + grp.value + [TAB];
  }

  /** The bytes of a group placed at `p` sit where the layout says. */
  lemma PlacedLayout(frame: seq<byte>, p: nat, grp: Group)
    requires p + |EncodeGroup(grp)| <= |frame|
    requires frame[p .. p + |EncodeGroup(grp)|] == EncodeGroup(grp)
    ensures |EncodeGroup(grp)| == |grp.tag| + |grp.value| + 5
    ensures GroupAt(frame, p, grp)
  {
    EncodedParts(grp);
    hide EncodeGroup;
    var enc := EncodeGroup(grp);
    var t := |grp.tag|;
    var n := |grp.value|;
    assert frame[p + 1 .. p + 1 + t] == grp.tag by {
      PlacedSlice(frame, p, enc, 1, 1 + t);
    }
    assert frame[p + 2 + t .. p + 2 + t + n] == grp.value by {
      PlacedSlice(frame, p, enc, 2 + t, 2 + t + n);
    }
    assert frame[p + 1 .. p + 3 + t + n] == grp.tag + [TAB] + grp.value + [TAB] by {
      PlacedSlice(frame, p, enc, 1, 3 + t + n);
    }
    assert frame[p] == LINE_FEED by {
      assert frame[p .. p + |enc|][0] == frame[p];
    }
    assert frame[p + 1 + t] == TAB by {
      assert frame[p .. p + |enc|][1 + t] == frame[p + 1 + t];
    }
    assert frame[p + 2 + t + n] == TAB by {
      assert frame[p .. p + |enc|][2 + t + n] == frame[p + 2 + t + n];
    }
    assert frame[p + 3 + t + n] == grp.crc by {
      assert frame[p .. p + |enc|][3 + t + n] == frame[p + 3 + t + n];
    }
    assert frame[p + 4 + t + n] == CARRIAGE_RETURN by {
      assert frame[p .. p + |enc|][4 + t + n] == frame[p + 4 + t + n];
    }
  }

  /** The first TAB at or after `start` closes a TAB-free field that is followed by a TAB. */
  lemma FieldLenOfPlain(frame: seq<byte>, start: nat, field: seq<byte>, end: nat)
    requires start + |field| < end <= |frame|
    requires frame[start .. start + |field|] == field
    requires frame[start + |field|] == TAB
    requires forall i :: 0 <= i < |field| ==> field[i] != TAB
    ensures FieldLen(frame, start, end) == |field|
  {
    forall k | start <= k < start + |field|
      ensures frame[k] != TAB
    {
      assert frame[k] == frame[start .. start + |field|][k - start];
    }
  }

  /** No byte of a plain field placed at `start` is an LF or a CR. */
  lemma PlainFieldBytes(frame: seq<byte>, start: nat, field: seq<byte>)
    requires start + |field| <= |frame|
    requires frame[start .. start + |field|] == field
    requires PlainField(field)
    ensures forall k :: start <= k < start + |field| ==> frame[k] != LINE_FEED && frame[k] != CARRIAGE_RETURN
  {
    forall k | start <= k < start + |field|
      ensures frame[k] != LINE_FEED && frame[k] != CARRIAGE_RETURN
    {
      assert frame[k] == frame[start .. start + |field|][k - start];
    }
  }

  /** A group runs to the first CR after its LF. */
  lemma GroupEndsAtCarriageReturn(frame: seq<byte>, g: nat, e: nat)
    requires 0 < g <= e < |frame| && frame[e] == CARRIAGE_RETURN
    requires forall k :: g <= k < e ==> frame[k] != CARRIAGE_RETURN
    ensures GroupRound(frame, g) == CheckedGroup(frame, g, e)
  {
    assert FindByte(frame, g, |frame|, CARRIAGE_RETURN) == Some(e);
  }

  /** After the LF of a placed group there is no LF up to its CR, and the first CR is the group's own. */
  lemma EncodedSearch(frame: seq<byte>, p: nat, grp: Group)
    requires GroupAt(frame, p, grp) && WellFramed(grp)
    ensures var g := p + 1;
      var e := g + |grp.tag| + |grp.value| + 3;
      && (forall k :: g <= k <= e ==> frame[k] != LINE_FEED)
      && WalkRound(frame, p) == CheckedGroup(frame, g, e)
  {
    var g := p + 1;
    var tagTab := g + |grp.tag|;
    var v := tagTab + 1;
    var valTab := v + |grp.value|;
    var e := valTab + 2;
    hide WalkRound, GroupRound, CheckedGroup;
    assert forall k :: g <= k <= e ==> frame[k] != LINE_FEED && (k == e || frame[k] != CARRIAGE_RETURN) by {
      PlainFieldBytes(frame, g, grp.tag);
      PlainFieldBytes(frame, v, grp.value);
    }
    RoundAtLineFeed(frame, p, p);
    GroupEndsAtCarriageReturn(frame, g, e);
  }

  /**
    The round on a group whose tag and value fields (each closed by a TAB)
    are known: it publishes them exactly when the checksum matches and both
    have 1 to 15 bytes, and otherwise skips the group.
   */
  lemma CheckedGroupOutcome(frame: seq<byte>, g: nat, e: nat, tag: seq<byte>, value: seq<byte>)
    requires 0 < g && g + |tag| + |value| + 3 == e < |frame|
    requires FieldLen(frame, g, e) == |tag|
    requires FieldLen(frame, g + |tag| + 1, e) == |value|
    requires frame[g .. g + |tag|] == tag
    requires frame[g + |tag| + 1 .. g + |tag| + 1 + |value|] == value
    ensures GroupCrcOk(frame, g, e) && 0 < |tag| < MAX_TAG_SIZE && 0 < |value| < MAX_VAL_SIZE ==>
      CheckedGroup(frame, g, e) == Emit(Received(tag, value), e + 1)
    ensures !(GroupCrcOk(frame, g, e) && 0 < |tag| < MAX_TAG_SIZE && 0 < |value| < MAX_VAL_SIZE) ==>
      CheckedGroup(frame, g, e).Skip? && g <= CheckedGroup(frame, g, e).next <= e
  {
    // each outcome follows from the per-check lemmas called below, so the definitions stay folded
    hide CheckedGroup, Received, FieldLen, GroupCrcOk, CStr, FindByte, Checksum;
    if GroupCrcOk(frame, g, e) && 0 < |tag| < MAX_TAG_SIZE && 0 < |value| < MAX_VAL_SIZE {
      CheckedGroupEmits(frame, g, e, |tag|, |value|);
    } else {
      CheckedGroupSkips(frame, g, e);
    }
  }

  /** A group failing the checksum test is skipped, the cursor staying just after its LF. */
  lemma BadChecksumSkips(frame: seq<byte>, g: nat, e: nat)
    requires 0 < g <= e < |frame| && !GroupCrcOk(frame, g, e)
    ensures CheckedGroup(frame, g, e) == Skip(g)
  {
  }

  /** A group with an empty or oversized tag is skipped, the cursor staying just after its LF. */
  lemma BadTagSkips(frame: seq<byte>, g: nat, e: nat)
    requires 0 < g <= e < |frame| && GroupCrcOk(frame, g, e)
    requires FieldLen(frame, g, e) == 0 || FieldLen(frame, g, e) >= MAX_TAG_SIZE
    ensures CheckedGroup(frame, g, e) == Skip(g)
  {
  }

  /** A group with an empty or oversized value is skipped, the cursor left just after the tag's TAB. */
  lemma BadValueSkips(frame: seq<byte>, g: nat, e: nat, tagLen: nat)
    requires 0 < g <= e < |frame| && GroupCrcOk(frame, g, e)
    requires FieldLen(frame, g, e) == tagLen && 0 < tagLen < MAX_TAG_SIZE
    requires FieldLen(frame, g + tagLen + 1, e) == 0 || FieldLen(frame, g + tagLen + 1, e) >= MAX_VAL_SIZE
    ensures CheckedGroup(frame, g, e) == Skip(g + tagLen + 1)
  {
  }

  /**
    A group passing all three checks is published with the C strings of its
    tag and value, and the cursor moves past the value, its TAB, the
    checksum byte and the CR.
   */
  lemma GoodGroupEmits(frame: seq<byte>, g: nat, e: nat, tagLen: nat, valLen: nat)
    requires 0 < g <= e < |frame| && GroupCrcOk(frame, g, e)
    requires FieldLen(frame, g, e) == tagLen && 0 < tagLen < MAX_TAG_SIZE
    requires FieldLen(frame, g + tagLen + 1, e) == valLen && 0 < valLen < MAX_VAL_SIZE
    ensures g + tagLen + 1 + valLen <= e
    ensures CheckedGroup(frame, g, e)
         == Emit(Received(frame[g .. g + tagLen], frame[g + tagLen + 1 .. g + tagLen + 1 + valLen]), g + tagLen + valLen + 4)
  {
    hide Received, FieldLen, CStr, FindByte, Checksum, StrNCpy;
  }

  /** A group passing all checks is published with the C strings of its fields. */
  lemma CheckedGroupEmits(frame: seq<byte>, g: nat, e: nat, tagLen: nat, valLen: nat)
    requires 0 < g && g + tagLen + valLen + 3 == e < |frame|
    requires FieldLen(frame, g, e) == tagLen && 0 < tagLen < MAX_TAG_SIZE
    requires FieldLen(frame, g + tagLen + 1, e) == valLen && 0 < valLen < MAX_VAL_SIZE
    requires GroupCrcOk(frame, g, e)
    ensures CheckedGroup(frame, g, e)
         == Emit(Received(frame[g .. g + tagLen], frame[g + tagLen + 1 .. g + tagLen + 1 + valLen]), e + 1)
  {
    hide Received, FieldLen, GroupCrcOk, CStr, FindByte;
  }

  /** A group failing a check is skipped, the cursor staying inside it. */
  lemma CheckedGroupSkips(frame: seq<byte>, g: nat, e: nat)
    requires 0 < g <= e < |frame|
    requires var tagLen := FieldLen(frame, g, e);
      || !GroupCrcOk(frame, g, e)
      || tagLen == 0 || tagLen >= MAX_TAG_SIZE
      || var valLen := FieldLen(frame, g + tagLen + 1, e); valLen == 0 || valLen >= MAX_VAL_SIZE
    ensures CheckedGroup(frame, g, e).Skip? && g <= CheckedGroup(frame, g, e).next <= e
  {
    hide Received, FieldLen, GroupCrcOk, CStr, FindByte;
  }

  /** A placed group's fields are found where they were put, and its checksum test compares against the sender's checksum. */
  lemma EncodedFields(frame: seq<byte>, p: nat, grp: Group)
    requires GroupAt(frame, p, grp) && WellFramed(grp)
    ensures var g := p + 1;
      var e := g + |grp.tag| + |grp.value| + 3;
      && FieldLen(frame, g, e) == |grp.tag|
      && FieldLen(frame, g + |grp.tag| + 1, e) == |grp.value|
      && GroupCrcOk(frame, g, e) == (grp.crc == GroupChecksum(grp.tag, grp.value))
  {
    var g := p + 1;
    var v := g + |grp.tag| + 1;
    var e := v + |grp.value| + 2;
    FieldLenOfPlain(frame, g, grp.tag, e);
    FieldLenOfPlain(frame, v, grp.value, e);
    assert Covered(e - g, CHECKSUM_AREA_END) == e - 1 - g;
    assert frame[g .. g + (e - 1 - g)] == grp.tag + [TAB] + grp.value + [TAB];
  }

  /**
    The checks on a placed group: the decoder accepts it exactly when
    `Accepted` holds, publishing its tag's and value's C strings and moving
    past its CR; otherwise it skips it, with the cursor inside the group.
   */
  lemma EncodedCheck(frame: seq<byte>, p: nat, grp: Group)
    requires GroupAt(frame, p, grp) && WellFramed(grp)
    ensures var g := p + 1;
      var e := g + |grp.tag| + |grp.value| + 3;
      var r := CheckedGroup(frame, g, e);
      && (Accepted(grp) ==> r == Emit(Received(grp.tag, grp.value), e + 1))
      && (!Accepted(grp) ==> r.Skip? && g <= r.next <= e)
  {
    var g := p + 1;
    var e := g + |grp.tag| + |grp.value| + 3;
    hide Received, CheckedGroup, FieldLen, CStr, GroupCrcOk;
    EncodedFields(frame, p, grp);
    CheckedGroupOutcome(frame, g, e, grp.tag, grp.value);
  }

  /** A round that publishes a reading puts it first in the walk. */
  lemma WalkEmits(frame: seq<byte>, p: nat, reading: Reading, next: nat)
    requires p <= |frame| && WalkRound(frame, p) == Emit(reading, next)
    ensures Walk(frame, p) == [reading] + Walk(frame, next)
  {
  }

  /** A round that stops ends the walk. */
  lemma WalkStops(frame: seq<byte>, p: nat)
    requires p <= |frame| && WalkRound(frame, p) == Stop
    ensures Walk(frame, p) == []
  {
  }

  /** A round that skips a group leaves the walk to go on from the new cursor. */
  lemma WalkSkips(frame: seq<byte>, p: nat, next: nat)
    requires p <= |frame| && WalkRound(frame, p) == Skip(next)
    ensures Walk(frame, p) == Walk(frame, next)
  {
  }

  /**
    What the round at `p` does for a group ending before `next`: publish `y`'s
    single reading and move to `next`, or publish nothing (`y` empty) and
    move to a point before `next` with no LF in between.
   */
  predicate RoundYields(frame: seq<byte>, p: nat, next: nat, y: seq<Reading>)
    requires p <= |frame|
  {
    var r := WalkRound(frame, p);
    || (r.Emit? && y == [r.reading] && r.next == next)
    || (r.Skip? && y == [] && r.next <= next <= |frame|
        && forall k :: r.next <= k < next ==> frame[k] != LINE_FEED)
  }

  /** A round that yields `y` up to `next` puts `y` first in the walk, which goes on from `next`. */
  lemma RoundStep(frame: seq<byte>, p: nat, next: nat, y: seq<Reading>)
    requires p <= |frame| && RoundYields(frame, p, next, y)
    ensures next <= |frame| && Walk(frame, p) == y + Walk(frame, next)
  {
    var r := WalkRound(frame, p);
    if r.Emit? {
      WalkEmits(frame, p, r.reading, r.next);
    } else {
      WalkSkips(frame, p, r.next);
      WalkSkip(frame, r.next, next);
    }
  }

  /**
    At the LF of a placed group the round publishes the group's reading if
    the decoder accepts it and nothing otherwise, and the walk can go on
    right after the group's CR.
   */
  lemma PlacedRound(frame: seq<byte>, p: nat, grp: Group)
    requires p + |EncodeGroup(grp)| <= |frame|
    requires frame[p .. p + |EncodeGroup(grp)|] == EncodeGroup(grp)
    requires WellFramed(grp)
    ensures RoundYields(frame, p, p + |EncodeGroup(grp)|, Yield(grp))
  {
    PlacedLayout(frame, p, grp);
    EncodedSearch(frame, p, grp);
    EncodedCheck(frame, p, grp);
  }

  /**
    The group theorem: at the LF of an encoded group the walk yields the
    group's reading if the decoder accepts it (checksum correct, tag and
    value 1 to 15 bytes) and nothing otherwise, and goes on right after the
    group's CR.
   */
  lemma GroupStep(frame: seq<byte>, p: nat, grp: Group)
    requires p + |EncodeGroup(grp)| <= |frame|
    requires frame[p .. p + |EncodeGroup(grp)|] == EncodeGroup(grp)
    requires WellFramed(grp)
    ensures Walk(frame, p) == Yield(grp) + Walk(frame, p + |EncodeGroup(grp)|)
  {
    // the step is PlacedRound followed by RoundStep; no definition needs opening
    hide *;
    PlacedRound(frame, p, grp);
    RoundStep(frame, p, p + |EncodeGroup(grp)|, Yield(grp));
  }

  /** The bytes of a frame's groups, back to back. */
  function EncodeFrame(groups: seq<Group>): seq<byte>
  {
    if groups == [] then [] else EncodeGroup(groups[0]) + EncodeFrame(groups[1..])
  }

  /** The readings of the accepted groups, in frame order. */
  function Expected(groups: seq<Group>): seq<Reading>
  {
    if groups == [] then [] else Yield(groups[0]) + Expected(groups[1..])
  }

  /** A placed concatenation splits into its two placed parts. */
  lemma PlacedSplit(frame: seq<byte>, p: nat, a: seq<byte>, b: seq<byte>)
    requires p + |a| + |b| <= |frame|
    requires frame[p .. p + |a| + |b|] == a + b
    ensures frame[p .. p + |a|] == a
    ensures frame[p + |a| .. p + |a| + |b|] == b
  {
    assert frame[p .. p + |a|] == frame[p .. p + |a| + |b|][.. |a|];
    assert frame[p + |a| .. p + |a| + |b|] == frame[p .. p + |a| + |b|][|a| ..];
  }

  /** The walk has nothing left to publish once the cursor is at the end of the frame. */
  lemma WalkAtEnd(frame: seq<byte>)
    ensures Walk(frame, |frame|) == []
  {
  }

  /** Walking over placed encoded groups yields the expected readings, then goes on after them. */
  lemma {:induction false} WalkEncoded(frame: seq<byte>, p: nat, groups: seq<Group>)
    requires p + |EncodeFrame(groups)| <= |frame|
    requires frame[p .. p + |EncodeFrame(groups)|] == EncodeFrame(groups)
    requires forall i :: 0 <= i < |groups| ==> WellFramed(groups[i])
    ensures Walk(frame, p) == Expected(groups) + Walk(frame, p + |EncodeFrame(groups)|)
    decreases |groups|
  {
    hide Walk, WalkRound, GroupRound, CheckedGroup, Yield;
    if groups != [] {
      var enc := EncodeGroup(groups[0]);
      var rest := EncodeFrame(groups[1..]);
      PlacedSplit(frame, p, enc, rest);
      GroupStep(frame, p, groups[0]);
      WalkEncoded(frame, p + |enc|, groups[1..]);
      assert Expected(groups) == Yield(groups[0]) + Expected(groups[1..]);
    }
  }

  /**
    The frame theorem: walking a frame made of well-framed groups publishes
    the readings of exactly the accepted groups, in order.  A corrupted or
    oversized group costs only its own reading.
   */
  lemma FrameWalk(groups: seq<Group>)
    requires forall i :: 0 <= i < |groups| ==> WellFramed(groups[i])
    ensures Walk(EncodeFrame(groups), 0) == Expected(groups)
  {
    var frame := EncodeFrame(groups);
    assert frame[0 .. |frame|] == frame;
    WalkEncoded(frame, 0, groups);
    WalkAtEnd(frame);
  }

  /** A group the sender encodes correctly, with fields free of NUL bytes. */
  predicate Sendable(grp: Group)
  {
    WellFramed(grp) && Accepted(grp) && NUL !in grp.tag && NUL !in grp.value
  }

  /** Correctly sent groups free of NUL bytes are each published as exactly their tag and value. */
  lemma {:induction false} ExpectedSendable(groups: seq<Group>)
    requires forall i :: 0 <= i < |groups| ==> Sendable(groups[i])
    ensures |Expected(groups)| == |groups|
    ensures forall i :: 0 <= i < |groups| ==>
      Expected(groups)[i] == Reading(groups[i].tag, groups[i].value)
  {
    if groups != [] {
      CStrNoNul(groups[0].tag);
      CStrNoNul(groups[0].value);
      ExpectedSendable(groups[1..]);
    }
  }

  /**
    Round trip: a frame of N correctly encoded groups yields exactly N
    readings, the i-th being the i-th group's (tag, value).
   */
  lemma RoundTrip(groups: seq<Group>)
    requires forall i :: 0 <= i < |groups| ==> Sendable(groups[i])
    ensures var r := Walk(EncodeFrame(groups), 0);
      |r| == |groups| && forall i :: 0 <= i < |groups| ==> r[i] == Reading(groups[i].tag, groups[i].value)
  {
    FrameWalk(groups);
    ExpectedSendable(groups);
  }

  /** A single correctly encoded group yields exactly its (tag, value). */
  lemma GroupRoundTrip(tag: seq<byte>, value: seq<byte>)
    requires PlainField(tag) && PlainField(value) && NUL !in tag && NUL !in value
    requires 0 < |tag| < MAX_TAG_SIZE && 0 < |value| < MAX_VAL_SIZE
    ensures Walk(EncodeGroup(Group(tag, value, GroupChecksum(tag, value))), 0) == [Reading(tag, value)]
  {
    var grp := Group(tag, value, GroupChecksum(tag, value));
    var frame := EncodeGroup(grp);
    assert frame[0 .. |frame|] == frame;
    GroupStep(frame, 0, grp);
    WalkAtEnd(frame);
    CStrNoNul(tag);
    CStrNoNul(value);
  }
}
