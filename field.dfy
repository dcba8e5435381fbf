/**
  Field extraction: the `memchr` search the decoder relies on, the
  TAB-delimited `get_field`, and the C-string conventions (`strncpy` into a
  fixed buffer, then reading it back up to its first NUL) that decide which
  bytes a listener finally receives.
 */
module Field {
  import opened Wire

  /** Position of the first `b` in `s[lo..hi]`, if any (what `memchr` answers). */
  function FindByte(s: seq<byte>, lo: nat, hi: nat, b: byte): (r: Option<nat>)
    requires lo <= hi <= |s|
    decreases hi - lo
    ensures r.Some? ==> lo <= r.value < hi && s[r.value] == b
    ensures r.Some? ==> forall k :: lo <= k < r.value ==> s[k] != b
    ensures r.None? ==> forall k :: lo <= k < hi ==> s[k] != b
  {
    if lo == hi then None
    else if s[lo] == b then Some(lo)
    else FindByte(s, lo + 1, hi, b)
  }

  /** A search may start anywhere before the first `b`: skipping bytes that are not `b` changes nothing. */
  lemma {:induction false} FindByteSkip(s: seq<byte>, lo: nat, mid: nat, hi: nat, b: byte)
    requires lo <= mid <= hi <= |s|
    requires forall k :: lo <= k < mid ==> s[k] != b
    ensures FindByte(s, lo, hi, b) == FindByte(s, mid, hi, b)
    decreases mid - lo
  {
    if lo < mid {
      FindByteSkip(s, lo + 1, mid, hi, b);
    }
  }

  /** A `b` with no `b` before it in the searched range is what the search finds. */
  lemma FindByteFirst(s: seq<byte>, lo: nat, hi: nat, b: byte, p: nat)
    requires lo <= p < hi <= |s| && s[p] == b
    requires forall k :: lo <= k < p ==> s[k] != b
    ensures FindByte(s, lo, hi, b) == Some(p)
  {
  }

  /**
    `memchr`: scan `s[lo..hi]` for the byte `b` and report the first
    position holding it, or none.
   */
  method Memchr(s: seq<byte>, lo: nat, hi: nat, b: byte) returns (p: Option<nat>)
    requires lo <= hi <= |s|
    ensures p == FindByte(s, lo, hi, b)
  {
    var i := lo;
    while i < hi && s[i] != b
      invariant lo <= i <= hi
      invariant FindByte(s, lo, hi, b) == FindByte(s, i, hi, b)
    {
      i := i + 1;
    }
    p := if i < hi then Some(i) else None;
  }

  /**
    The length `get_field` reports for the field starting at `start` inside
    `[start, end)`: the distance to the first TAB, or 0 when there is none.
    A TAB at `start` itself also gives 0, so 0 means "no usable field".
   */
  function FieldLen(s: seq<byte>, start: nat, end: nat): (len: nat)
    requires start <= end <= |s|
    ensures len > 0 ==> start + len < end && s[start + len] == TAB
    ensures forall k :: start <= k < start + len ==> s[k] != TAB
    ensures len == 0 <==> (forall k :: start <= k < end ==> s[k] != TAB) || (start < end && s[start] == TAB)
  {
    match FindByte(s, start, end, TAB)
    case None => 0
    case Some(p) => p - start
  }

  /** The C string held by `s`: its bytes up to (excluding) the first NUL. */
  function CStr(s: seq<byte>): (r: seq<byte>)
    ensures |r| <= |s| && r == s[..|r|]
    ensures NUL !in r
    ensures |r| == |s| || s[|r|] == NUL
  {
    if |s| == 0 || s[0] == NUL then [] else [s[0]] + CStr(s[1..])
  }

  /** A byte sequence with a NUL at `n` and none before it holds the C string `s[..n]`. */
  lemma CStrAt(s: seq<byte>, n: nat)
    requires n <= |s|
    requires n == |s| || s[n] == NUL
    requires NUL !in s[..n]
    ensures CStr(s) == s[..n]
  {
    var r := CStr(s);
  }

  /** The C string of bytes that avoid `b` avoids `b` too. */
  lemma CStrWithout(s: seq<byte>, b: byte)
    requires forall k :: 0 <= k < |s| ==> s[k] != b
    ensures b !in CStr(s) && |CStr(s)| <= |s| && NUL !in CStr(s)
  {
    var r := CStr(s);
    assert forall k :: 0 <= k < |r| ==> r[k] == s[k];
  }

  /** A field without NUL bytes reads back as itself. */
  lemma CStrNoNul(s: seq<byte>)
    requires NUL !in s
    ensures CStr(s) == s
  {
    CStrAt(s, |s|);
  }

  /**
    What `strncpy(dest, field, |field|)` leaves in `dest[0..|field|)`: the
    C string of `field`, padded with NULs to the field's length.
   */
  function StrNCpy(field: seq<byte>): (r: seq<byte>)
    ensures |r| == |field|
    ensures forall k :: 0 <= k < |field| ==> r[k] == if k < |CStr(field)| then field[k] else NUL
  {
    CStr(field) + seq(|field| - |CStr(field)|, _ => NUL)
  }

  /** Copying a field with `strncpy` and terminating it keeps its C string. */
  lemma StrNCpyKeepsCStr(field: seq<byte>, rest: seq<byte>)
    ensures CStr(StrNCpy(field) + [NUL] + rest) == CStr(field)
  {
    var s := StrNCpy(field) + [NUL] + rest;
    var n := |CStr(field)|;
    assert s[..n] == CStr(field);
    CStrAt(s, n);
  }

  /** `strncpy`: copy `src[start..start + n]` into `dest[0..n)` up to its first NUL, then pad with NULs. */
  method StrNCopy(dest: array<byte>, src: seq<byte>, start: nat, n: nat)
    requires start + n <= |src| && n <= dest.Length
    modifies dest
    ensures dest[..n] == StrNCpy(src[start..start + n])
    ensures dest[n..] == old(dest[n..])
  {
    hide CStr, StrNCpy;
    ghost var field := src[start..start + n];
    var i := 0;
    while i < n && src[start + i] != NUL
      invariant 0 <= i <= n
      invariant forall k :: 0 <= k < i ==> dest[k] == src[start + k]
      invariant forall k :: start <= k < start + i ==> src[k] != NUL
      invariant dest[n..] == old(dest[n..])
    {
      dest[i] := src[start + i];
      i := i + 1;
    }
    assert field[..i] == src[start..start + i];
    assert i < n ==> field[i] == src[start + i];
    CStrAt(field, i);
    assert |CStr(field)| == i;
    var j := i;
    while j < n
      invariant i <= j <= n
      invariant forall k :: 0 <= k < i ==> dest[k] == src[start + k]
      invariant forall k :: i <= k < j ==> dest[k] == NUL
      invariant dest[n..] == old(dest[n..])
    {
      dest[j] := NUL;
      j := j + 1;
    }
    assert forall k :: 0 <= k < n ==> dest[..n][k] == StrNCpy(field)[k];
  }

  /**
    `after` is `before` with the field `field` copied in by `strncpy` and
    terminated by a NUL.
   */
  predicate Copied(after: seq<byte>, before: seq<byte>, field: seq<byte>)
  {
    && |after| == |before| && |field| < |after|
    && after[..|field| + 1] == StrNCpy(field) + [NUL]
    && after[|field| + 1..] == before[|field| + 1..]
  }

  /** A copied and terminated field reads back as the field's C string. */
  lemma CopiedCStr(after: seq<byte>, before: seq<byte>, field: seq<byte>)
    requires Copied(after, before, field)
    ensures CStr(after) == CStr(field)
  {
    assert after == StrNCpy(field) + [NUL] + after[|field| + 1..];
    StrNCpyKeepsCStr(field, after[|field| + 1..]);
  }

  /**
    `get_field`: find the first TAB in `src[start..end]`.  With no TAB, report
    0 and leave `dest` alone.  When the field is too long for `dest`
    (`len >= maxLen`), report its length and leave `dest` alone.  Otherwise
    `strncpy` the field into `dest`, terminate it with a NUL, and report its
    length; `dest` then holds the field's C string.
   */
  method GetField(dest: array<byte>, src: seq<byte>, start: nat, end: nat, maxLen: nat)
    returns (len: nat)
    requires start <= end <= |src|
    requires maxLen <= dest.Length
    modifies dest
    ensures len == FieldLen(src, start, end)
    ensures var copied := len < maxLen && (len > 0 || (start < end && src[start] == TAB));
      && (copied ==> Copied(dest[..], old(dest[..]), src[start..start + len]))
      && (copied ==> CStr(dest[..]) == CStr(src[start..start + len]))
      && (!copied ==> dest[..] == old(dest[..]))
  {
    hide FindByte, StrNCpy, CStr;
    var fieldEnd := Memchr(src, start, end, TAB);
    if fieldEnd.None? {
      return 0;
    }
    len := fieldEnd.value - start;
    if len >= maxLen {
      return len;
    }
    StrNCopy(dest, src, start, len);
    dest[len] := NUL;
    assert Copied(dest[..], old(dest[..]), src[start..start + len]);
    CopiedCStr(dest[..], old(dest[..]), src[start..start + len]);
  }
}
