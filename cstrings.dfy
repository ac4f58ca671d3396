/** Models of the C library routines the connection handler leans on:
    character search (strchr, strrchr), the cursor walk of strsep, suffix
    comparison, the NUL terminator of a received buffer and printf's "%d"
    applied to an (int) cast. Strings are sequences of chars; a C pointer
    into the request buffer is modelled by the suffix of the buffer it
    points at (see Cursor). */
module CStrings {

  datatype Option<+T> = None | Some(value: T)

  /** strsep's cursor: the part of the buffer the pointer still points at, or NULL (None)
      once strsep has handed out the last token. */
  type Cursor = Option<string>

  /** Index of the first `c` in `s` at or after `from` (strchr on `s + from`). */
  function IndexOf(s: string, c: char, from: nat): (r: Option<nat>)
    requires from <= |s|
    ensures r.Some? ==> from <= r.value < |s| && s[r.value] == c
    decreases |s| - from
  {
    if from == |s| then None
    else if s[from] == c then Some(from)
    else IndexOf(s, c, from + 1)
  }

  /** The first `c` at or after `from` is at `k`. */
  lemma {:induction false} FirstAt(s: string, c: char, from: nat, k: nat)
    requires from <= k < |s| && s[k] == c
    requires c !in s[from..k]
    ensures IndexOf(s, c, from) == Some(k)
    decreases k - from
  {
    if from < k {
      assert s[from] == s[from..k][0];
      assert s[from + 1..k] == s[from..k][1..];
      FirstAt(s, c, from + 1, k);
    }
  }

  /** There is no `c` at or after `from`. */
  lemma {:induction false} NoneFrom(s: string, c: char, from: nat)
    requires from <= |s| && c !in s[from..]
    ensures IndexOf(s, c, from) == None
    decreases |s| - from
  {
    if from < |s| {
      assert s[from] == s[from..][0];
      assert s[from + 1..] == s[from..][1..];
      NoneFrom(s, c, from + 1);
    }
  }

  /** IndexOf finds the first `c`: there is none before the hit, and none at all when it
      reports None. */
  lemma {:induction false} IndexOfFirst(s: string, c: char, from: nat)
    requires from <= |s|
    ensures IndexOf(s, c, from).Some? ==> forall x :: from <= x < IndexOf(s, c, from).value ==> s[x] != c
    ensures IndexOf(s, c, from).None? ==> forall x :: from <= x < |s| ==> s[x] != c
    decreases |s| - from
  {
    if from < |s| && s[from] != c {
      IndexOfFirst(s, c, from + 1);
    }
  }

  /** The same, on slices. */
  lemma IndexOfSlices(s: string, c: char, from: nat)
    requires from <= |s|
    ensures IndexOf(s, c, from).Some? ==> c !in s[from..IndexOf(s, c, from).value]
    ensures IndexOf(s, c, from).None? ==> c !in s[from..]
  {
    IndexOfFirst(s, c, from);
  }

  /** One call of strsep(&cursor, delim): the token it returns and where the cursor is left. */
  datatype Split = Split(token: Option<string>, rest: Cursor)

  /** strsep with a one-character delimiter set: the token runs from the cursor up to the
      first delimiter, which is cut out, and the cursor moves past it; without one, the
      token is the rest of the buffer and the cursor becomes NULL; a NULL cursor yields a
      NULL token. */
  function Strsep(cur: Cursor, delim: char): (r: Split)
    ensures cur.None? <==> r.token.None?
    ensures cur.None? ==> r.rest.None?
    ensures r.rest.Some? ==> cur == Some(r.token.value + ([delim] + r.rest.value))
    ensures cur.Some? && r.rest.None? ==> r.token == cur
  {
    match cur
    case None => Split(None, None)
    case Some(t) =>
      match IndexOf(t, delim, 0)
      case None => Split(Some(t), None)
      case Some(e) =>
        assert t == t[..e] + ([delim] + t[e + 1..]);
        Split(Some(t[..e]), Some(t[e + 1..]))
  }

  /** The token never holds the delimiter: strsep cuts at the first one. */
  lemma StrsepTokenFree(cur: Cursor, delim: char)
    ensures Strsep(cur, delim).token.Some? ==> delim !in Strsep(cur, delim).token.value
  {
    if cur.Some? {
      IndexOfSlices(cur.value, delim, 0);
      assert cur.value[0..] == cur.value;
    }
  }

  /** strsep on a piece free of the delimiter, the delimiter and a tail. */
  lemma StrsepCut(piece: string, delim: char, tail: string)
    requires delim !in piece
    ensures Strsep(Some(piece + ([delim] + tail)), delim) == Split(Some(piece), Some(tail))
  {
    var t := piece + ([delim] + tail);
    assert t[0..|piece|] == piece;
    FirstAt(t, delim, 0, |piece|);
    assert t[..|piece|] == piece && t[|piece| + 1..] == tail;
  }

  /** strsep on a buffer without the delimiter hands out all of it. */
  lemma StrsepWhole(t: string, delim: char)
    requires delim !in t
    ensures Strsep(Some(t), delim) == Split(Some(t), None)
  {
    assert t[0..] == t;
    NoneFrom(t, delim, 0);
  }

  /** Index of the last `c` in `s` (strrchr), None when there is none. */
  function LastIndexOf(s: string, c: char): (r: Option<nat>)
    ensures r.None? <==> c !in s
    ensures r.Some? ==> r.value < |s| && s[r.value] == c && c !in s[r.value + 1..]
  {
    if |s| == 0 then None
    else if s[|s| - 1] == c then Some(|s| - 1)
    else
      var r := LastIndexOf(s[..|s| - 1], c);
      assert s == s[..|s| - 1] + [s[|s| - 1]];
      if r.Some? then
        assert s[r.value + 1..] == s[..|s| - 1][r.value + 1..] + [s[|s| - 1]];
        r
      else r
  }

  predicate EndsWith(s: string, suffix: string) {
    |suffix| <= |s| && s[|s| - |suffix|..] == suffix
  }

  /** The string the C code sees in a received buffer: everything before the first NUL. */
  function CStr(buf: string): (r: string)
    ensures '\0' !in r
    ensures r <= buf
    ensures |r| < |buf| ==> buf[|r|] == '\0'
  {
    IndexOfSlices(buf, '\0', 0);
    match IndexOf(buf, '\0', 0)
    case None => buf
    case Some(k) => buf[..k]
  }

  /** A buffer without a NUL is read whole. */
  lemma CStrWhole(buf: string)
    requires '\0' !in buf
    ensures CStr(buf) == buf
  {
    assert buf[0..] == buf;
    NoneFrom(buf, '\0', 0);
  }

  predicate IsDigit(c: char) {
    '0' <= c <= '9'
  }

  predicate AllDigits(s: string) {
    forall i :: 0 <= i < |s| ==> IsDigit(s[i])
  }

  function DigitChar(d: nat): (c: char)
    requires d < 10
    ensures IsDigit(c) && (c as int) - ('0' as int) == d
  {
    (('0' as int) + d) as char
  }

  /** The value of a string of decimal digits (what a client reads from Content-length). */
  function ParseDecimal(s: string): nat
    requires AllDigits(s)
  {
    if |s| == 0 then 0
    else 10 * ParseDecimal(s[..|s| - 1]) + ((s[|s| - 1] as int) - ('0' as int))
  }

  /** printf's "%d" for a non-negative value: the digits without leading zeros. */
  function Decimal(n: nat): (r: string)
    ensures |r| >= 1 && AllDigits(r)
    ensures ParseDecimal(r) == n
    ensures r[0] == '0' ==> n == 0
    ensures |r| > 1 ==> r[0] != '0'
    ensures n == 0 ==> r == "0"
    decreases n
  {
    if n < 10 then [DigitChar(n)]
    else
      var r := Decimal(n / 10) + [DigitChar(n % 10)];
      assert r[..|r| - 1] == Decimal(n / 10);
      r
  }

  /** printf's "%d": a minus sign for a negative value, then the digits. */
  function FormatInt(i: int): string {
    if i < 0 then "-" + Decimal(-i) else Decimal(i)
  }

  const TwoTo31: int := 0x8000_0000
  const TwoTo32: int := 0x1_0000_0000

  /** The C conversion `(int) x` of a wider integer: wraps around modulo 2^32 into the
      32-bit range. */
  function ToInt32(n: int): (r: int)
    ensures -TwoTo31 <= r < TwoTo31
    ensures (n - r) % TwoTo32 == 0
    ensures -TwoTo31 <= n < TwoTo31 ==> r == n
  {
    (n + TwoTo31) % TwoTo32 - TwoTo31
  }
}
