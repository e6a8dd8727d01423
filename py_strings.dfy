/** The Python `str` operations the modelled code relies on, with Python's
    semantics: `startswith`, `find`, `split`, `rsplit(c, 1)`, slicing with
    clamped bounds, and `str()` of an integer. */
module PyStrings {
  import opened Errors

  /** `sep` occurs in `s` starting at index `i`. */
  predicate HasAt(s: string, sep: string, i: int) {
    0 <= i && i + |sep| <= |s| && s[i..i + |sep|] == sep
  }

  /** Python's `s.startswith(prefix)`. */
  predicate StartsWith(s: string, prefix: string) {
    prefix <= s
  }

  /** Occurrences in `s[1..]` are the occurrences in `s` shifted by one. */
  lemma HasAtTail(s: string, sep: string)
    requires |s| > 0
    ensures forall j :: 1 <= j ==> (HasAt(s, sep, j) <==> HasAt(s[1..], sep, j - 1))
  {
    forall j | 1 <= j
      ensures HasAt(s, sep, j) <==> HasAt(s[1..], sep, j - 1)
    {
      if j + |sep| <= |s| {
        assert s[1..][j - 1..j - 1 + |sep|] == s[j..j + |sep|];
      }
    }
  }

  /** Python's `s.find(sep)`, `None` standing for -1: the first index at
      which `sep` occurs in `s`. */
  function Find(s: string, sep: string): (r: Option<nat>)
    ensures r.Some? ==> HasAt(s, sep, r.value)
    ensures r.Some? ==> forall j :: 0 <= j < r.value ==> !HasAt(s, sep, j)
    ensures r.None? ==> forall j :: !HasAt(s, sep, j)
    decreases |s|
  {
    if |s| < |sep| then None
    else if s[..|sep|] == sep then Some(0)
    else
      HasAtTail(s, sep);
      match Find(s[1..], sep)
      case None => None
      case Some(i) => Some(i + 1)
  }

  /** Python's `s.split(sep)` for a non-empty separator: the pieces between
      the non-overlapping occurrences of `sep`, scanned from the left. */
  function Split(s: string, sep: string): (parts: seq<string>)
    requires sep != ""
    ensures |parts| >= 1
    decreases |s|
  {
    match Find(s, sep)
    case None => [s]
    case Some(i) => [s[..i]] + Split(s[i + |sep|..], sep)
  }

  /** Python's `sep.join(parts)`. */
  function Join(parts: seq<string>, sep: string): string
    requires |parts| >= 1
  {
    if |parts| == 1 then parts[0] else parts[0] + sep + Join(parts[1..], sep)
  }

  /** An occurrence inside a prefix of `s` is an occurrence in `s`. */
  lemma HasAtPrefix(s: string, sep: string, n: nat, j: int)
    requires n <= |s| && HasAt(s[..n], sep, j)
    ensures HasAt(s, sep, j) && j + |sep| <= n
  {
    assert s[..n][j..j + |sep|] == s[j..j + |sep|];
  }

  /** `split` and `join` are inverse. */
  lemma {:induction false} SplitJoin(s: string, sep: string)
    requires sep != ""
    ensures Join(Split(s, sep), sep) == s
    decreases |s|
  {
    match Find(s, sep)
    case None =>
    case Some(i) =>
      var rest := s[i + |sep|..];
      SplitJoin(rest, sep);
      SplitAround(s, sep, i);
      JoinCons(s[..i], Split(rest, sep), sep);
  }

  /** An occurrence of `sep` cuts `s` into the text before, `sep`, and the
      text after. */
  lemma SplitAround(s: string, sep: string, i: int)
    requires HasAt(s, sep, i)
    ensures s == s[..i] + sep + s[i + |sep|..]
  {
    assert s[i..] == s[i..i + |sep|] + s[i + |sep|..];
    assert s == s[..i] + s[i..];
  }

  /** Joining a piece in front of at least one more. */
  lemma JoinCons(x: string, parts: seq<string>, sep: string)
    requires |parts| >= 1
    ensures Join([x] + parts, sep) == x + sep + Join(parts, sep)
  {
    assert ([x] + parts)[1..] == parts;
  }

  /** An occurrence with none before it is the one `find` reports. */
  lemma FindFirst(s: string, sep: string, i: nat)
    requires HasAt(s, sep, i) && forall j :: 0 <= j < i ==> !HasAt(s, sep, j)
    ensures Find(s, sep) == Some(i)
  {
  }

  /** Cutting `s` just after its first occurrence of `sep` keeps that
      occurrence first. */
  lemma FindInPrefix(s: string, sep: string, i: nat)
    requires Find(s, sep) == Some(i)
    ensures Find(s[..i + |sep|], sep) == Some(i)
  {
    var t := s[..i + |sep|];
    assert t[i..i + |sep|] == s[i..i + |sep|];
    forall j | 0 <= j < i
      ensures !HasAt(t, sep, j)
    {
      if HasAt(t, sep, j) {
        HasAtPrefix(s, sep, i + |sep|, j);
      }
    }
    FindFirst(t, sep, i);
  }

  /** `split` cuts at the leftmost occurrences: each piece but the last,
      followed by the separator, has its first occurrence right after the
      piece, and the last piece has none. With `SplitJoin` this fixes the
      pieces uniquely, also for a separator that overlaps itself. */
  lemma {:induction false} SplitLeftmost(s: string, sep: string)
    requires sep != ""
    ensures var parts := Split(s, sep);
            (forall k :: 0 <= k < |parts| - 1 ==> Find(parts[k] + sep, sep) == Some(|parts[k]|))
            && Find(parts[|parts| - 1], sep) == None
    decreases |s|
  {
    match Find(s, sep)
    case None =>
    case Some(i) =>
      var rest := s[i + |sep|..];
      SplitLeftmost(rest, sep);
      var tail := Split(rest, sep);
      var parts := Split(s, sep);
      assert parts == [s[..i]] + tail;
      SplitAround(s, sep, i);
      assert s[..i] + sep == s[..i + |sep|];
      FindInPrefix(s, sep, i);
      forall k | 0 <= k < |parts| - 1
        ensures Find(parts[k] + sep, sep) == Some(|parts[k]|)
      {
        if k > 0 {
          assert parts[k] == tail[k - 1];
        }
      }
      assert parts[|parts| - 1] == tail[|tail| - 1];
  }

  /** A separator that overlaps itself: `"x = = y".split(" = ")` cuts at
      the leftmost occurrence only, giving `["x", "= y"]`. */
  lemma SplitOverlapping()
    ensures Split("x = = y", " = ") == ["x", "= y"]
  {
    var s, sep := "x = = y", " = ";
    assert s[0..3] == "x =" && s[1..4] == sep;
    FindFirst(s, sep, 1);
    assert s[..1] == "x" && s[4..] == "= y";
    assert "= y"[..3] != sep && |"= y"[1..]| < |sep|;
    assert Find("= y", sep) == None;
  }

  /** No piece of a `split` contains the separator. */
  lemma {:induction false} SplitPiecesFree(s: string, sep: string)
    requires sep != ""
    ensures forall k, j :: 0 <= k < |Split(s, sep)| ==> !HasAt(Split(s, sep)[k], sep, j)
    decreases |s|
  {
    match Find(s, sep)
    case None =>
    case Some(i) =>
      var rest := s[i + |sep|..];
      SplitPiecesFree(rest, sep);
      var parts := Split(s, sep);
      assert parts == [s[..i]] + Split(rest, sep);
      forall k, j | 0 <= k < |parts| ensures !HasAt(parts[k], sep, j) {
        if k == 0 {
          if HasAt(s[..i], sep, j) {
            HasAtPrefix(s, sep, i, j);
          }
        } else {
          assert parts[k] == Split(rest, sep)[k - 1];
        }
      }
  }

  /** The index of the last `c` in `s`. */
  function RFind(s: string, c: char): (r: Option<nat>)
    ensures r.Some? ==> r.value < |s| && s[r.value] == c
    ensures r.Some? ==> forall j :: r.value < j < |s| ==> s[j] != c
    ensures r.None? <==> c !in s
  {
    if s == [] then None
    else if s[|s| - 1] == c then Some(|s| - 1)
    else
      assert forall j :: 0 <= j < |s| - 1 ==> s[..|s| - 1][j] == s[j];
      RFind(s[..|s| - 1], c)
  }

  /** Python's `s.rsplit(c, 1)`: `[s]` when `c` does not occur, otherwise
      the text before and after the last `c`. */
  function RSplitOnce(s: string, c: char): (parts: seq<string>)
    ensures 1 <= |parts| <= 2
  {
    match RFind(s, c)
    case None => [s]
    case Some(i) => [s[..i], s[i + 1..]]
  }

  /** Python's normalisation of a slice bound against a length `n`: a
      negative bound counts from the end; the result is clamped to [0, n]. */
  function SliceBound(i: int, n: nat): (b: nat)
    ensures b <= n
  {
    if i < 0 then (if i + n < 0 then 0 else i + n)
    else if i > n then n
    else i
  }

  /** Python's `s[start:stop]`: total for every pair of bounds. */
  function Slice(s: string, start: int, stop: int): (r: string)
    ensures |r| <= |s|
  {
    var lo, hi := SliceBound(start, |s|), SliceBound(stop, |s|);
    if lo < hi then s[lo..hi] else ""
  }

  /** `s[1:-2]` drops the first and the last two characters, and is empty
      when `s` has fewer than three. */
  lemma SliceDropsOneAndTwo(s: string)
    ensures |s| < 3 ==> Slice(s, 1, -2) == ""
    ensures |s| >= 3 ==> Slice(s, 1, -2) == s[1..|s| - 2] && s == s[..1] + Slice(s, 1, -2) + s[|s| - 2..]
  {
  }

  predicate IsDigit(c: char) {
    '0' <= c <= '9'
  }

  predicate AllDigits(s: string) {
    forall k :: 0 <= k < |s| ==> IsDigit(s[k])
  }

  function DigitChar(d: nat): (c: char)
    requires d < 10
    ensures IsDigit(c) && c as int - '0' as int == d
  {
    (('0' as int) + d) as char
  }

  /** The decimal digits of `n`, most significant first and without
      leading zeros. */
  function NatStr(n: nat): (s: string)
    ensures |s| >= 1 && AllDigits(s)
    decreases n
  {
    if n < 10 then [DigitChar(n)] else NatStr(n / 10) + [DigitChar(n % 10)]
  }

  /** Python's `str(i)` for an integer. */
  function IntStr(i: int): (s: string)
    ensures |s| >= 1
    // a minus sign exactly for a negative number; a non-negative one is all
    // digits, and a negative one has its magnitude's digits after the sign
    // (`IntStrNegative`)
    ensures i < 0 <==> s[0] == '-'
    ensures i >= 0 ==> AllDigits(s)
  {
    if i < 0 then "-" + NatStr(-i) else NatStr(i)
  }

  /** The number a string of decimal digits denotes. */
  function DecimalValue(s: string): nat
    requires AllDigits(s)
  {
    if s == [] then 0
    else DecimalValue(s[..|s| - 1]) * 10 + (s[|s| - 1] as int - '0' as int)
  }

  lemma {:induction false} NatStrRoundTrip(n: nat)
    ensures DecimalValue(NatStr(n)) == n
    decreases n
  {
    if n >= 10 {
      NatStrRoundTrip(n / 10);
      var s := NatStr(n);
      assert s[..|s| - 1] == NatStr(n / 10);
    }
  }

  /** Behind the minus sign of a negative number are the digits of its
      magnitude. */
  lemma IntStrNegative(i: int)
    requires i < 0
    ensures IntStr(i)[1..] == NatStr(-i)
  {
    assert ("-" + NatStr(-i))[1..] == NatStr(-i);
  }

  /** Distinct natural numbers print differently. */
  lemma NatStrInjective(m: nat, n: nat)
    requires NatStr(m) == NatStr(n)
    ensures m == n
  {
    NatStrRoundTrip(m);
    NatStrRoundTrip(n);
  }

  /** Distinct integers print differently. */
  lemma IntStrInjective(a: int, b: int)
    requires IntStr(a) == IntStr(b)
    ensures a == b
  {
    if a < 0 {
      assert b < 0;
      IntStrNegative(a);
      IntStrNegative(b);
      NatStrInjective(-a, -b);
    } else {
      assert b >= 0;
      NatStrInjective(a, b);
    }
  }
}
