/** The Python string operations the pipeline relies on: substring search
    (`in`, `str.find`), `str.split` on a non-empty separator, `str.join`,
    and the conversions `int(str)` and `str(int)` between decimal text and
    integers. */
module Strings {
  import opened Base

  /** `sub` occurs in `s` starting at index `i`. */
  predicate OccursAt(s: string, i: int, sub: string) {
    0 <= i && i + |sub| <= |s| && s[i..i + |sub|] == sub
  }

  /** The first index at or after `from` where `sub` occurs in `s`
      (Python's `s.find(sub, from)`, with `None` for -1). */
  function Find(s: string, sub: string, from: nat): (r: Option<nat>)
    ensures r.Some? ==> from <= r.value && OccursAt(s, r.value, sub)
    ensures forall j :: from <= j && (r.None? || j < r.value) ==> !OccursAt(s, j, sub)
    decreases |s| - from
  {
    if from + |sub| > |s| then None
    else if OccursAt(s, from, sub) then Some(from)
    else Find(s, sub, from + 1)
  }

  /** Python's `sub in s`. */
  function Contains(s: string, sub: string): (b: bool)
    ensures b <==> exists i :: OccursAt(s, i, sub)
  {
    Find(s, sub, 0).Some?
  }

  /** Python's `s.split(sep)` for a non-empty separator: the pieces between
      the occurrences of `sep`, found left to right without overlap. */
  function Split(s: string, sep: string): (r: seq<string>)
    requires sep != []
    ensures |r| >= 1
    decreases |s|
  {
    match Find(s, sep, 0)
    case None => [s]
    case Some(i) => [s[..i]] + Split(s[i + |sep|..], sep)
  }

  /** A text splits into a single piece exactly when it holds no separator. */
  lemma SplitSingle(s: string, sep: string)
    requires sep != []
    ensures |Split(s, sep)| == 1 <==> !Contains(s, sep)
  {
    match Find(s, sep, 0)
    case None =>
    case Some(i) =>
      assert Split(s, sep) == [s[..i]] + Split(s[i + |sep|..], sep);
  }

  /** Python's `sep.join(parts)`. */
  function Join(parts: seq<string>, sep: string): string {
    if |parts| == 0 then ""
    else if |parts| == 1 then parts[0]
    else parts[0] + sep + Join(parts[1..], sep)
  }

  /** A prefix that ends before the first occurrence of `sep` does not contain `sep`. */
  lemma PrefixBeforeFirstFree(s: string, sep: string, i: nat)
    requires sep != [] && i <= |s|
    requires forall j :: 0 <= j < i ==> !OccursAt(s, j, sep)
    ensures !Contains(s[..i], sep)
  {
    if Contains(s[..i], sep) {
      var j :| OccursAt(s[..i], j, sep);
      assert s[..i][j..j + |sep|] == s[j..j + |sep|];
      assert OccursAt(s, j, sep);
      assert false;
    }
  }

  /** Joining the pieces of a split with the same separator gives back the text. */
  lemma {:induction false} SplitJoin(s: string, sep: string)
    requires sep != []
    ensures Join(Split(s, sep), sep) == s
    decreases |s|
  {
    match Find(s, sep, 0)
    case None =>
    case Some(i) =>
      var rest := s[i + |sep|..];
      var tail := Split(rest, sep);
      SplitJoin(rest, sep);
      var parts := [s[..i]] + tail;
      assert Split(s, sep) == parts;
      assert |parts| >= 2 && parts[0] == s[..i] && parts[1..] == tail;
      assert Join(parts, sep) == s[..i] + sep + Join(tail, sep);
      assert s[i..i + |sep|] == sep;
      assert s == s[..i] + s[i..i + |sep|] + rest;
  }

  /** No piece of a split contains the separator. */
  lemma {:induction false} SplitPiecesFree(s: string, sep: string)
    requires sep != []
    ensures forall k :: 0 <= k < |Split(s, sep)| ==> !Contains(Split(s, sep)[k], sep)
    decreases |s|
  {
    match Find(s, sep, 0)
    case None =>
    case Some(i) =>
      var rest := s[i + |sep|..];
      SplitPiecesFree(rest, sep);
      PrefixBeforeFirstFree(s, sep, i);
      assert Split(s, sep) == [s[..i]] + Split(rest, sep);
  }

  /** No proper suffix of `sep` is also a prefix of it, so two occurrences
      of `sep` never overlap and none can straddle the start of another. */
  predicate Borderless(sep: string) {
    sep != [] && forall k :: 0 < k < |sep| ==> sep[k..] != sep[..|sep| - k]
  }

  /** When `a` holds no `sep` and `b` starts with it, the first occurrence
      of `sep` in `a + b` is where `b` begins. */
  lemma FirstOccurrenceAtSeam(a: string, b: string, sep: string)
    requires Borderless(sep)
    requires !Contains(a, sep) && OccursAt(b, 0, sep)
    ensures Find(a + b, sep, 0) == Some(|a|)
  {
    OccursAtSeam(a, b, sep);
    forall j | 0 <= j < |a|
      ensures !OccursAt(a + b, j, sep)
    {
      NoOccurrenceBeforeSeam(a, b, sep, j);
    }
    FindFirst(a + b, sep, 0, |a|);
  }

  lemma OccursAtSeam(a: string, b: string, sep: string)
    requires OccursAt(b, 0, sep)
    ensures OccursAt(a + b, |a|, sep)
  {
    assert (a + b)[|a|..|a| + |sep|] == b[0..|sep|];
  }

  /** `Find` stops at the first occurrence. */
  lemma {:induction false} FindFirst(s: string, sub: string, from: nat, i: nat)
    requires from <= i && OccursAt(s, i, sub)
    requires forall j :: from <= j < i ==> !OccursAt(s, j, sub)
    ensures Find(s, sub, from) == Some(i)
    decreases i - from
  {
    if from < i {
      FindFirst(s, sub, from + 1, i);
    }
  }

  lemma NoOccurrenceBeforeSeam(a: string, b: string, sep: string, j: nat)
    requires Borderless(sep)
    requires !Contains(a, sep) && OccursAt(b, 0, sep)
    requires j < |a|
    ensures !OccursAt(a + b, j, sep)
  {
    var s := a + b;
    var n := |sep|;
    if j + n <= |a| {
      assert s[j..j + n] == a[j..j + n];
      assert !OccursAt(a, j, sep);
    } else if j + n <= |s| {
      // an occurrence at j would put a border on `sep`
      var k := |a| - j;
      assert 0 < k < n;
      assert s[|a|..j + n] == b[..n - k] == sep[..n - k];
      assert s[j..j + n][k..] == s[|a|..j + n];
      assert sep[k..] != sep[..n - k];
      assert s[j..j + n] != sep;
    }
  }

  /** Splitting a join of separator-free pieces gives the pieces back. */
  lemma {:induction false} SplitJoinInverse(parts: seq<string>, sep: string)
    requires Borderless(sep) && |parts| >= 1
    requires forall k :: 0 <= k < |parts| ==> !Contains(parts[k], sep)
    ensures Split(Join(parts, sep), sep) == parts
  {
    if |parts| == 1 {
      assert Find(parts[0], sep, 0) == None;
    } else {
      var head, tail := parts[0], parts[1..];
      assert forall k :: 0 <= k < |tail| ==> tail[k] == parts[k + 1];
      var rest := Join(tail, sep);
      SplitJoinInverse(tail, sep);
      var b := sep + rest;
      assert b[0..|sep|] == sep;
      var s := head + b;
      assert Join(parts, sep) == s;
      FirstOccurrenceAtSeam(head, b, sep);
      assert s[|head| + |sep|..] == rest;
      assert s[..|head|] == head;
      assert Split(s, sep) == [head] + Split(rest, sep);
      assert parts == [head] + tail;
    }
  }

  /** A text lacking one of the characters of `sub` does not contain `sub`. */
  lemma AbsentCharNoOccurrence(s: string, sub: string, j: nat)
    requires j < |sub|
    requires forall i :: 0 <= i < |s| ==> s[i] != sub[j]
    ensures !Contains(s, sub)
  {
    forall i | 0 <= i && i + |sub| <= |s|
      ensures !OccursAt(s, i, sub)
    {
      assert s[i..i + |sub|][j] == s[i + j];
    }
  }

  /** An occurrence stays an occurrence when text is added around it. */
  lemma OccursInContext(pre: string, s: string, post: string, i: int, sub: string)
    requires OccursAt(s, i, sub)
    ensures OccursAt(pre + s + post, |pre| + i, sub)
  {
    assert (pre + s + post)[|pre| + i..|pre| + i + |sub|] == s[i..i + |sub|];
  }

  /** If `a + x == b + y`, neither `a` nor `b` holds `c` and both `x` and
      `y` start with `c`, then the two splits are the same. */
  lemma SplitAtFirst(a: string, x: string, b: string, y: string, c: char)
    requires forall i :: 0 <= i < |a| ==> a[i] != c
    requires forall i :: 0 <= i < |b| ==> b[i] != c
    requires x != [] && x[0] == c && y != [] && y[0] == c
    requires a + x == b + y
    ensures a == b && x == y
  {
    var u := a + x;
    assert forall k :: 0 <= k < |a| ==> u[k] == a[k];
    assert forall k :: 0 <= k < |b| ==> u[k] == (b + y)[k] == b[k];
    assert u[|a|] == c && u[|b|] == (b + y)[|b|] == c;
    assert |a| == |b|;
    assert a == u[..|a|] == b;
    assert x == u[|a|..] == y;
  }

  /** The characters Python's `int()` strips around a literal: ASCII space
      and `\t` to `\r`, and the white space beyond ASCII. The separators
      U+001C to U+001F count for `str.isspace` but are not stripped. */
  predicate IsSpace(c: char) {
    || c == ' '
    || '\t' <= c <= '\r'
    || c == '\U{85}' || c == '\U{A0}' || c == '\U{1680}'
    || '\U{2000}' <= c <= '\U{200A}'
    || c == '\U{2028}' || c == '\U{2029}' || c == '\U{202F}' || c == '\U{205F}' || c == '\U{3000}'
  }

  function TrimStart(s: string): string {
    if s != [] && IsSpace(s[0]) then TrimStart(s[1..]) else s
  }

  function TrimEnd(s: string): string {
    if s != [] && IsSpace(s[|s| - 1]) then TrimEnd(s[..|s| - 1]) else s
  }

  /** Python's `s.strip()`: leading and trailing white space removed. */
  function Strip(s: string): string {
    TrimEnd(TrimStart(s))
  }

  predicate IsDigit(c: char) {
    '0' <= c <= '9'
  }

  /** The value of the digits of a decimal literal as Python reads them:
      ASCII digits, with single underscores allowed between two digits;
      `None` for anything else. */
  function ParseDigits(s: string): Option<nat>
    decreases |s|
  {
    if s == [] || !IsDigit(s[|s| - 1]) then None
    else
      var d := s[|s| - 1] as int - '0' as int;
      if |s| == 1 then Some(d)
      else
        var init := s[..|s| - 1];
        var digits := if init[|init| - 1] == '_' then init[..|init| - 1] else init;
        match ParseDigits(digits)
        case None => None
        case Some(v) => Some(10 * v + d)
  }

  /** The integer a decimal literal denotes, whatever its length: white
      space around it, an optional sign, then digits; `None` if it is not
      one. */
  function ParseLiteral(token: string): Option<int> {
    var s := Strip(token);
    if |s| > 0 && (s[0] == '+' || s[0] == '-') then
      match ParseDigits(s[1..])
      case None => None
      case Some(v) => Some(if s[0] == '-' then -(v as int) else v as int)
    else
      match ParseDigits(s)
      case None => None
      case Some(v) => Some(v)
  }

  /** The default limit on the number of digits `int()` and `str()` convert
      (`sys.get_int_max_str_digits()`). */
  const MaxStrDigits := 4300

  /** The number of decimal digits in `s`. */
  function DigitCount(s: string): nat {
    if s == [] then 0 else (if IsDigit(s[0]) then 1 else 0) + DigitCount(s[1..])
  }

  /** Python's `int(token)`: `None` where Python raises ValueError, which
      includes literals of more than `MaxStrDigits` digits. */
  function ParseInt(token: string): Option<int> {
    if DigitCount(Strip(token)) > MaxStrDigits then None else ParseLiteral(token)
  }

  function DigitChar(d: nat): (c: char)
    requires d < 10
    ensures IsDigit(c) && c as int - '0' as int == d
  {
    ('0' as int + d) as char
  }

  /** Python's `str(n)` for a non-negative integer. */
  function NatToString(n: nat): (r: string)
    ensures |r| > 0 && forall i :: 0 <= i < |r| ==> IsDigit(r[i])
  {
    if n < 10 then [DigitChar(n)] else NatToString(n / 10) + [DigitChar(n % 10)]
  }

  /** Python's `str(n)`. */
  function IntToString(n: int): (r: string)
    ensures |r| > 0 && forall i :: 0 <= i < |r| ==> IsDigit(r[i]) || r[i] == '-'
  {
    if n < 0 then "-" + NatToString(-n) else NatToString(n)
  }

  lemma DigitOrSignNotSpace(c: char)
    requires IsDigit(c) || c == '-'
    ensures !IsSpace(c)
  {
  }

  /** Text that neither starts nor ends with white space is its own strip. */
  lemma StripUnchanged(s: string)
    requires s != [] && !IsSpace(s[0]) && !IsSpace(s[|s| - 1])
    ensures Strip(s) == s
  {
    assert TrimStart(s) == s;
  }

  /** A printed natural number reads back as itself. */
  lemma {:induction false} NatToStringDigits(n: nat)
    ensures ParseDigits(NatToString(n)) == Some(n)
  {
    if n >= 10 {
      var r := NatToString(n);
      NatToStringDigits(n / 10);
      assert r[..|r| - 1] == NatToString(n / 10);
    }
  }

  /** A literal `str` wrote denotes the integer it wrote. */
  lemma LiteralRoundTrip(n: int)
    ensures ParseLiteral(IntToString(n)) == Some(n)
  {
    var s := IntToString(n);
    DigitOrSignNotSpace(s[0]);
    DigitOrSignNotSpace(s[|s| - 1]);
    StripUnchanged(s);
    if n < 0 {
      var d := NatToString(-n);
      NatToStringDigits(-n);
      assert s[1..] == d;
      assert s[0] == '-';
    } else {
      NatToStringDigits(n);
    }
  }

  function Abs(n: int): nat {
    if n < 0 then -n else n
  }

  /** A string of digits has as many digits as characters. */
  lemma {:induction false} AllDigitsCount(s: string)
    requires forall i :: 0 <= i < |s| ==> IsDigit(s[i])
    ensures DigitCount(s) == |s|
  {
    if s != [] {
      AllDigitsCount(s[1..]);
    }
  }

  /** `int(str(n)) == n` for every integer of at most `MaxStrDigits` digits;
      a longer one is refused. */
  lemma ParseIntRoundTrip(n: int)
    ensures ParseInt(IntToString(n)) == if |NatToString(Abs(n))| <= MaxStrDigits then Some(n) else None
  {
    var s := IntToString(n);
    var d := NatToString(Abs(n));
    DigitOrSignNotSpace(s[0]);
    DigitOrSignNotSpace(s[|s| - 1]);
    StripUnchanged(s);
    AllDigitsCount(d);
    if n < 0 {
      assert s == "-" + d && s[1..] == d;
    }
    assert DigitCount(s) == |d|;
    LiteralRoundTrip(n);
  }

  /** Leading white space goes when the text after it starts with none. */
  lemma {:induction false} TrimStartPadding(w: string, t: string)
    requires forall i :: 0 <= i < |w| ==> IsSpace(w[i])
    requires t != [] && !IsSpace(t[0])
    ensures TrimStart(w + t) == t
  {
    if w != [] {
      assert (w + t)[1..] == w[1..] + t;
      TrimStartPadding(w[1..], t);
    }
  }

  /** Trailing white space goes when the text before it ends with none. */
  lemma {:induction false} TrimEndPadding(t: string, w: string)
    requires forall i :: 0 <= i < |w| ==> IsSpace(w[i])
    requires t != [] && !IsSpace(t[|t| - 1])
    ensures TrimEnd(t + w) == t
  {
    if w != [] {
      var n := |w| - 1;
      assert (t + w)[..|t + w| - 1] == t + w[..n];
      TrimEndPadding(t, w[..n]);
    }
  }

  /** White space around a printed integer is stripped: `int(" 3")`,
      `int("3\n")` and `int(" -12 ")` read the integer, as long as it is
      within the digit limit. */
  lemma ParseIntPadded(w1: string, n: int, w2: string)
    requires forall i :: 0 <= i < |w1| ==> IsSpace(w1[i])
    requires forall i :: 0 <= i < |w2| ==> IsSpace(w2[i])
    requires |NatToString(Abs(n))| <= MaxStrDigits
    ensures ParseInt(w1 + IntToString(n) + w2) == Some(n)
  {
    var s := IntToString(n);
    DigitOrSignNotSpace(s[0]);
    DigitOrSignNotSpace(s[|s| - 1]);
    assert w1 + s + w2 == w1 + (s + w2);
    TrimStartPadding(w1, s + w2);
    TrimEndPadding(s, w2);
    StripUnchanged(s);
    assert Strip(w1 + s + w2) == Strip(s);
    ParseIntRoundTrip(n);
  }

  /** Underscores are allowed singly between digits, and nowhere else. */
  lemma UnderscoreRules()
    ensures ParseInt("1_0") == Some(10)
    ensures ParseInt("1__0") == None
    ensures ParseInt("_1") == None
  {
    assert "1_0"[..2] == "1_" && "1_"[..1] == "1";
    assert "1__0"[..3] == "1__" && "1__"[..2] == "1_";
    assert "_1"[..1] == "_";
    StripUnchanged("1_0");
    StripUnchanged("1__0");
    StripUnchanged("_1");
  }

  /** The separator U+001C is white space to `str.isspace` but not to
      `int()`, so a token led by it is refused. */
  lemma SeparatorNotStripped()
    ensures ParseInt("\U{1C}5") == None
  {
    var s := "\U{1C}5";
    StripUnchanged(s);
    assert s[..1] == "\U{1C}";
  }

  /** Different integers print differently. */
  lemma IntToStringInjective(a: int, b: int)
    requires IntToString(a) == IntToString(b)
    ensures a == b
  {
    LiteralRoundTrip(a);
    LiteralRoundTrip(b);
  }
}
