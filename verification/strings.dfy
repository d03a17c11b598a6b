/** The handful of JavaScript string operations the blog's scripts rely on:
    `trim`, `startsWith`, `indexOf`/`includes`, `replace` with a string pattern,
    `split`/`join` on one separator, `toLowerCase`, number-to-string and
    `parseInt`. Strings are sequences of characters. */
module Strings {
  import opened Options

  /** ECMAScript LineTerminator code points (the characters `.` does not match). */
  predicate IsLineTerminator(c: char) {
    c == '\n' || c == '\r' || c == '\U{2028}' || c == '\U{2029}'
  }

  /** ECMAScript WhiteSpace or LineTerminator: exactly the set `\s` matches
      and `String.prototype.trim` removes. */
  predicate IsSpace(c: char) {
    || c == ' ' || c == '\t' || c == '\U{000B}' || c == '\U{000C}'
    || c == '\U{00A0}' || c == '\U{1680}' || ('\U{2000}' <= c <= '\U{200A}')
    || c == '\U{202F}' || c == '\U{205F}' || c == '\U{3000}' || c == '\U{FEFF}'
    || IsLineTerminator(c)
  }

  predicate AllSpace(s: string) {
    forall i | 0 <= i < |s| :: IsSpace(s[i])
  }

  /** No whitespace at either end: what `trim` leaves. */
  predicate Trimmed(s: string) {
    s == [] || (!IsSpace(s[0]) && !IsSpace(s[|s| - 1]))
  }

  function TrimStart(s: string): (r: string)
    ensures |r| <= |s| && r == s[|s| - |r|..]
    ensures AllSpace(s[..|s| - |r|])
    ensures r == [] || !IsSpace(r[0])
  {
    if s != [] && IsSpace(s[0]) then
      var r := TrimStart(s[1..]);
      TrimStartStep(s, r);
      r
    else s
  }

  /** Dropping one more leading space keeps `TrimStart`'s postcondition. */
  lemma TrimStartStep(s: string, r: string)
    requires s != [] && IsSpace(s[0])
    requires |r| <= |s| - 1 && r == s[1..][|s| - 1 - |r|..]
    requires AllSpace(s[1..][..|s| - 1 - |r|])
    ensures r == s[|s| - |r|..]
    ensures AllSpace(s[..|s| - |r|])
  {
    var n := |s| - |r|;
    forall i | 1 <= i < n
      ensures IsSpace(s[..n][i])
    {
      assert s[..n][i] == s[1..][..n - 1][i - 1];
    }
  }

  function TrimEnd(s: string): (r: string)
    ensures |r| <= |s| && r == s[..|r|]
    ensures AllSpace(s[|r|..])
    ensures r == [] || !IsSpace(r[|r| - 1])
  {
    if s != [] && IsSpace(s[|s| - 1]) then
      var r := TrimEnd(s[..|s| - 1]);
      assert s[|r|..] == s[..|s| - 1][|r|..] + [s[|s| - 1]];
      r
    else s
  }

  /** `r` is what is left of `s` once the whitespace at both ends is
      removed. */
  predicate IsTrimOf(s: string, r: string) {
    && Trimmed(r)
    && exists a | 0 <= a <= |s| - |r| ::
      r == s[a..a + |r|] && AllSpace(s[..a]) && AllSpace(s[a + |r|..])
  }

  /** `String.prototype.trim`: the result is the infix of `s` left after
      removing the whitespace at both ends. */
  function Trim(s: string): (r: string)
    ensures IsTrimOf(s, r)
  {
    var t := TrimStart(s);
    var r := TrimEnd(t);
    TrimInfix(s, t, r);
    r
  }

  /** What is left after both ends are trimmed sits at `|s| - |t|`. */
  lemma TrimInfix(s: string, t: string, r: string)
    requires |t| <= |s| && t == s[|s| - |t|..] && AllSpace(s[..|s| - |t|]) && (t == [] || !IsSpace(t[0]))
    requires |r| <= |t| && r == t[..|r|] && AllSpace(t[|r|..]) && (r == [] || !IsSpace(r[|r| - 1]))
    ensures IsTrimOf(s, r)
  {
    PrefixEnds(t, r);
    var a := |s| - |t|;
    InfixOfSuffix(s, t, r, a);
    assert r == s[a..a + |r|] && AllSpace(s[..a]) && AllSpace(s[a + |r|..]);
  }

  /** A prefix of a text that starts with a non-space and that ends with
      one is trimmed. */
  lemma PrefixEnds(t: string, r: string)
    requires |r| <= |t| && r == t[..|r|]
    requires t == [] || !IsSpace(t[0])
    requires r == [] || !IsSpace(r[|r| - 1])
    ensures Trimmed(r)
  {
    if r != [] {
      assert r[0] == t[0];
    }
  }

  /** A prefix `r` of the suffix `t` of `s` is an infix of `s`, and what
      follows it in `t` follows it in `s`. */
  lemma InfixOfSuffix(s: string, t: string, r: string, a: nat)
    requires a + |t| == |s| && t == s[a..]
    requires |r| <= |t| && r == t[..|r|]
    ensures r == s[a..a + |r|]
    ensures s[a + |r|..] == t[|r|..]
  {
  }

  /** Trimming text that already has no whitespace at its ends changes nothing. */
  lemma TrimTrimmed(s: string)
    requires Trimmed(s)
    ensures Trim(s) == s
  {
  }

  /** `trim` is idempotent. */
  lemma TrimIdempotent(s: string)
    ensures Trim(Trim(s)) == Trim(s)
  {
    TrimTrimmed(Trim(s));
  }

  /** Trimming keeps the first character when it is not whitespace. */
  lemma TrimKeepsHead(s: string)
    requires s != [] && !IsSpace(s[0])
    ensures Trim(s) != [] && Trim(s)[0] == s[0]
  {
    var r := Trim(s);
    var a :| 0 <= a <= |s| - |r| && r == s[a..a + |r|] && AllSpace(s[..a]) && AllSpace(s[a + |r|..]);
  }

  predicate StartsWith(s: string, p: string) {
    |p| <= |s| && s[..|p|] == p
  }

  /** `s.indexOf(p, k)`: the first position at or after `k` where `p` occurs. */
  function IndexOfFrom(s: string, p: string, k: nat): (r: Option<nat>)
    requires k <= |s|
    ensures r.Some? ==> k <= r.value && r.value + |p| <= |s| && StartsWith(s[r.value..], p)
    ensures r.Some? ==> forall j {:trigger StartsWith(s[j..], p)} | k <= j < r.value :: !StartsWith(s[j..], p)
    ensures r.None? ==> forall j {:trigger StartsWith(s[j..], p)} | k <= j <= |s| :: !StartsWith(s[j..], p)
    decreases |s| - k
  {
    if StartsWith(s[k..], p) then Some(k)
    else if k == |s| then None
    else IndexOfFrom(s, p, k + 1)
  }

  function IndexOf(s: string, p: string): Option<nat> {
    IndexOfFrom(s, p, 0)
  }

  /** `s.includes(p)`. */
  predicate Contains(s: string, p: string) {
    IndexOf(s, p).Some?
  }

  /** `s.includes(p)` is "p occurs at some position". */
  lemma ContainsAt(s: string, p: string, j: nat)
    requires j <= |s| && StartsWith(s[j..], p)
    ensures Contains(s, p)
  {
  }

  /** An occurrence inside a part of a string is an occurrence in the whole. */
  lemma ContainsInfix(x: string, y: string, z: string, p: string)
    requires Contains(y, p)
    ensures Contains(x + y + z, p)
  {
    var j := IndexOf(y, p).value;
    assert (x + y + z)[|x| + j..][..|p|] == y[j..][..|p|];
    ContainsAt(x + y + z, p, |x| + j);
  }

  /** `s.replace(p, rep)` with a string pattern: only the first occurrence is
      replaced (the replacement is taken literally; see README). */
  function ReplaceFirst(s: string, p: string, rep: string): string {
    match IndexOf(s, p)
    case None => s
    case Some(i) => s[..i] + rep + s[i + |p|..]
  }

  /** A text that begins with the pattern loses exactly that prefix. */
  lemma ReplaceFirstAtStart(s: string, p: string)
    requires StartsWith(s, p)
    ensures ReplaceFirst(s, p, "") == s[|p|..]
  {
    assert IndexOf(s, p) == Some(0);
  }

  /** `s.split(c)` for a one-character separator: the empty string splits into
      one empty piece, and no piece contains the separator. */
  function Split(s: string, c: char): (r: seq<string>)
    ensures |r| >= 1
    ensures forall i | 0 <= i < |r| :: c !in r[i]
    decreases |s|
  {
    match IndexOfFrom(s, [c], 0)
    case None =>
      assert forall j | 0 <= j < |s| :: s[j] != c by {
        forall j | 0 <= j < |s| ensures s[j] != c {
          assert !StartsWith(s[j..], [c]);
        }
      }
      [s]
    case Some(i) =>
      assert forall j | 0 <= j < i :: s[j] != c by {
        forall j | 0 <= j < i ensures s[j] != c {
          assert !StartsWith(s[j..], [c]);
        }
      }
      [s[..i]] + Split(s[i + 1..], c)
  }

  /** `ts.join(sep)`. */
  function Join(ts: seq<string>, sep: string): string {
    if |ts| == 0 then ""
    else if |ts| == 1 then ts[0]
    else ts[0] + sep + Join(ts[1..], sep)
  }

  /** Joining the pieces of a split with the separator gives back the text. */
  lemma {:induction false} JoinSplit(s: string, c: char)
    ensures Join(Split(s, c), [c]) == s
    decreases |s|
  {
    match IndexOfFrom(s, [c], 0)
    case None =>
    case Some(i) =>
      var tail := Split(s[i + 1..], c);
      JoinSplit(s[i + 1..], c);
      assert Split(s, c) == [s[..i]] + tail;
      assert ([s[..i]] + tail)[1..] == tail;
      assert Join(Split(s, c), [c]) == s[..i] + [c] + Join(tail, [c]);
      assert s[i..][..1] == [c];
      assert s == s[..i] + [c] + s[i + 1..];
  }

  /** Splitting a join gives back the pieces, when no piece holds the separator. */
  lemma {:induction false} SplitJoin(ts: seq<string>, c: char)
    requires |ts| >= 1
    requires forall i | 0 <= i < |ts| :: c !in ts[i]
    ensures Split(Join(ts, [c]), c) == ts
    decreases |ts|
  {
    if |ts| == 1 {
      NoSeparator(ts[0], c);
    } else {
      var t, rest := ts[0], Join(ts[1..], [c]);
      assert Join(ts, [c]) == t + [c] + rest;
      SplitAtFirst(t, rest, c);
      SplitJoin(ts[1..], c);
      assert ts == [t] + ts[1..];
    }
  }

  /** Splitting at a first separator that follows `t`. */
  lemma SplitAtFirst(t: string, rest: string, c: char)
    requires c !in t
    ensures Split(t + [c] + rest, c) == [t] + Split(rest, c)
  {
    FirstSeparator(t, rest, c);
  }

  /** A text without the separator is not split. */
  lemma NoSeparator(s: string, c: char)
    requires c !in s
    ensures Split(s, c) == [s]
  {
    forall j | 0 <= j <= |s| ensures !StartsWith(s[j..], [c]) {
      if j < |s| {
        assert s[j] != c;
      }
    }
    assert IndexOfFrom(s, [c], 0).None?;
  }

  /** In `t + [c] + rest` with no `c` in `t`, the first separator follows `t`. */
  lemma FirstSeparator(t: string, rest: string, c: char)
    requires c !in t
    ensures IndexOfFrom(t + [c] + rest, [c], 0) == Some(|t|)
    ensures (t + [c] + rest)[..|t|] == t && (t + [c] + rest)[|t| + 1..] == rest
  {
    var s := t + [c] + rest;
    forall j | 0 <= j < |t| ensures !StartsWith(s[j..], [c]) {
      assert s[j] == t[j];
    }
    assert StartsWith(s[|t|..], [c]);
    assert s[|t| + 1..] == rest;
    assert s[..|t|] == t;
  }

  /** `toLowerCase` on the letters this blog uses: ASCII and the basic Cyrillic
      block; every other character is left alone (see README). */
  function LowerChar(c: char): char {
    if 'A' <= c <= 'Z' then (c as int + 32) as char
    else if '\U{0410}' <= c <= '\U{042F}' then (c as int + 32) as char
    else if '\U{0400}' <= c <= '\U{040F}' then (c as int + 80) as char
    else c
  }

  function Lower(s: string): (r: string)
    ensures |r| == |s|
  {
    seq(|s|, i requires 0 <= i < |s| => LowerChar(s[i]))
  }

  predicate IsDigit(c: char) {
    '0' <= c <= '9'
  }

  function DigitChar(d: nat): (c: char)
    requires d < 10
    ensures IsDigit(c)
  {
    ('0' as int + d) as char
  }

  /** Decimal rendering of a natural number, most significant digit first. */
  function NatToString(n: nat): (r: string)
    ensures |r| >= 1
    ensures forall i | 0 <= i < |r| :: IsDigit(r[i])
  {
    if n < 10 then [DigitChar(n)] else NatToString(n / 10) + [DigitChar(n % 10)]
  }

  /** `String(n)` / `${n}` for an integer. */
  function IntToString(n: int): (r: string)
    ensures |r| >= 1
  {
    if n < 0 then "-" + NatToString(-n) else NatToString(n)
  }

  /** The value of a digit character in radix 10 or 16 (`parseInt` accepts
      both letter cases), or None. */
  function RadixDigit(c: char, hex: bool): Option<nat> {
    if IsDigit(c) then Some(c as int - '0' as int)
    else if hex && 'a' <= c <= 'f' then Some(c as int - 'a' as int + 10)
    else if hex && 'A' <= c <= 'F' then Some(c as int - 'A' as int + 10)
    else None
  }

  /** Length of the longest prefix of `s` made of radix digits. */
  function DigitRun(s: string, hex: bool): (n: nat)
    ensures n <= |s|
    ensures forall i | 0 <= i < n :: RadixDigit(s[i], hex).Some?
    ensures n < |s| ==> RadixDigit(s[n], hex).None?
  {
    if s != [] && RadixDigit(s[0], hex).Some? then 1 + DigitRun(s[1..], hex) else 0
  }

  /** The number a run of radix digits denotes. */
  function DigitsValue(ds: string, hex: bool): nat
    requires forall i | 0 <= i < |ds| :: RadixDigit(ds[i], hex).Some?
  {
    if ds == [] then 0
    else DigitsValue(ds[..|ds| - 1], hex) * (if hex then 16 else 10) + RadixDigit(ds[|ds| - 1], hex).value
  }

  /** A `0x`/`0X` prefix, which makes `parseInt` read radix 16. */
  predicate HexPrefixed(u: string) {
    |u| >= 2 && u[0] == '0' && (u[1] == 'x' || u[1] == 'X')
  }

  /** The unsigned part of `parseInt`: the longest run of digits (after a
      `0x` prefix, hexadecimal ones); None when there are none. */
  function ParseDigits(u: string): Option<nat> {
    var hex := HexPrefixed(u);
    var body := if hex then u[2..] else u;
    var n := DigitRun(body, hex);
    if n == 0 then None else Some(DigitsValue(body[..n], hex))
  }

  /** `parseInt(s)` with no radix: leading whitespace is skipped, one sign is
      accepted, then the digits are read as above; None stands for `NaN`. */
  function ParseInt(s: string): Option<int> {
    var t := TrimStart(s);
    if t != [] && t[0] == '-' then
      match ParseDigits(t[1..])
      case None => None
      case Some(v) => var w: int := v; Some(-w)
    else if t != [] && t[0] == '+' then
      match ParseDigits(t[1..])
      case None => None
      case Some(v) => Some(v)
    else
      match ParseDigits(t)
      case None => None
      case Some(v) => Some(v)
  }

  lemma {:induction false} NatToStringValue(n: nat)
    ensures DigitsValue(NatToString(n), false) == n
  {
    var r := NatToString(n);
    if n >= 10 {
      NatToStringValue(n / 10);
      assert r[..|r| - 1] == NatToString(n / 10);
    }
  }

  /** Plain decimal digits are read in full. */
  lemma ParseDigitsDecimal(d: string)
    requires d != [] && forall i | 0 <= i < |d| :: IsDigit(d[i])
    ensures ParseDigits(d) == Some(DigitsValue(d, false))
  {
    assert !HexPrefixed(d) by {
      assert |d| >= 2 ==> IsDigit(d[1]);
    }
    DigitRunAll(d, false);
    assert d[..|d|] == d;
  }

  /** `parseInt` reads back what `String(n)` writes, for every integer. */
  lemma ParseIntToString(n: int)
    ensures ParseInt(IntToString(n)) == Some(n)
  {
    var m: nat := if n < 0 then -n else n;
    var d := NatToString(m);
    var s := IntToString(n);
    assert !IsSpace(s[0]);
    TrimStartNoop(s);
    ParseDigitsDecimal(d);
    NatToStringValue(m);
    if n < 0 {
      assert s[1..] == d;
    } else {
      assert s == d;
    }
  }

  predicate AllDigits(s: string) {
    forall i | 0 <= i < |s| :: IsDigit(s[i])
  }

  /** An optional sign followed by decimal digits, and nothing else. */
  function SignedDecimal(t: string): Option<int> {
    var neg := t != [] && t[0] == '-';
    var body := if t != [] && (t[0] == '-' || t[0] == '+') then t[1..] else t;
    if body != [] && AllDigits(body) then
      var v: int := DigitsValue(body, false);
      Some(if neg then -v else v)
    else None
  }

  /** `Number(s)` for the strings an index can hold: whitespace at either
      end is ignored, the empty string is 0, and an optionally signed run of
      decimal digits is its value; None stands for `NaN`. */
  function StringToNumber(s: string): Option<int> {
    var t := Trim(s);
    if t == [] then Some(0) else SignedDecimal(t)
  }

  /** `Number` reads back what `String(n)` writes, for every integer. */
  lemma StringToNumberToString(n: int)
    ensures StringToNumber(IntToString(n)) == Some(n)
  {
    var s := IntToString(n);
    assert Trimmed(s) by {
      assert IsDigit(s[|s| - 1]);
    }
    TrimTrimmed(s);
    SignedDecimalToString(n);
  }

  lemma SignedDecimalToString(n: int)
    ensures SignedDecimal(IntToString(n)) == Some(n)
  {
    var m: nat := if n < 0 then -n else n;
    var d := NatToString(m);
    NatToStringValue(m);
    assert AllDigits(d);
    if n < 0 {
      SignedDecimalDigits(d, true);
      assert IntToString(n) == "-" + d;
    } else {
      SignedDecimalDigits(d, false);
      assert IntToString(n) == d;
    }
  }

  lemma SignedDecimalDigits(d: string, neg: bool)
    requires d != [] && AllDigits(d)
    ensures SignedDecimal(if neg then "-" + d else d) == Some(if neg then -(DigitsValue(d, false) as int) else DigitsValue(d, false))
  {
    var t := if neg then "-" + d else d;
    if neg {
      assert t[1..] == d;
    } else {
      assert IsDigit(t[0]);
    }
  }

  /** A text that starts with neither a sign nor a digit is not a number. */
  lemma WordIsNaN(s: string)
    requires s != [] && Trimmed(s)
    requires !IsDigit(s[0]) && s[0] != '-' && s[0] != '+'
    ensures StringToNumber(s) == None
  {
    TrimTrimmed(s);
  }

  /** A text holding a comma is never a number. */
  lemma CommaIsNaN(s: string)
    requires ',' in s
    ensures StringToNumber(s) == None
  {
    CommaSurvivesTrim(s);
    CommaNotDecimal(Trim(s));
  }

  lemma CommaNotDecimal(t: string)
    requires ',' in t
    ensures SignedDecimal(t) == None
  {
    var k :| 0 <= k < |t| && t[k] == ',';
    if t[0] == '-' || t[0] == '+' {
      assert t[1..][k - 1] == ',';
    }
  }

  lemma CommaSurvivesTrim(s: string)
    requires ',' in s
    ensures ',' in Trim(s)
  {
    CommaSurvivesTrimStart(s);
    CommaSurvivesTrimEnd(TrimStart(s));
  }

  lemma CommaSurvivesTrimStart(s: string)
    requires ',' in s
    ensures ',' in TrimStart(s)
  {
    var r := TrimStart(s);
    var n := |s| - |r|;
    assert s == s[..n] + r;
    NoCommaInSpace(s[..n]);
  }

  lemma CommaSurvivesTrimEnd(s: string)
    requires ',' in s
    ensures ',' in TrimEnd(s)
  {
    var r := TrimEnd(s);
    assert s == r + s[|r|..];
    NoCommaInSpace(s[|r|..]);
  }

  lemma NoCommaInSpace(s: string)
    requires AllSpace(s)
    ensures ',' !in s
  {
  }

  lemma TrimStartNoop(s: string)
    requires s != [] && !IsSpace(s[0])
    ensures TrimStart(s) == s
  {
  }

  lemma DigitRunAll(s: string, hex: bool)
    requires forall i | 0 <= i < |s| :: RadixDigit(s[i], hex).Some?
    ensures DigitRun(s, hex) == |s|
  {
    if s != [] {
      DigitRunAll(s[1..], hex);
    }
  }
}
