/** The Python built-ins the script applies to file names, answers and numbers:
    `str.endswith`, `str.strip`, `str.lower`, `str.rfind`, `os.path.splitext`,
    `str(int)`, `math.floor(a / b)` and the prefix slice `s[:k]`. */
module PyText {

  /** `s.endswith(suffix)` */
  predicate EndsWith(s: string, suffix: string) {
    |suffix| <= |s| && s[|s| - |suffix|..] == suffix
  }

  /** `s.endswith(suffix)` holds exactly when `s` is some string followed by `suffix`. */
  lemma EndsWithIff(s: string, suffix: string)
    ensures EndsWith(s, suffix) <==> exists x :: s == x + suffix
  {
    if EndsWith(s, suffix) {
      assert s == s[..|s| - |suffix|] + suffix;
    }
    if exists x :: s == x + suffix {
      var x :| s == x + suffix;
      assert s[|s| - |suffix|..] == suffix;
    }
  }

  // ---------------------------------------------------------------------------
  // Whitespace and str.strip()

  /** The characters for which Python's `str.isspace()` is true. */
  predicate IsSpace(c: char) {
    || ('\t' <= c <= '\r')
    || ('\U{1C}' <= c <= '\U{1F}')
    || c == ' ' || c == '\U{85}' || c == '\U{A0}' || c == '\U{1680}'
    || ('\U{2000}' <= c <= '\U{200A}')
    || c == '\U{2028}' || c == '\U{2029}' || c == '\U{202F}' || c == '\U{205F}'
    || c == '\U{3000}'
  }

  predicate AllSpace(s: string) {
    forall i :: 0 <= i < |s| ==> IsSpace(s[i])
  }

  /** Neither end of `s` is whitespace (vacuously true of the empty string). */
  predicate Trimmed(s: string) {
    s == [] || (!IsSpace(s[0]) && !IsSpace(s[|s| - 1]))
  }

  function TrimStart(s: string): string {
    if s != [] && IsSpace(s[0]) then TrimStart(s[1..]) else s
  }

  function TrimEnd(s: string): string {
    if s != [] && IsSpace(s[|s| - 1]) then TrimEnd(s[..|s| - 1]) else s
  }

  /** `s.strip()` with no argument. */
  function Strip(s: string): string {
    TrimEnd(TrimStart(s))
  }

  lemma {:induction false} TrimStartSplits(s: string)
    ensures |TrimStart(s)| <= |s|
    ensures s == s[..|s| - |TrimStart(s)|] + TrimStart(s)
    ensures AllSpace(s[..|s| - |TrimStart(s)|])
    ensures TrimStart(s) == [] || !IsSpace(TrimStart(s)[0])
  {
    if s != [] && IsSpace(s[0]) {
      TrimStartSplits(s[1..]);
      var k := |s| - |TrimStart(s)|;
      assert s[..k] == [s[0]] + s[1..][..k - 1];
    }
  }

  lemma {:induction false} TrimEndSplits(s: string)
    ensures |TrimEnd(s)| <= |s|
    ensures s == TrimEnd(s) + s[|TrimEnd(s)|..]
    ensures AllSpace(s[|TrimEnd(s)|..])
    ensures TrimEnd(s) == [] || !IsSpace(TrimEnd(s)[|TrimEnd(s)| - 1])
  {
    if s != [] && IsSpace(s[|s| - 1]) {
      var p := s[..|s| - 1];
      TrimEndSplits(p);
      var k := |TrimEnd(s)|;
      assert TrimEnd(s) == TrimEnd(p);
      assert s == p + [s[|s| - 1]];
      assert s[k..] == p[k..] + [s[|s| - 1]];
      assert s[..k] == p[..k];
    }
  }

  lemma TrimEndKeepsFirst(s: string)
    requires s != [] && !IsSpace(s[0])
    ensures TrimEnd(s) != [] && TrimEnd(s)[0] == s[0]
  {
    if IsSpace(s[|s| - 1]) {
      TrimEndKeepsFirst(s[..|s| - 1]);
    }
  }

  /** `s.strip()` removes whitespace runs on both ends and nothing else:
      `s` is whitespace, then the result, then whitespace, and the result
      neither starts nor ends with whitespace. */
  lemma StripSplits(s: string)
    ensures exists i :: 0 <= i <= |s| - |Strip(s)| && AllSpace(s[..i])
                        && s[i..i + |Strip(s)|] == Strip(s) && AllSpace(s[i + |Strip(s)|..])
    ensures Trimmed(Strip(s))
  {
    TrimStartSplits(s);
    var u := TrimStart(s);
    var i := |s| - |u|;
    TrimEndSplits(u);
    var m := TrimEnd(u);
    assert m == Strip(s);
    StrippedIsTrimmed(u);
    assert s == s[..i] + u;
    assert s[i..] == u;
    assert u == m + u[|m|..];
    assert s[i..i + |m|] == m;
    assert s[i + |m|..] == u[|m|..];
    assert AllSpace(s[..i]) && AllSpace(s[i + |m|..]);
  }

  /** Trimming the end of a string that does not start with whitespace leaves
      no whitespace at either end. */
  lemma StrippedIsTrimmed(u: string)
    requires u == [] || !IsSpace(u[0])
    ensures Trimmed(TrimEnd(u))
  {
    TrimEndSplits(u);
    if u != [] {
      TrimEndKeepsFirst(u);
    }
  }

  lemma {:induction false} TrimStartDrops(w: string, m: string)
    requires AllSpace(w)
    requires m == [] || !IsSpace(m[0])
    ensures TrimStart(w + m) == m
  {
    if w != [] {
      assert (w + m)[1..] == w[1..] + m;
      TrimStartDrops(w[1..], m);
    }
  }

  lemma {:induction false} TrimEndDrops(m: string, w: string)
    requires AllSpace(w)
    requires m == [] || !IsSpace(m[|m| - 1])
    ensures TrimEnd(m + w) == m
  {
    if w != [] {
      var mw := m + w;
      assert mw[..|mw| - 1] == m + w[..|w| - 1];
      TrimEndDrops(m, w[..|w| - 1]);
    }
  }

  /** Conversely, whatever sits between two whitespace runs and has no
      whitespace at its ends is what `strip()` returns. */
  lemma StripUnique(w1: string, m: string, w2: string)
    requires AllSpace(w1) && AllSpace(w2) && Trimmed(m)
    ensures Strip(w1 + m + w2) == m
  {
    assert w1 + m + w2 == w1 + (m + w2);
    if m == [] {
      var w := w1 + w2;
      assert AllSpace(w) by {
        forall k | 0 <= k < |w| ensures IsSpace(w[k]) {
          if k < |w1| { assert w[k] == w1[k]; } else { assert w[k] == w2[k - |w1|]; }
        }
      }
      assert w1 + m + w2 == w + [];
      TrimStartDrops(w, []);
    } else {
      assert (m + w2)[0] == m[0];
      TrimStartDrops(w1, m + w2);
      TrimEndDrops(m, w2);
    }
  }

  // ---------------------------------------------------------------------------
  // str.lower()

  /** ASCII case folding; every other character is left as it is. */
  function LowerChar(c: char): char {
    if 'A' <= c <= 'Z' then (c as int + 32) as char else c
  }

  /** `s.lower()` */
  function Lower(s: string): string {
    seq(|s|, i requires 0 <= i < |s| => LowerChar(s[i]))
  }

  // ---------------------------------------------------------------------------
  // str.rfind(c) and os.path.splitext

  /** `s.rfind(c)`: the last index holding `c`, or -1. */
  function LastIndex(s: string, c: char): (r: int)
    ensures -1 <= r < |s|
    ensures r >= 0 ==> s[r] == c
    ensures forall k :: r < k < |s| ==> s[k] != c
  {
    if s == [] then -1
    else if s[|s| - 1] == c then |s| - 1
    else LastIndex(s[..|s| - 1], c)
  }

  /** After the last slash of `base` (or anywhere, when it has none) there is
      a character that is not a dot. */
  predicate LastComponentHasNonDot(base: string) {
    exists k :: 0 <= k < |base| && base[k] != '.' && base[k] != '/'
                && forall j :: k < j < |base| ==> base[j] != '/'
  }

  /** Some character of `s[lo..hi]` is not a dot. */
  predicate HasNonDot(s: string, lo: int, hi: int)
    requires 0 <= lo <= hi <= |s|
  {
    exists k :: lo <= k < hi && s[k] != '.'
  }

  /** `os.path.splitext(p)` on POSIX: split at the last `.` after the last `/`,
      but only when a non-dot character stands between that `/` and that `.`;
      otherwise the extension is empty. */
  function SplitExt(p: string): (string, string) {
    var sep := LastIndex(p, '/');
    var dot := LastIndex(p, '.');
    if dot > sep && HasNonDot(p, sep + 1, dot) then (p[..dot], p[dot..]) else (p, "")
  }

  /** The two parts put back together give the path; a non-empty extension is
      one dot followed by neither dots nor slashes, after a base whose last
      component has a character that is neither a dot nor a slash. */
  lemma SplitExtParts(p: string)
    ensures SplitExt(p).0 + SplitExt(p).1 == p
    ensures var ext := SplitExt(p).1;
            ext == [] || (ext[0] == '.' && forall k :: 1 <= k < |ext| ==> ext[k] != '.' && ext[k] != '/')
    ensures var (base, ext) := SplitExt(p);
            ext != [] ==> LastComponentHasNonDot(base)
  {
    var sep := LastIndex(p, '/');
    var dot := LastIndex(p, '.');
    if dot > sep && HasNonDot(p, sep + 1, dot) {
      var ext := p[dot..];
      assert p[..dot] + ext == p;
      forall k | 1 <= k < |ext| ensures ext[k] != '.' && ext[k] != '/' {
        assert ext[k] == p[dot + k];
      }
      var k :| sep + 1 <= k < dot && p[k] != '.';
      assert p[..dot][k] != '.' && p[..dot][k] != '/';
    }
  }

  /** Conversely, a path that is such a base, a dot and a dot- and slash-free
      remainder is split exactly there. */
  lemma SplitExtUnique(base: string, rest: string)
    requires LastComponentHasNonDot(base)
    requires forall k :: 0 <= k < |rest| ==> rest[k] != '.' && rest[k] != '/'
    ensures SplitExt(base + "." + rest) == (base, "." + rest)
  {
    var p := base + "." + rest;
    var k :| 0 <= k < |base| && base[k] != '.' && base[k] != '/'
             && forall j :: k < j < |base| ==> base[j] != '/';
    assert p[|base|] == '.';
    forall j | |base| < j < |p| ensures p[j] != '.' && p[j] != '/' {
      assert p[j] == rest[j - |base| - 1];
    }
    assert LastIndex(p, '.') == |base|;
    forall j | k <= j < |p| ensures p[j] != '/' {
      if j < |base| { assert p[j] == base[j]; }
    }
    assert LastIndex(p, '/') < k;
    assert p[k] == base[k];
    assert p[..|base|] == base;
    assert p[|base|..] == "." + rest;
  }

  /** A listed file name `x.csv` whose `x` has a character other than a dot
      (and, as every name `os.listdir` gives, no slash) splits into `x` and `.csv`. */
  lemma SplitCsvName(x: string)
    requires forall k :: 0 <= k < |x| ==> x[k] != '/'
    requires exists k :: 0 <= k < |x| && x[k] != '.'
    ensures SplitExt(x + ".csv") == (x, ".csv")
  {
    var p := x + ".csv";
    var k :| 0 <= k < |x| && x[k] != '.';
    assert p[|x|] == '.';
    assert LastIndex(p, '.') == |x|;
    assert LastIndex(p, '/') == -1 by {
      forall j | 0 <= j < |p| ensures p[j] != '/' {
        if j < |x| { assert p[j] == x[j]; }
      }
    }
    assert p[k] != '.';
    assert p[..|x|] == x;
  }

  /** A name that is only dots before `.csv`, such as `.csv` or `...csv`, has
      no extension. */
  lemma DotsOnlyHaveNoExtension(x: string)
    requires forall k :: 0 <= k < |x| ==> x[k] == '.'
    ensures SplitExt(x + ".csv") == (x + ".csv", "")
  {
    var p := x + ".csv";
    assert p[|x|] == '.' && p[|x| + 1] != '.' && p[|x| + 2] != '.' && p[|x| + 3] != '.';
    assert LastIndex(p, '.') == |x|;
    forall j | 0 <= j < |p| ensures p[j] != '/' {
      if j < |x| { assert p[j] == x[j]; }
    }
    assert LastIndex(p, '/') == -1;
    assert !HasNonDot(p, 0, |x|) by {
      forall j | 0 <= j < |x| ensures p[j] == '.' { assert p[j] == x[j]; }
    }
  }

  // ---------------------------------------------------------------------------
  // str(n) for an int

  function DigitChar(d: nat): char
    requires d < 10
  {
    ['0', '1', '2', '3', '4', '5', '6', '7', '8', '9'][d]
  }

  predicate IsDigit(c: char) {
    '0' <= c <= '9'
  }

  function DigitValue(c: char): nat
    requires IsDigit(c)
  {
    c as int - '0' as int
  }

  function NatDecimal(n: nat): string {
    if n < 10 then [DigitChar(n)] else NatDecimal(n / 10) + [DigitChar(n % 10)]
  }

  /** `str(n)`: an optional minus sign, then decimal digits. */
  function Decimal(n: int): string {
    if n < 0 then "-" + NatDecimal(-n) else NatDecimal(n)
  }

  /** Reads decimal digits back into a number (the inverse of `NatDecimal`). */
  function DigitsValue(s: string): nat
    requires forall k :: 0 <= k < |s| ==> IsDigit(s[k])
  {
    if s == [] then 0 else DigitsValue(s[..|s| - 1]) * 10 + DigitValue(s[|s| - 1])
  }

  /** Reads an optional minus sign and digits back into an int. */
  function ParseDecimal(s: string): int
    requires s != []
    requires s[0] == '-' || IsDigit(s[0])
    requires forall k :: 1 <= k < |s| ==> IsDigit(s[k])
  {
    if s[0] == '-' then 0 - DigitsValue(s[1..]) as int else DigitsValue(s)
  }

  /** `str(n)` for a natural number is non-empty, all digits, without a
      leading zero, and reads back as `n`. */
  lemma {:induction false} NatDecimalRoundTrip(n: nat)
    ensures NatDecimal(n) != []
    ensures forall k :: 0 <= k < |NatDecimal(n)| ==> IsDigit(NatDecimal(n)[k])
    ensures |NatDecimal(n)| > 1 ==> NatDecimal(n)[0] != '0'
    ensures DigitsValue(NatDecimal(n)) == n
  {
    if n >= 10 {
      NatDecimalRoundTrip(n / 10);
      var s := NatDecimal(n);
      assert s[..|s| - 1] == NatDecimal(n / 10);
    }
  }

  /** `str(n)` reads back as `n` for every int. */
  lemma DecimalRoundTrip(n: int)
    ensures var s := Decimal(n);
            s != [] && (s[0] == '-' || IsDigit(s[0])) && (forall k :: 1 <= k < |s| ==> IsDigit(s[k]))
            && ParseDecimal(s) == n
  {
    if n < 0 {
      NatDecimalRoundTrip(-n);
      assert Decimal(n)[1..] == NatDecimal(-n);
    } else {
      NatDecimalRoundTrip(n);
    }
  }

  // ---------------------------------------------------------------------------
  // math.floor(a / b) and the prefix slice s[:k]

  /** `math.floor(a / b)` for a non-zero `b`, as exact integer arithmetic. */
  function FloorDiv(a: int, b: int): (q: int)
    requires b != 0
    ensures b > 0 ==> q * b <= a < q * b + b
    ensures b < 0 ==> q * b >= a > q * b + b
  {
    if b > 0 then a / b else (-a) / (-b)
  }

  /** Dividing a natural number by a positive divisor never gives more than it. */
  lemma FloorDivAtMost(a: nat, b: int)
    requires b >= 1
    ensures 0 <= FloorDiv(a, b) <= a
  {
  }

  /** Python's prefix slice `s[:stop]`: a non-negative stop keeps that many
      elements (at most all of them), a negative stop drops that many from the
      end (at most all of them). */
  function PrefixSlice<T>(s: seq<T>, stop: int): (r: seq<T>)
    ensures |r| == if stop >= 0 then (if stop <= |s| then stop else |s|)
                   else (if |s| + stop >= 0 then |s| + stop else 0)
    ensures r == s[..|r|]
  {
    if stop >= 0 then (if stop <= |s| then s[..stop] else s)
    else if |s| + stop >= 0 then s[..|s| + stop]
    else []
  }
}
