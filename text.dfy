/** The Python string operations the two handlers use: `lower`, `endswith`, `strip`,
    `rstrip`, `in` on strings, `os.path.join` (POSIX) and `int()` on a decimal string. */
module Text {
  import opened Options

  // ---------------------------------------------------------------------------
  // Characters

  /** Python's `str.isspace`: the characters `str.strip()` removes. */
  predicate IsSpace(c: char) {
    || c == ' '
    || ('\t' <= c <= '\r')
    || ('\U{1C}' <= c <= '\U{1F}')
    || c == '\U{85}' || c == '\U{A0}' || c == '\U{1680}'
    || ('\U{2000}' <= c <= '\U{200A}')
    || c == '\U{2028}' || c == '\U{2029}' || c == '\U{202F}' || c == '\U{205F}' || c == '\U{3000}'
  }

  predicate IsSlash(c: char) {
    c == '/'
  }

  predicate IsDigit(c: char) {
    '0' <= c <= '9'
  }

  function DigitValue(c: char): (d: nat)
    requires IsDigit(c)
    ensures d < 10
  {
    c as int - '0' as int
  }

  function DigitChar(d: nat): (c: char)
    requires d < 10
    ensures IsDigit(c) && DigitValue(c) == d
  {
    ('0' as int + d) as char
  }

  /** ASCII case folding: `A`..`Z` become `a`..`z`, everything else is kept. */
  function LowerChar(c: char): char {
    if 'A' <= c <= 'Z' then (c as int + 32) as char else c
  }

  // ---------------------------------------------------------------------------
  // Strings

  predicate IsUpper(c: char) {
    'A' <= c <= 'Z'
  }

  /** `s.lower()` on the ASCII letters: no capital is left, each capital becomes the small
      letter at the same place in the alphabet, and every other character is kept. */
  function Lower(s: string): (r: string)
    ensures |r| == |s|
    ensures forall i :: 0 <= i < |r| ==> !IsUpper(r[i])
    ensures forall i :: 0 <= i < |s| && !IsUpper(s[i]) ==> r[i] == s[i]
    ensures forall i :: 0 <= i < |s| && IsUpper(s[i]) ==>
              'a' <= r[i] <= 'z' && r[i] as int - 'a' as int == s[i] as int - 'A' as int
  {
    seq(|s|, i requires 0 <= i < |s| => LowerChar(s[i]))
  }

  /** Lower-casing twice is lower-casing once. */
  lemma LowerIdempotent(s: string)
    ensures Lower(Lower(s)) == Lower(s)
  {
  }

  /** `s.lower().endswith(suffix)` for a lower-case `suffix`: the last `|suffix|` characters of
      `s` spell `suffix` once capitals are folded. */
  ghost predicate EndsWithIgnoringCase(s: string, suffix: string) {
    |suffix| <= |s| && forall i :: 0 <= i < |suffix| ==> LowerChar(s[|s| - |suffix| + i]) == suffix[i]
  }

  lemma LowerEndsWith(s: string, suffix: string)
    ensures EndsWith(Lower(s), suffix) <==> EndsWithIgnoringCase(s, suffix)
  {
    if |suffix| <= |s| {
      var tail := Lower(s)[|s| - |suffix|..];
      assert forall i :: 0 <= i < |suffix| ==> tail[i] == LowerChar(s[|s| - |suffix| + i]);
      if EndsWithIgnoringCase(s, suffix) {
        assert tail == suffix;
      }
    }
  }

  predicate StartsWith(s: string, prefix: string) {
    |prefix| <= |s| && s[..|prefix|] == prefix
  }

  /** `s.endswith(suffix)`. */
  predicate EndsWith(s: string, suffix: string) {
    |suffix| <= |s| && s[|s| - |suffix|..] == suffix
  }

  /** `p in s` for two strings: `p` occurs in `s` as a contiguous substring. */
  predicate HasSubstring(s: string, p: string)
    decreases |s|
  {
    if |s| < |p| then false
    else s[..|p|] == p || (s != [] && HasSubstring(s[1..], p))
  }

  /** Removes the longest suffix of characters satisfying `drop` (`s.rstrip(chars)`).
      The result is the longest prefix of `s` that does not end in such a character. */
  function TrimEnd(s: string, drop: char -> bool): (r: string)
    ensures |r| <= |s| && r == s[..|r|]
    ensures r == [] || !drop(r[|r| - 1])
    ensures forall i :: |r| <= i < |s| ==> drop(s[i])
  {
    if s != [] && drop(s[|s| - 1]) then
      var r := TrimEnd(s[..|s| - 1], drop);
      assert forall i :: 0 <= i < |s| - 1 ==> s[i] == s[..|s| - 1][i];
      r
    else s
  }

  /** Removes the longest prefix of characters satisfying `drop` (`s.lstrip(chars)`). */
  function TrimStart(s: string, drop: char -> bool): (r: string)
    ensures |r| <= |s| && r == s[|s| - |r|..]
    ensures r == [] || !drop(r[0])
    ensures forall i :: 0 <= i < |s| - |r| ==> drop(s[i])
  {
    if s != [] && drop(s[0]) then
      var r := TrimStart(s[1..], drop);
      assert forall i :: 1 <= i < |s| ==> s[i] == s[1..][i - 1];
      r
    else s
  }

  /** The three properties of `TrimEnd` determine its result: any prefix with them is it. */
  lemma TrimEndUnique(s: string, drop: char -> bool, p: string)
    requires |p| <= |s| && p == s[..|p|]
    requires p == [] || !drop(p[|p| - 1])
    requires forall i :: |p| <= i < |s| ==> drop(s[i])
    ensures TrimEnd(s, drop) == p
  {
  }

  /** Appending a dropped character does not change what `TrimEnd` keeps. */
  lemma TrimEndAbsorbs(s: string, drop: char -> bool, c: char)
    requires drop(c)
    ensures TrimEnd(s + [c], drop) == TrimEnd(s, drop)
  {
    assert (s + [c])[..|s|] == s;
  }

  /** `r` is the slice of `s` from `k` on, and every character of `s` outside that slice
      satisfies `drop`. */
  ghost predicate TrimmedAt(s: string, drop: char -> bool, k: nat, r: string) {
    && k + |r| <= |s|
    && r == s[k..k + |r|]
    && (forall i :: 0 <= i < k ==> drop(s[i]))
    && (forall i :: k + |r| <= i < |s| ==> drop(s[i]))
  }

  /** Removes the characters satisfying `drop` from both ends (`s.strip(chars)`): what is
      left is a slice of `s` that neither starts nor ends with such a character, and all
      that was cut off on either side consists of them. */
  function TrimBoth(s: string, drop: char -> bool): (r: string)
    ensures r == [] || (!drop(r[0]) && !drop(r[|r| - 1]))
    ensures exists k: nat :: TrimmedAt(s, drop, k, r)
  {
    var t := TrimStart(s, drop);
    var r := TrimEnd(t, drop);
    var k := |s| - |t|;
    assert forall i :: k + |r| <= i < |s| ==> s[i] == t[i - k];
    assert r == s[k..k + |r|];
    assert TrimmedAt(s, drop, k, r);
    r
  }

  /** Those properties determine the result: any slice with them is what `TrimBoth` keeps. */
  lemma TrimBothUnique(s: string, drop: char -> bool, k: nat, p: string)
    requires TrimmedAt(s, drop, k, p)
    requires p == [] || (!drop(p[0]) && !drop(p[|p| - 1]))
    ensures TrimBoth(s, drop) == p
  {
    var r := TrimBoth(s, drop);
    var j: nat :| TrimmedAt(s, drop, j, r);
    if p != [] && r != [] {
      assert r[0] == s[j] && p[0] == s[k];
      assert j == k;
      assert r[|r| - 1] == s[j + |r| - 1] && p[|p| - 1] == s[k + |p| - 1];
      assert |r| == |p|;
    }
  }

  /** `s.strip()`: the whitespace at both ends goes, and nothing else. */
  function Strip(s: string): (r: string)
    ensures |r| <= |s|
    ensures r == [] || (!IsSpace(r[0]) && !IsSpace(r[|r| - 1]))
    ensures exists k: nat :: TrimmedAt(s, IsSpace, k, r)
  {
    TrimBoth(s, IsSpace)
  }

  /** A string without whitespace is its own `strip()`. */
  lemma StripWithoutSpace(s: string)
    requires forall i :: 0 <= i < |s| ==> !IsSpace(s[i])
    ensures Strip(s) == s
  {
    assert s[0..|s|] == s;
    TrimBothUnique(s, IsSpace, 0, s);
  }

  // ---------------------------------------------------------------------------
  // Paths

  /** The directory part `os.path.join(dir, name)` puts in front of a relative `name`. */
  function DirPrefix(dir: string): string {
    if dir == [] || EndsWith(dir, "/") then dir else dir + "/"
  }

  /** `os.path.join(dir, name)` with POSIX rules: an absolute `name` replaces `dir`, otherwise
      one `/` separates them unless `dir` is empty or already ends with one. */
  function JoinPath(dir: string, name: string): (path: string)
    ensures StartsWith(name, "/") ==> path == name
    ensures !StartsWith(name, "/") ==> path == DirPrefix(dir) + name
  {
    if StartsWith(name, "/") then name
    else if dir == [] || EndsWith(dir, "/") then dir + name
    else dir + "/" + name
  }

  // ---------------------------------------------------------------------------
  // Decimal integers

  predicate AllDigits(s: string) {
    forall i :: 0 <= i < |s| ==> IsDigit(s[i])
  }

  /** The value of a string of decimal digits, most significant first. */
  function DigitsValue(s: string): nat
    requires AllDigits(s)
  {
    if s == [] then 0 else DigitsValue(s[..|s| - 1]) * 10 + DigitValue(s[|s| - 1])
  }

  /** `str(n)` for a natural number: its shortest decimal rendering. */
  function Decimal(n: nat): (r: string)
    ensures r != [] && AllDigits(r)
    ensures DigitsValue(r) == n
    ensures |r| > 1 ==> r[0] != '0'
  {
    if n < 10 then [DigitChar(n)]
    else
      var init := Decimal(n / 10);
      var r := init + [DigitChar(n % 10)];
      assert r[..|r| - 1] == init;
      r
  }

  /** `str(n)` for any integer. */
  function IntString(n: int): string {
    if n < 0 then "-" + Decimal(-n) else Decimal(n)
  }

  /** The body `int()` accepts after an optional sign: decimal digits, where a single `_` may
      stand between two digits. */
  predicate IsDigitGroup(s: string) {
    && s != []
    && IsDigit(s[0])
    && IsDigit(s[|s| - 1])
    && (forall i :: 0 <= i < |s| ==> IsDigit(s[i]) || s[i] == '_')
    && (forall i :: 0 <= i < |s| - 1 && s[i] == '_' ==> IsDigit(s[i + 1]))
  }

  /** The digits of `s` with the `_` separators taken out. */
  function DropUnderscores(s: string): (r: string)
    requires forall i :: 0 <= i < |s| ==> IsDigit(s[i]) || s[i] == '_'
    ensures AllDigits(r)
    ensures AllDigits(s) ==> r == s
  {
    if s == [] then []
    else (if s[0] == '_' then [] else [s[0]]) + DropUnderscores(s[1..])
  }

  /** The whitespace `int()` skips around a number: ` `, `\t` to `\r`, and the non-ASCII
      characters `str.isspace` accepts. Unlike `strip()`, it does not skip the ASCII
      separators U+001C to U+001F. */
  predicate IntSpace(c: char) {
    IsSpace(c) && !('\U{1C}' <= c <= '\U{1F}')
  }

  /** The most digits `int()` converts from a decimal string (`sys.get_int_max_str_digits()`,
      in every Python that has the limit); a longer string raises `ValueError`. */
  const MaxStrDigits := 4300

  /** Python's `int(s)` in base 10: surrounding whitespace is ignored, one sign is allowed,
      and the rest must be a digit group of at most `MaxStrDigits` digits. `None` stands for
      the `ValueError` it raises. Text without a digit is always refused. */
  function ParseInt(s: string): (r: Option<int>)
    ensures r.Some? ==> exists i :: 0 <= i < |s| && IsDigit(s[i])
  {
    var t := TrimBoth(s, IntSpace);
    SignedHasDigit(t);
    DigitInSlice(s, IntSpace, t);
    ParseSigned(t)
  }

  /** The value of a digit group within the digit limit. */
  function GroupValue(body: string): Option<nat> {
    if IsDigitGroup(body) && |DropUnderscores(body)| <= MaxStrDigits
    then Some(DigitsValue(DropUnderscores(body)))
    else None
  }

  /** `int()` on text already stripped of whitespace. */
  function ParseSigned(t: string): Option<int> {
    if t != [] && (t[0] == '+' || t[0] == '-') then
      match GroupValue(t[1..])
      case None => None
      case Some(v) => var n: int := v; Some(if t[0] == '-' then -n else n)
    else
      match GroupValue(t)
      case None => None
      case Some(v) => Some(v)
  }

  lemma SignedHasDigit(t: string)
    ensures ParseSigned(t).Some? ==> exists i :: 0 <= i < |t| && IsDigit(t[i])
  {
    if ParseSigned(t).Some? {
      if t[0] == '+' || t[0] == '-' {
        assert IsDigit(t[1..][0]);
      } else {
        assert IsDigit(t[0]);
      }
    }
  }

  lemma DigitInSlice(s: string, drop: char -> bool, t: string)
    requires exists k: nat :: TrimmedAt(s, drop, k, t)
    ensures (exists i :: 0 <= i < |t| && IsDigit(t[i])) ==> exists i :: 0 <= i < |s| && IsDigit(s[i])
  {
    var k: nat :| TrimmedAt(s, drop, k, t);
    if exists i :: 0 <= i < |t| && IsDigit(t[i]) {
      var i :| 0 <= i < |t| && IsDigit(t[i]);
      assert t[i] == s[k + i];
    }
  }

  /** `int()` skips any run of its whitespace before and after the number. */
  lemma ParseIntSkipsPadding(pre: string, t: string, post: string)
    requires forall i :: 0 <= i < |pre| ==> IntSpace(pre[i])
    requires forall i :: 0 <= i < |post| ==> IntSpace(post[i])
    requires t == [] || (!IntSpace(t[0]) && !IntSpace(t[|t| - 1]))
    ensures ParseInt(pre + t + post) == ParseInt(t)
  {
    var s := pre + t + post;
    assert s[|pre|..|pre| + |t|] == t;
    assert forall i :: 0 <= i < |pre| ==> s[i] == pre[i];
    assert forall i :: |pre| + |t| <= i < |s| ==> s[i] == post[i - |pre| - |t|];
    TrimBothUnique(s, IntSpace, |pre|, t);
    assert t[0..|t|] == t;
    TrimBothUnique(t, IntSpace, 0, t);
  }

  /** Unlike `strip()`, `int()` does not skip the separator U+001C: `int("\x1c60")` raises. */
  lemma SeparatorNotSkipped()
    ensures Strip("\U{1C}60") == "60"
    ensures ParseInt("\U{1C}60").None?
  {
    SeparatorStripped();
    SeparatorKeptByInt();
  }

  lemma SeparatorStripped()
    ensures Strip("\U{1C}60") == "60"
  {
    var s := "\U{1C}60";
    assert IsSpace(s[0]) && !IsSpace(s[1]) && !IsSpace(s[2]);
    assert s[1..3] == "60";
    assert TrimmedAt(s, IsSpace, 1, "60");
    TrimBothUnique(s, IsSpace, 1, "60");
  }

  lemma SeparatorKeptByInt()
    ensures ParseInt("\U{1C}60").None?
  {
    SeparatorNotTrimmed();
    SeparatorNotNumber();
  }

  lemma SeparatorNotTrimmed()
    ensures TrimBoth("\U{1C}60", IntSpace) == "\U{1C}60"
  {
    var s := "\U{1C}60";
    assert !IntSpace(s[0]) && !IntSpace(s[2]);
    assert s[0..3] == s;
    TrimBothUnique(s, IntSpace, 0, s);
  }

  lemma SeparatorNotNumber()
    ensures ParseSigned("\U{1C}60").None?
  {
    var s := "\U{1C}60";
    assert !IsDigit(s[0]) && s[0] != '+' && s[0] != '-';
  }

  /** Digits and signs are not whitespace, so `int()` has nothing to skip around a rendered
      number. */
  lemma StripNumber(s: string)
    requires forall i :: 0 <= i < |s| ==> s[i] == '-' || IsDigit(s[i])
    ensures TrimBoth(s, IntSpace) == s
  {
    assert s[0..|s|] == s;
    if s != [] {
      NumberCharNotSpace(s[0]);
      NumberCharNotSpace(s[|s| - 1]);
    }
    TrimBothUnique(s, IntSpace, 0, s);
  }

  lemma NumberCharNotSpace(c: char)
    requires c == '-' || IsDigit(c)
    ensures !IntSpace(c)
  {
  }

  /** A non-empty digit string parses to its value, unless it has more digits than `int()`
      converts. */
  lemma ParseDigits(d: string)
    requires d != [] && AllDigits(d)
    ensures ParseInt(d) == if |d| <= MaxStrDigits then Some(DigitsValue(d)) else None
  {
    StripNumber(d);
    DigitsAreGroup(d);
    ParseSignedUnsigned(d);
  }

  lemma ParseSignedUnsigned(t: string)
    requires IsDigitGroup(t)
    ensures ParseSigned(t) == if |DropUnderscores(t)| <= MaxStrDigits
                              then Some(DigitsValue(DropUnderscores(t))) else None
  {
  }

  /** Plain digits form a digit group without separators. */
  lemma DigitsAreGroup(d: string)
    requires d != [] && AllDigits(d)
    ensures IsDigitGroup(d) && DropUnderscores(d) == d
  {
  }

  /** `-` followed by a non-empty digit string parses to the negated value, within the same
      digit limit. */
  lemma ParseNegatedDigits(s: string)
    requires |s| > 1 && s[0] == '-' && AllDigits(s[1..])
    ensures ParseInt(s) == if |s| - 1 <= MaxStrDigits then Some(0 - DigitsValue(s[1..])) else None
  {
    NegatedDigitsChars(s);
    StripNumber(s);
    DigitsAreGroup(s[1..]);
    ParseSignedNegative(s);
  }

  lemma NegatedDigitsChars(s: string)
    requires |s| > 1 && s[0] == '-' && AllDigits(s[1..])
    ensures forall i :: 0 <= i < |s| ==> s[i] == '-' || IsDigit(s[i])
  {
    forall i | 0 < i < |s| ensures IsDigit(s[i]) {
      assert s[i] == s[1..][i - 1];
    }
  }

  lemma ParseSignedNegative(t: string)
    requires t != [] && t[0] == '-' && IsDigitGroup(t[1..])
    ensures ParseSigned(t) == if |DropUnderscores(t[1..])| <= MaxStrDigits
                              then Some(0 - DigitsValue(DropUnderscores(t[1..]))) else None
  {
  }

  /** The number of digits in `str(n)`. */
  function DigitCount(n: int): nat {
    |Decimal(if n < 0 then -n else n)|
  }

  /** `int(str(n)) == n` for every integer whose rendering has at most `MaxStrDigits` digits;
      a longer rendering is refused. */
  lemma ParseIntString(n: int)
    ensures ParseInt(IntString(n)) == if DigitCount(n) <= MaxStrDigits then Some(n) else None
  {
    if n < 0 {
      ParseNegativeString(n);
    } else {
      ParseDigits(Decimal(n));
    }
  }

  lemma ParseNegativeString(n: int)
    requires n < 0
    ensures ParseInt(IntString(n)) == if DigitCount(n) <= MaxStrDigits then Some(n) else None
  {
    var s := IntString(n);
    assert s[1..] == Decimal(-n);
    ParseNegatedDigits(s);
  }
}
