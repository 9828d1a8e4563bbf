/** The package file-name convention `<filenameBase>-<version>.zip` and the
    pattern `(?:.+/)?\w+-(\d+).zip` that the installer checks it against with
    `Matcher.matches()`, together with the Java `Integer.toString` /
    `Integer.valueOf` conversions the check goes through. */
module PackageFilename {
  import opened Wrappers

  const MinInt: int := -0x8000_0000
  const MaxInt: int := 0x7fff_ffff

  /** A Java `int`. */
  type Int32 = x: int | MinInt <= x <= MaxInt

  // ---------------------------------------------------------------------------
  // Character classes of java.util.regex without UNICODE_CHARACTER_CLASS

  /** `\d`: an ASCII digit. */
  predicate IsDigit(c: char) {
    '0' <= c <= '9'
  }

  /** `\w`: `[a-zA-Z_0-9]`. */
  predicate IsWordChar(c: char) {
    'a' <= c <= 'z' || 'A' <= c <= 'Z' || c == '_' || IsDigit(c)
  }

  /** The characters that `.` does not match when DOTALL is off. */
  predicate IsLineTerminator(c: char) {
    c == '\n' || c == '\r' || c == '\U{85}' || c == '\U{2028}' || c == '\U{2029}'
  }

  predicate AllDigits(s: string) {
    forall i :: 0 <= i < |s| ==> IsDigit(s[i])
  }

  predicate AllWordChars(s: string) {
    forall i :: 0 <= i < |s| ==> IsWordChar(s[i])
  }

  predicate NoLineTerminator(s: string) {
    forall i :: 0 <= i < |s| ==> !IsLineTerminator(s[i])
  }

  /** Index of the last occurrence of `c` in `s`, or -1 when there is none. */
  function LastIndexOf(s: string, c: char): (k: int)
    ensures -1 <= k < |s|
    ensures k >= 0 ==> s[k] == c
  {
    if |s| == 0 then -1
    else if s[|s| - 1] == c then |s| - 1
    else LastIndexOf(s[..|s| - 1], c)
  }

  // ---------------------------------------------------------------------------
  // The pattern

  /** `(?:.+/)?\w+`: a non-empty run of word characters, optionally preceded by
      a directory part that ends in '/' and whose text before that '/' is
      non-empty and free of line terminators. Since `\w` excludes '/', the
      word run starts right after the last '/'. */
  predicate IsPackageStem(s: string) {
    if '/' !in s then 0 < |s| && AllWordChars(s)
    else
      var j := LastIndexOf(s, '/');
      && j + 1 < |s|
      && AllWordChars(s[j + 1..])
      && 0 < j && NoLineTerminator(s[..j])
  }

  /** `(?:.+/)?\w+` read as a concatenation: a non-empty word, or a
      non-empty text free of line terminators, a '/', and a non-empty word. */
  ghost predicate IsDirectoryWord(s: string) {
    || (0 < |s| && AllWordChars(s))
    || exists p, w :: s == p + "/" + w && 0 < |p| && NoLineTerminator(p) && 0 < |w| && AllWordChars(w)
  }

  /** `(?:.+/)?\w+-(\d+)` on the text before the `.zip` suffix:
      `Some(group(1))` when it matches. Because neither `\d` nor `\w`
      matches '-', the literal '-' is the last one of the text. */
  function MatchStemVersion(s: string): (g: Option<string>)
    ensures g.Some? ==> |g.value| > 0 && AllDigits(g.value)
  {
    var k := LastIndexOf(s, '-');
    if 0 <= k && k + 1 < |s| && IsPackageStem(s[..k]) && AllDigits(s[k + 1..]) then
      Some(s[k + 1..])
    else
      None
  }

  /** `Pattern.compile("(?:.+/)?\\w+-(\\d+).zip").matcher(f)`: `Some(group(1))`
      when `matches()` holds, `None` otherwise. The last three characters must
      be "zip"; the character before them is the unescaped `.`, which accepts
      anything but a line terminator. */
  function MatchPackageFilename(f: string): (g: Option<string>)
    ensures g.Some? ==> |g.value| > 0 && AllDigits(g.value)
  {
    if |f| < 4 || f[|f| - 3] != 'z' || f[|f| - 2] != 'i' || f[|f| - 1] != 'p' || IsLineTerminator(f[|f| - 4]) then None
    else MatchStemVersion(f[..|f| - 4])
  }

  /** The pattern read as a concatenation: `f` splits into a stem, a '-', a
      non-empty digit run, one character that is not a line terminator, and
      "zip". */
  ghost predicate MatchesAs(f: string, stem: string, digits: string, dot: char) {
    && f == stem + "-" + digits + [dot] + "zip"
    && IsDirectoryWord(stem)
    && |digits| > 0
    && AllDigits(digits)
    && !IsLineTerminator(dot)
  }

  /** `LastIndexOf` finds nothing exactly when `c` does not occur. */
  lemma {:induction false} LastIndexOfAbsent(s: string, c: char)
    ensures LastIndexOf(s, c) == -1 <==> c !in s
  {
    if |s| > 0 {
      var init := s[..|s| - 1];
      LastIndexOfAbsent(init, c);
      assert s == init + [s[|s| - 1]];
    }
  }

  /** The last occurrence of `c` in `a + b` lies in `b` when `b` holds one,
      and otherwise is the last one of `a`. */
  lemma {:induction false} LastIndexOfAppend(a: string, b: string, c: char)
    ensures LastIndexOf(a + b, c)
         == if LastIndexOf(b, c) >= 0 then |a| + LastIndexOf(b, c) else LastIndexOf(a, c)
    decreases |b|
  {
    if |b| > 0 {
      assert (a + b)[..|a + b| - 1] == a + b[..|b| - 1];
      LastIndexOfAppend(a, b[..|b| - 1], c);
    } else {
      assert a + b == a;
    }
  }

  /** The stem test splitting at the last '/' accepts exactly the texts of
      the shape `(?:.+/)?\w+`. */
  lemma StemIsDirectoryWord(s: string)
    ensures IsPackageStem(s) <==> IsDirectoryWord(s)
  {
    if IsPackageStem(s) {
      StemHasShape(s);
    }
    if IsDirectoryWord(s) {
      if 0 < |s| && AllWordChars(s) {
        assert forall i :: 0 <= i < |s| ==> s[i] != '/';
      } else {
        var p, w :| s == p + "/" + w && 0 < |p| && NoLineTerminator(p) && 0 < |w| && AllWordChars(w);
        DirectoryWordIsStem(p, w);
      }
    }
  }

  /** A stem that holds a '/' splits at its last one into a directory part and
      a word. */
  lemma StemHasShape(s: string)
    requires IsPackageStem(s)
    ensures IsDirectoryWord(s)
  {
    if '/' in s {
      LastIndexOfAbsent(s, '/');
      var j := LastIndexOf(s, '/');
      var p, w := s[..j], s[j + 1..];
      assert s == p + "/" + w;
    }
  }

  /** A directory part, '/', and a word form a stem: the word holds no '/',
      so the '/' after the directory part is the last one. */
  lemma DirectoryWordIsStem(p: string, w: string)
    requires 0 < |p| && NoLineTerminator(p) && 0 < |w| && AllWordChars(w)
    ensures IsPackageStem(p + "/" + w)
  {
    var s := p + "/" + w;
    assert forall i :: 0 <= i < |w| ==> w[i] != '/';
    LastIndexOfAbsent(w, '/');
    LastIndexOfAppend(p + "/", w, '/');
    assert (p + "/")[|p|] == '/';
    assert LastIndexOf(p + "/", '/') == |p|;
    assert s[|p|] == '/';
    assert s[..|p|] == p && s[|p| + 1..] == w;
  }

  /** In `stem + "-" + digits` the last '-' is the one after the stem. */
  lemma LastDashBeforeDigits(stem: string, digits: string)
    requires AllDigits(digits)
    ensures LastIndexOf(stem + "-" + digits, '-') == |stem|
  {
    assert forall i :: 0 <= i < |digits| ==> digits[i] != '-';
    assert LastIndexOf(digits, '-') == -1;
    LastIndexOfAppend(stem + "-", digits, '-');
    LastIndexOfAppend(stem, "-", '-');
  }

  /** On `s + [dot] + "zip"` the suffix test passes and the rest of the
      matcher works on `s`. */
  lemma MatchOnStem(f: string, s: string, dot: char)
    requires f == s + [dot] + "zip" && !IsLineTerminator(dot)
    ensures MatchPackageFilename(f) == MatchStemVersion(s)
  {
    var n := |s|;
    assert f[n] == dot && f[n + 1] == 'z' && f[n + 2] == 'i' && f[n + 3] == 'p';
    assert f[..n] == s;
  }

  /** A stem, '-' and a digit run match, capturing the digits. */
  lemma StemVersionOf(stem: string, digits: string)
    requires IsPackageStem(stem) && |digits| > 0 && AllDigits(digits)
    ensures MatchStemVersion(stem + "-" + digits) == Some(digits)
  {
    var s := stem + "-" + digits;
    LastDashBeforeDigits(stem, digits);
    assert s[..|stem|] == stem;
    assert s[|stem| + 1..] == digits;
  }

  /** Every split of the pattern's shape is accepted, and the captured group is
      the digit run of that split. */
  lemma MatchComplete(f: string, stem: string, digits: string, dot: char)
    requires MatchesAs(f, stem, digits, dot)
    ensures MatchPackageFilename(f) == Some(digits)
  {
    StemIsDirectoryWord(stem);
    MatchOnStem(f, stem + "-" + digits, dot);
    StemVersionOf(stem, digits);
  }

  /** Every accepted name has the pattern's shape, split at its last '-'. */
  lemma MatchSound(f: string)
    requires MatchPackageFilename(f).Some?
    ensures
      var s := f[..|f| - 4];
      var k := LastIndexOf(s, '-');
      MatchesAs(f, s[..k], MatchPackageFilename(f).value, f[|f| - 4])
  {
    var s := f[..|f| - 4];
    var k := LastIndexOf(s, '-');
    StemIsDirectoryWord(s[..k]);
    assert s == s[..k] + "-" + s[k + 1..];
    assert f == s + [f[|f| - 4]] + f[|f| - 3..];
  }

  // ---------------------------------------------------------------------------
  // Decimal conversions

  function DigitChar(d: nat): (c: char)
    requires d < 10
    ensures IsDigit(c)
  {
    ('0' as int + d) as char
  }

  function DigitValue(c: char): nat
    requires IsDigit(c)
  {
    c as int - '0' as int
  }

  /** Decimal text of a natural number, without leading zeros. */
  function Digits(n: nat): (s: string)
    ensures |s| > 0 && AllDigits(s)
  {
    if n < 10 then [DigitChar(n)] else Digits(n / 10) + [DigitChar(n % 10)]
  }

  /** Value of a run of decimal digits. */
  function ParseDigits(s: string): nat
    requires AllDigits(s)
  {
    if |s| == 0 then 0 else 10 * ParseDigits(s[..|s| - 1]) + DigitValue(s[|s| - 1])
  }

  /** Reading back the decimal text of `n` gives `n`. */
  lemma {:induction false} ParseDigitsOfDigits(n: nat)
    ensures ParseDigits(Digits(n)) == n
  {
    if n >= 10 {
      var s := Digits(n);
      assert s[..|s| - 1] == Digits(n / 10);
      ParseDigitsOfDigits(n / 10);
    }
  }

  /** `Integer.toString(v)`. */
  function IntegerToString(v: Int32): string {
    if v < 0 then "-" + Digits(-(v as int)) else Digits(v)
  }

  /** `Integer.valueOf(s)` for a text the pattern captured (digits only):
      `None` stands for the NumberFormatException thrown for an empty text or
      a value above `Integer.MAX_VALUE`. */
  function IntegerValueOf(s: string): (r: Option<Int32>)
    requires AllDigits(s)
    ensures r.Some? ==> 0 <= r.value
  {
    if |s| == 0 || ParseDigits(s) > MaxInt then None else Some(ParseDigits(s))
  }

  /** `filenameBase + "-" + version.toString() + ".zip"`. */
  function FilenameOf(base: string, version: Int32): string {
    base + "-" + IntegerToString(version) + ".zip"
  }

  /** A word ended by '-' is never a stem: after its last '/' comes a '-'. */
  lemma DashEndedIsNoStem(s: string)
    ensures !IsPackageStem(s + "-")
  {
    var t := s + "-";
    var j := LastIndexOf(t, '/');
    assert t[|t| - 1] == '-';
    if j + 1 < |t| {
      assert t[j + 1..][|t| - 1 - (j + 1)] == '-';
    }
  }

  /** A derived name with a non-negative version matches exactly when the
      base is a stem. */
  lemma NonNegativeFilenameMatches(base: string, version: Int32)
    requires 0 <= version
    ensures MatchPackageFilename(FilenameOf(base, version))
         == if IsPackageStem(base) then Some(Digits(version)) else None
  {
    var f := FilenameOf(base, version);
    var d := Digits(version);
    assert f == base + "-" + d + ['.'] + "zip";
    if IsPackageStem(base) {
      MatchComplete(f, base, d, '.');
    } else {
      var s := f[..|f| - 4];
      assert s == base + "-" + d;
      LastDashBeforeDigits(base, d);
      assert s[..|base|] == base;
    }
  }

  /** A derived name with a negative version never matches: the sign makes
      the text before the last '-' end in '-'. */
  lemma NegativeFilenameFails(base: string, version: Int32)
    requires version < 0
    ensures MatchPackageFilename(FilenameOf(base, version)) == None
  {
    var f := FilenameOf(base, version);
    var d := Digits(-(version as int));
    assert f == (base + "-") + "-" + d + ['.'] + "zip";
    var s := f[..|f| - 4];
    assert s == (base + "-") + "-" + d;
    LastDashBeforeDigits(base + "-", d);
    assert s[..|base| + 1] == base + "-";
    DashEndedIsNoStem(base);
  }

  /** The derived name matches exactly when the version is not negative and
      the base is a stem; the group then holds the version's decimal text. */
  lemma FilenameOfMatches(base: string, version: Int32)
    ensures MatchPackageFilename(FilenameOf(base, version))
         == if 0 <= version && IsPackageStem(base) then Some(Digits(version)) else None
  {
    if 0 <= version {
      NonNegativeFilenameMatches(base, version);
    } else {
      NegativeFilenameFails(base, version);
    }
  }

  /** The version read back from a derived name that matches is the
      configured version: `Integer.valueOf` never fails there. */
  lemma FileVersionRoundTrip(version: Int32)
    requires 0 <= version
    ensures IntegerValueOf(Digits(version)) == Some(version)
  {
    ParseDigitsOfDigits(version);
  }
}
