/**
  The string and path operations of the Python standard library that the
  paper-merge service relies on: `str.lower`, `str.endswith`, `str.split()`
  with no separator, `os.path.basename`, `os.path.splitext` (POSIX flavour)
  and `str(int)`.
*/
module Text {

  // ---------------------------------------------------------------------------
  // Case folding and suffix tests
  // ---------------------------------------------------------------------------

  /** Lower-cases one character; only the ASCII letters are folded. */
  function LowerChar(c: char): char
  {
    if 'A' <= c <= 'Z' then (c as int + 32) as char else c
  }

  /** `s.lower()`, character by character. */
  function Lower(s: string): string
  {
    seq(|s|, i requires 0 <= i < |s| => LowerChar(s[i]))
  }

  /** Lower-casing keeps the length and folds each character on its own. */
  lemma LowerFolds(s: string)
    ensures |Lower(s)| == |s|
    ensures forall i :: 0 <= i < |s| ==> Lower(s)[i] == LowerChar(s[i])
  {
  }

  /** `s.endswith(suffix)`. */
  predicate EndsWith(s: string, suffix: string)
  {
    |suffix| <= |s| && forall i :: 0 <= i < |suffix| ==> s[|s| - |suffix| + i] == suffix[i]
  }

  lemma EndsWithAppended(s: string, suffix: string)
    ensures EndsWith(s + suffix, suffix)
  {
    forall i | 0 <= i < |suffix| ensures (s + suffix)[|s| + i] == suffix[i] {
    }
  }

  /** `name.lower().endswith(suffix)`: the case-insensitive suffix test. */
  predicate EndsWithIgnoringCase(name: string, suffix: string)
  {
    EndsWith(Lower(name), suffix)
  }

  /**
    For a lower-case suffix the test looks only at the last |suffix| characters
    of the name, each compared after folding: upper- and lower-case spellings of
    the suffix are both accepted, and nothing before the suffix matters.
  */
  lemma SuffixTestByCharacters(name: string, suffix: string)
    requires Lower(suffix) == suffix
    ensures EndsWithIgnoringCase(name, suffix) <==>
      |suffix| <= |name| &&
      forall i :: 0 <= i < |suffix| ==> LowerChar(name[|name| - |suffix| + i]) == suffix[i]
  {
    LowerFolds(name);
    if |suffix| <= |name| {
      var tail := Lower(name)[|name| - |suffix|..];
      assert forall i :: 0 <= i < |suffix| ==> tail[i] == LowerChar(name[|name| - |suffix| + i]);
    }
  }

  /** Folding the case of the name first does not change the outcome of the test. */
  lemma {:induction false} SuffixTestIgnoresCase(name: string, suffix: string)
    ensures EndsWithIgnoringCase(Lower(name), suffix) == EndsWithIgnoringCase(name, suffix)
  {
    LowerFolds(name);
    LowerFolds(Lower(name));
    assert Lower(Lower(name)) == Lower(name) by {
      forall i | 0 <= i < |name| ensures Lower(Lower(name))[i] == Lower(name)[i] {
        assert LowerChar(LowerChar(name[i])) == LowerChar(name[i]);
      }
    }
  }

  /** A name that already ends with a lower-case suffix passes the case-insensitive test. */
  lemma EndsWithCaseFolded(name: string, suffix: string)
    requires Lower(suffix) == suffix && EndsWith(name, suffix)
    ensures EndsWithIgnoringCase(name, suffix)
  {
    var start := |name| - |suffix|;
    LowerFolds(name);
    LowerFolds(suffix);
    forall i | 0 <= i < |suffix|
      ensures Lower(name)[start..][i] == suffix[i]
    {
      assert name[start + i] == suffix[i];
      assert Lower(suffix)[i] == LowerChar(suffix[i]);
    }
  }

  /** `s[i:j]`, taken character by character. */
  function Substring(s: string, i: nat, j: nat): string
    requires i <= j <= |s|
  {
    seq(j - i, k requires 0 <= k < j - i => s[i + k])
  }

  // ---------------------------------------------------------------------------
  // Whitespace splitting: `s.split()`
  // ---------------------------------------------------------------------------

  /** `c.isspace()`: the characters Python treats as whitespace. */
  predicate IsSpace(c: char)
  {
    var n := c as int;
    (9 <= n <= 13) || (0x1C <= n <= 0x20) || n == 0x85 || n == 0xA0 || n == 0x1680 ||
    (0x2000 <= n <= 0x200A) || n == 0x2028 || n == 0x2029 || n == 0x202F ||
    n == 0x205F || n == 0x3000
  }

  predicate NoSpace(s: string)
  {
    forall i :: 0 <= i < |s| ==> !IsSpace(s[i])
  }

  predicate AllSpace(s: string)
  {
    forall i :: 0 <= i < |s| ==> IsSpace(s[i])
  }

  /** The index of the first non-whitespace character at or after i, or |s|. */
  function SkipSpace(s: string, i: nat): (j: nat)
    requires i <= |s|
    ensures i <= j <= |s|
    ensures forall k :: i <= k < j ==> IsSpace(s[k])
    ensures j == |s| || !IsSpace(s[j])
    decreases |s| - i
  {
    if i < |s| && IsSpace(s[i]) then SkipSpace(s, i + 1) else i
  }

  /** The end of the run of non-whitespace characters that starts at i. */
  function WordEnd(s: string, i: nat): (j: nat)
    requires i <= |s|
    ensures i <= j <= |s|
    ensures forall k :: i <= k < j ==> !IsSpace(s[k])
    ensures j == |s| || IsSpace(s[j])
    decreases |s| - i
  {
    if i < |s| && !IsSpace(s[i]) then WordEnd(s, i + 1) else i
  }

  /** `s[i:].split()`. */
  function SplitFrom(s: string, i: nat): (tokens: seq<string>)
    requires i <= |s|
    ensures tokens == [] <==> forall k :: i <= k < |s| ==> IsSpace(s[k])
    decreases |s| - i
  {
    var start := SkipSpace(s, i);
    if start == |s| then []
    else [Substring(s, start, WordEnd(s, start))] + SplitFrom(s, WordEnd(s, start))
  }

  /**
    `s.split()`: the maximal runs of non-whitespace characters, in order. The
    result is empty exactly when the string is empty or all whitespace, which
    is when `s.split()[0]` raises IndexError.
  */
  function Split(s: string): (tokens: seq<string>)
    ensures tokens == [] <==> AllSpace(s)
  {
    SplitFrom(s, 0)
  }

  /** Every token is a non-empty run without whitespace. */
  lemma {:induction false} SplitFromTokensAreWords(s: string, i: nat)
    requires i <= |s|
    ensures forall j :: 0 <= j < |SplitFrom(s, i)| ==> SplitFrom(s, i)[j] != [] && NoSpace(SplitFrom(s, i)[j])
    decreases |s| - i
  {
    var start := SkipSpace(s, i);
    if start < |s| {
      var end := WordEnd(s, start);
      SplitFromTokensAreWords(s, end);
      var word := Substring(s, start, end);
      assert word[0] == s[start];
      assert forall k :: 0 <= k < |word| ==> word[k] == s[start + k];
    }
  }

  lemma SplitTokensAreWords(s: string)
    ensures forall j :: 0 <= j < |Split(s)| ==> Split(s)[j] != [] && NoSpace(Split(s)[j])
  {
    SplitFromTokensAreWords(s, 0);
  }

  /**
    The first token is the word that follows the leading whitespace: for
    `spaces + word + rest` with `rest` empty or starting with whitespace, it is
    `word`.
  */
  lemma FirstToken(spaces: string, word: string, rest: string)
    requires AllSpace(spaces) && word != [] && NoSpace(word)
    requires rest == [] || IsSpace(rest[0])
    ensures Split(spaces + word + rest) != [] && Split(spaces + word + rest)[0] == word
  {
    var s := spaces + word + rest;
    var a, b := |spaces|, |spaces| + |word|;
    assert forall k :: 0 <= k < a ==> s[k] == spaces[k];
    assert forall k :: a <= k < b ==> s[k] == word[k - a];
    assert b < |s| ==> s[b] == rest[0];
    assert s[a] == word[0];
    assert SkipSpace(s, 0) == a;
    assert WordEnd(s, a) == b;
    assert Substring(s, a, b) == word;
  }

  /** A non-empty id without whitespace is its own first token. */
  lemma FirstTokenOfWord(word: string)
    requires word != [] && NoSpace(word)
    ensures Split(word) != [] && Split(word)[0] == word
  {
    FirstToken([], word, []);
    assert [] + word + [] == word;
  }

  // ---------------------------------------------------------------------------
  // POSIX paths: `os.path.basename`, `os.path.splitext`
  // ---------------------------------------------------------------------------

  /** `s.rfind(c)`: the last index holding c, or -1. */
  function LastIndexOf(s: string, c: char): (k: int)
    ensures -1 <= k < |s|
    ensures 0 <= k ==> s[k] == c
    ensures forall j :: k < j < |s| ==> s[j] != c
  {
    LastIndexBefore(s, c, |s|)
  }

  /** The last index below n holding c, or -1. */
  function LastIndexBefore(s: string, c: char, n: nat): (k: int)
    requires n <= |s|
    ensures -1 <= k < n
    ensures 0 <= k ==> s[k] == c
    ensures forall j :: k < j < n ==> s[j] != c
    decreases n
  {
    if n == 0 then -1 else if s[n - 1] == c then n - 1 else LastIndexBefore(s, c, n - 1)
  }

  /** The contract of LastIndexOf determines its value. */
  lemma LastIndexOfIs(s: string, c: char, k: int)
    requires k == -1 || (0 <= k < |s| && s[k] == c)
    requires forall j :: k < j < |s| ==> s[j] != c
    ensures LastIndexOf(s, c) == k
  {
  }

  /** `os.path.basename(p)`: what follows the last '/'. */
  function Basename(p: string): string
  {
    Substring(p, LastIndexOf(p, '/') + 1, |p|)
  }

  /** The basename is a suffix of the path holding no '/', and is the whole path or follows a '/'. */
  lemma BasenameIsLastComponent(p: string)
    ensures '/' !in Basename(p)
    ensures EndsWith(p, Basename(p))
    ensures Basename(p) == p || p[|p| - |Basename(p)| - 1] == '/'
  {
    var i := LastIndexOf(p, '/') + 1;
    var b := Basename(p);
    assert |b| == |p| - i;
    forall j | 0 <= j < |b| ensures p[i + j] == b[j] && b[j] != '/' {
    }
    if i == 0 {
      assert b == p;
    } else {
      assert p[|p| - |b| - 1] == '/';
    }
  }

  /**
    `os.path.splitext(p)`: the extension starts at the last '.', provided that
    dot is in the last path component and is preceded there by some character
    other than '.'; otherwise the extension is empty.
  */
  function SplitExt(p: string): (string, string)
  {
    var sep := LastIndexOf(p, '/');
    var dot := LastIndexOf(p, '.');
    if sep < dot && exists k :: sep < k < dot && p[k] != '.' then (Substring(p, 0, dot), Substring(p, dot, |p|))
    else (p, [])
  }

  /**
    The root and the extension put together give the path back; a non-empty
    extension is one '.' followed by neither '.' nor '/'.
  */
  lemma SplitExtParts(p: string)
    ensures SplitExt(p).0 + SplitExt(p).1 == p
    ensures var ext := SplitExt(p).1;
      ext == [] || (ext[0] == '.' && '.' !in ext[1..] && '/' !in ext)
  {
    var sep := LastIndexOf(p, '/');
    var dot := LastIndexOf(p, '.');
    if sep < dot && exists k :: sep < k < dot && p[k] != '.' {
      assert forall j :: dot < j < |p| ==> p[j] != '.' && p[j] != '/';
      var root, ext := Substring(p, 0, dot), Substring(p, dot, |p|);
      assert forall j :: 0 <= j < |p| ==> (root + ext)[j] == p[j];
    }
  }

  /**
    For a path `dir + stem + ext` whose last component is `stem + ext`, the
    basename without its extension is `stem`.
  */
  lemma {:induction false} StemOfPath(dir: string, stem: string, ext: string)
    requires dir == [] || dir[|dir| - 1] == '/'
    requires '/' !in stem && exists k :: 0 <= k < |stem| && stem[k] != '.'
    requires ext != [] && ext[0] == '.' && '.' !in ext[1..] && '/' !in ext
    ensures SplitExt(Basename(dir + stem + ext)).0 == stem
  {
    assert dir + stem + ext == dir + (stem + ext);
    BasenameAfterSlash(dir, stem + ext);
    RootOfName(stem, ext);
  }

  lemma BasenameAfterSlash(dir: string, name: string)
    requires dir == [] || dir[|dir| - 1] == '/'
    requires '/' !in name
    ensures Basename(dir + name) == name
  {
    var p, i := dir + name, |dir|;
    forall j | i <= j < |p| ensures p[j] != '/' {
      assert p[j] == name[j - i];
    }
    assert 0 < i ==> p[i - 1] == dir[i - 1];
    LastIndexOfIs(p, '/', i - 1);
    var b := Substring(p, i, |p|);
    forall k | 0 <= k < |name| ensures b[k] == name[k] {
      assert b[k] == p[i + k];
    }
  }

  lemma RootOfName(stem: string, ext: string)
    requires '/' !in stem && exists k :: 0 <= k < |stem| && stem[k] != '.'
    requires ext != [] && ext[0] == '.' && '.' !in ext[1..] && '/' !in ext
    ensures SplitExt(stem + ext).0 == stem
  {
    var name := stem + ext;
    assert forall j :: 0 <= j < |name| ==> name[j] != '/';
    LastIndexOfIs(name, '/', -1);
    assert forall j :: |stem| < j < |name| ==> name[j] == ext[j - |stem|];
    LastIndexOfIs(name, '.', |stem|);
    var k :| 0 <= k < |stem| && stem[k] != '.';
    assert name[k] == stem[k];
    assert Substring(name, 0, |stem|) == stem;
  }

  // ---------------------------------------------------------------------------
  // Decimal rendering: `str(n)` for integers
  // ---------------------------------------------------------------------------

  function DigitChar(d: nat): (c: char)
    requires d < 10
    ensures '0' <= c <= '9' && c as int - '0' as int == d
  {
    ('0' as int + d) as char
  }

  predicate IsDigits(s: string)
  {
    forall i :: 0 <= i < |s| ==> '0' <= s[i] <= '9'
  }

  /** `str(n)` for a non-negative integer: its decimal digits, most significant first. */
  function NatToString(n: nat): (s: string)
    ensures s != [] && IsDigits(s)
    ensures |s| > 1 ==> s[0] != '0'
    decreases n
  {
    if n < 10 then [DigitChar(n)] else NatToString(n / 10) + [DigitChar(n % 10)]
  }

  /** The value of a string of decimal digits (the empty string reads as 0). */
  function ParseNat(s: string): nat
    requires IsDigits(s)
    decreases |s|
  {
    if s == [] then 0 else ParseNat(s[..|s| - 1]) * 10 + (s[|s| - 1] as int - '0' as int)
  }

  lemma {:induction false} ParseNatToString(n: nat)
    ensures ParseNat(NatToString(n)) == n
    decreases n
  {
    if n >= 10 {
      ParseNatToString(n / 10);
      var s := NatToString(n / 10);
      assert (s + [DigitChar(n % 10)])[..|s|] == s;
    }
  }

  /** `str(i)` for any integer: a '-' before the digits of a negative number. */
  function IntToString(i: int): (s: string)
    ensures s != []
    ensures s[0] == '-' <==> i < 0
    ensures i < 0 ==> IsDigits(s[1..])
    ensures 0 <= i ==> IsDigits(s)
  {
    if i < 0 then "-" + NatToString(-i) else NatToString(i)
  }

  /** The integer an `IntToString` result denotes. */
  function ParseInt(s: string): int
    requires s != []
    requires if s[0] == '-' then IsDigits(s[1..]) else IsDigits(s)
  {
    if s[0] == '-' then -(ParseNat(s[1..]) as int) else ParseNat(s)
  }

  lemma IntRoundTrip(i: int)
    ensures ParseInt(IntToString(i)) == i
  {
    if i < 0 {
      ParseNatToString(-i);
      assert IntToString(i)[1..] == NatToString(-i);
    } else {
      ParseNatToString(i);
    }
  }

  /** Distinct integers render differently. */
  lemma IntToStringInjective(a: int, b: int)
    requires IntToString(a) == IntToString(b)
    ensures a == b
  {
    IntRoundTrip(a);
    IntRoundTrip(b);
  }
}
